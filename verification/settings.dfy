/** Power profiles and what they prescribe for one CPU: frequency limits,
    governor, energy preference and idle-state flags. */
module Settings {
  import opened Text

  const TWO32 := 0x1_0000_0000
  const TWO64 := 0x1_0000_0000_0000_0000

  /** Conversion to a 32-bit signed integer. */
  function ToInt32(x: int): (r: int)
    ensures -0x8000_0000 <= r < 0x8000_0000
    ensures -0x8000_0000 <= x < 0x8000_0000 ==> r == x
  {
    (x + 0x8000_0000) % TWO32 - 0x8000_0000
  }

  /** Conversion to a 64-bit unsigned integer. */
  function ToUint64(x: int): (r: nat)
    ensures 0 <= x < TWO64 ==> r == x
  {
    x % TWO64
  }

  function Min(a: int, b: int): (r: int) {
    if a <= b then a else b
  }

  function Max(a: int, b: int): (r: int) {
    if a <= b then b else a
  }

  type Int32 = x: int | -0x8000_0000 <= x < 0x8000_0000

  /** intstr.IntOrString: a 32-bit number, or a text such as "40%". */
  datatype Freq = Number(value: Int32) | Str(text: string)

  datatype PStates = PStates(minFreq: Freq, maxFreq: Freq, epp: string, governor: string)

  /** A frequency range in kHz: of one core, or of the whole system. */
  datatype Limits = Limits(min: nat, max: nat)

  // ---- p_states.go: from a profile to the two numbers written

  /** The value of a percentage text; the '%' is mandatory here. */
  function PercentOf(text: string): (r: Option<int>) {
    if HasSuffix(text, "%") then Atoi(TrimSuffix(text, "%")) else None
  }

  /** The least integer not below percent * total / 100. */
  function ScaleUp(percent: int, total: int): (r: int) {
    -((-(percent * total)) / 100)
  }

  function FreqFromIntOrString(f: Freq, core: Limits): (r: Option<nat>) {
    match f
    case Number(v) => Some(ToUint64(v))
    case Str(text) =>
      match PercentOf(text)
      case None => None
      case Some(p) => Some(ToUint64(core.min + ScaleUp(p, core.max - core.min)))
  }

  /** The requested (minimum, maximum) for a core, before clamping. */
  function FreqsToScale(p: PStates, core: Limits): (r: Option<(nat, nat)>) {
    if p.minFreq.Number? != p.maxFreq.Number? then None
    else
      match (FreqFromIntOrString(p.minFreq, core), FreqFromIntOrString(p.maxFreq, core))
      case (Some(lo), Some(hi)) => Some((lo, hi))
      case _ => None
  }

  /** The (minimum, maximum) that setDriverValues writes, or None if it aborts. */
  function FreqPlan(p: PStates, core: Limits, system: Limits): (r: Option<(nat, nat)>) {
    match FreqsToScale(p, core)
    case None => None
    case Some((lo0, hi0)) =>
      var hi := if hi0 > core.max && hi0 <= system.max then core.max else hi0;
      var lo := if lo0 < core.min && lo0 >= system.min then core.min else lo0;
      if hi > core.max || lo < core.min then None else Some((lo, hi))
  }

  ghost predicate Within(core: Limits, system: Limits) {
    system.min <= core.min <= core.max <= system.max
  }

  /** Exactly when a frequency request is carried out, what is then written, and
      exactly when the two written values are ordered. */
  lemma PlanClamps(p: PStates, core: Limits, system: Limits)
    requires Within(core, system)
    ensures FreqPlan(p, core, system).Some? <==>
              && FreqsToScale(p, core).Some?
              && system.min <= FreqsToScale(p, core).value.0
              && FreqsToScale(p, core).value.1 <= system.max
    ensures FreqPlan(p, core, system).Some? ==>
              var (lo, hi) := FreqPlan(p, core, system).value;
              var (lo0, hi0) := FreqsToScale(p, core).value;
              && lo == Max(lo0, core.min) && hi == Min(hi0, core.max)
              && (lo <= hi <==> lo0 <= hi0 && lo0 <= core.max && core.min <= hi0)
  {
    match FreqsToScale(p, core)
    case None =>
    case Some(_) =>
  }

  /** Scaling is monotone from 0 to the whole range; what it gives is the share that the
      percentage stands for, and less than one kHz more. */
  lemma {:induction false} ScaleUpMonotone(p: int, q: int, total: nat)
    requires p <= q
    ensures ScaleUp(p, total) <= ScaleUp(q, total)
    ensures ScaleUp(0, total) == 0 && ScaleUp(100, total) == total
    ensures p * total <= 100 * ScaleUp(p, total) < p * total + 100
  {
    assert p * total <= q * total by {
      assert (q - p) * total >= 0;
    }
    assert (-(100 * total)) / 100 == 0 - total;
  }

  lemma ScaleUpWithin(low: int, high: int, total: nat)
    requires 0 <= low <= high <= 100
    ensures 0 <= ScaleUp(low, total) <= ScaleUp(high, total) <= total
    ensures (low == 0 ==> ScaleUp(low, total) == 0) && (high == 100 ==> ScaleUp(high, total) == total)
  {
    ScaleUpMonotone(0, low, total);
    ScaleUpMonotone(low, high, total);
    ScaleUpMonotone(high, 100, total);
  }

  /** What is requested inside the core's own range is written as it is. */
  lemma InsideIsKept(p: PStates, core: Limits, system: Limits, lo: nat, hi: nat)
    requires Within(core, system) && FreqsToScale(p, core) == Some((lo, hi)) && core.min <= lo <= hi <= core.max
    ensures FreqPlan(p, core, system) == Some((lo, hi))
  {
  }

  /** A percentage text stands for its share of the core's own range. */
  lemma PercentOfRange(text: string, percent: int, core: Limits, share: int)
    requires PercentOf(text) == Some(percent) && share == ScaleUp(percent, core.max - core.min)
    requires 0 <= core.min + share < TWO64
    ensures FreqFromIntOrString(Str(text), core) == Some(core.min + share)
  {
  }

  /** Percentages between 0 and 100 never abort on any core and land, in order,
      inside that core's own range, that share of it above its minimum, rounded up to
      the next kHz. */
  lemma PercentagesFitEveryCore(p: PStates, low: int, high: int, core: Limits, system: Limits)
    requires p.minFreq.Str? && PercentOf(p.minFreq.text) == Some(low)
    requires p.maxFreq.Str? && PercentOf(p.maxFreq.text) == Some(high)
    requires 0 <= low <= high <= 100
    requires Within(core, system) && core.max < TWO64
    ensures FreqPlan(p, core, system).Some?
    ensures var (lo, hi) := FreqPlan(p, core, system).value;
            && core.min <= lo <= hi <= core.max
            && (low == 0 ==> lo == core.min) && (high == 100 ==> hi == core.max)
            && low * (core.max - core.min) <= 100 * (lo - core.min) < low * (core.max - core.min) + 100
            && high * (core.max - core.min) <= 100 * (hi - core.min) < high * (core.max - core.min) + 100
  {
    ScaleUpMonotone(low, high, core.max - core.min);
    ScaleUpMonotone(high, high, core.max - core.min);
    var a, b := ScaleUp(low, core.max - core.min), ScaleUp(high, core.max - core.min);
    ScaleUpWithin(low, high, core.max - core.min);
    PercentOfRange(p.minFreq.text, low, core, a);
    PercentOfRange(p.maxFreq.text, high, core, b);
    InsideIsKept(p, core, system, core.min + a, core.min + b);
  }

  /** A number followed by a percent sign is read as that percentage. */
  lemma PercentText(n: nat)
    requires n <= MAX_INT
    ensures PercentOf(Itoa(n) + "%") == Some(n) && Atoi(TrimSuffix(Itoa(n) + "%", "%")) == Some(n)
  {
    ItoaRoundTrip(n);
    assert (Itoa(n) + "%")[|Itoa(n)|..] == "%" && (Itoa(n) + "%")[..|Itoa(n)|] == Itoa(n);
  }

  /** What a pair of numbers in kHz means on a core: the numbers, raised and lowered to
      the core's own range. */
  lemma NumbersAreClamped(low: Int32, high: Int32, epp: string, governor: string, core: Limits, system: Limits)
    requires system.min <= core.min <= core.max <= system.max
    ensures var plan := FreqPlan(PStates(Number(low), Number(high), epp, governor), core, system);
            0 <= low && 0 <= high ==>
              && (plan.Some? <==> system.min <= low && high <= system.max)
              && (plan.Some? ==>
                    && plan.value.0 == (if low < core.min then core.min else low)
                    && plan.value.1 == (if core.max < high then core.max else high))
  {
    PlanClamps(PStates(Number(low), Number(high), epp, governor), core, system);
  }

  // ---- power_profile.go: admission of a profile (frequencies in MHz)

  function AdjustMinMaxFreq(minFreq: Option<Freq>, maxFreq: Option<Freq>, system: Limits): (r: Option<(Freq, Freq)>) {
    var (lo, hi) :=
      match (minFreq, maxFreq)
      case (None, Some(m)) => (if m.Number? then Number(ToInt32(system.min / 1000)) else Str("0%"), m)
      case (Some(m), None) => (m, if m.Number? then Number(ToInt32(system.max / 1000)) else Str("100%"))
      case (None, None) => (Str("0%"), Str("100%"))
      case (Some(m), Some(n)) => (m, n);
    if lo.Number? != hi.Number? then None else Some((lo, hi))
  }

  const DEFAULT_GOVERNOR := "powersave"
  const PERFORMANCE := "performance"

  predicate ValidatePStates(lo: Freq, hi: Freq, governor: string, epp: string, system: Limits, available: seq<string>) {
    && lo.Number? == hi.Number?
    && (match (lo, hi)
        case (Number(l), Number(h)) =>
          && 0 <= l <= h
          && ToInt32(system.min / 1000) <= l && h <= ToInt32(system.max / 1000)
        case (Str(l), Str(h)) =>
          && Atoi(TrimSuffix(l, "%")).Some? && Atoi(TrimSuffix(h, "%")).Some?
          && Atoi(TrimSuffix(l, "%")).value <= Atoi(TrimSuffix(h, "%")).value
        case _ => false)
    && (var gov := if governor == "" then DEFAULT_GOVERNOR else governor;
        && gov in available
        && !(epp != "" && gov == PERFORMANCE && epp != PERFORMANCE))
  }

  function ToKHz(f: Freq): (r: Freq) {
    match f
    case Number(v) => Number(ToInt32(v * 1000))
    case Str(_) => f
  }

  /** The P-state half of NewPowerProfile. */
  function NewPStates(minFreq: Option<Freq>, maxFreq: Option<Freq>, governor: string, epp: string,
                      system: Limits, available: seq<string>): (r: Option<PStates>)
  {
    match AdjustMinMaxFreq(minFreq, maxFreq, system)
    case None => None
    case Some((lo, hi)) =>
      if ValidatePStates(lo, hi, governor, epp, system, available)
      then Some(PStates(ToKHz(lo), ToKHz(hi), epp, governor))
      else None
  }

  /** Exactly which absolute requests are accepted, and what comes of them in kHz. A bound
      that is missing is the system's. */
  lemma NumbersAccepted(minMHz: Option<Int32>, maxMHz: Option<Int32>, governor: string, epp: string, system: Limits, available: seq<string>)
    requires system.min <= system.max < 0x8000_0000 && (minMHz.Some? || maxMHz.Some?)
    ensures var lo: int := if minMHz.Some? then minMHz.value else system.min / 1000;
            var hi: int := if maxMHz.Some? then maxMHz.value else system.max / 1000;
            var r := NewPStates(if minMHz.Some? then Some(Number(minMHz.value)) else None,
                                if maxMHz.Some? then Some(Number(maxMHz.value)) else None, governor, epp, system, available);
            && (r.Some? <==>
                  && system.min / 1000 <= lo <= hi <= system.max / 1000
                  && (if governor == "" then "powersave" in available else governor in available)
                  && (governor == "performance" ==> epp == "" || epp == "performance"))
            && (r.Some? ==> r.value == PStates(Number(1000 * lo), Number(1000 * hi), epp, governor))
  {
  }

  /** A number does not go with a percentage: such a profile is not valid, and no core would
      carry it out. Nor would one carry out a text without a percent sign. */
  lemma MixedRefused(text: string, number: Int32, other: Freq, governor: string, epp: string, system: Limits, available: seq<string>)
    ensures NewPStates(Some(Str(text)), Some(Number(number)), governor, epp, system, available).None?
    ensures NewPStates(Some(Number(number)), Some(Str(text)), governor, epp, system, available).None?
    ensures forall core :: FreqPlan(PStates(Str(text), Number(number), epp, governor), core, system).None?
    ensures forall core :: FreqPlan(PStates(Number(number), Str(text), epp, governor), core, system).None?
    ensures !HasSuffix(text, "%") ==> forall core ::
              && FreqPlan(PStates(Str(text), other, epp, governor), core, system).None?
              && FreqPlan(PStates(other, Str(text), epp, governor), core, system).None?
  {
  }

  /** The same for texts, where a missing bound is 0% or 100%, as it is if both are
      missing. The percent sign may be absent here. */
  lemma TextsAccepted(low: Option<string>, high: Option<string>, governor: string, epp: string, system: Limits, available: seq<string>)
    ensures var (lo, hi) := (if low.Some? then low.value else "0%", if high.Some? then high.value else "100%");
            var r := NewPStates(if low.Some? then Some(Str(low.value)) else None, if high.Some? then Some(Str(high.value)) else None,
                                governor, epp, system, available);
            && (r.Some? <==>
                  && Atoi(TrimSuffix(lo, "%")).Some? && Atoi(TrimSuffix(hi, "%")).Some?
                  && Atoi(TrimSuffix(lo, "%")).value <= Atoi(TrimSuffix(hi, "%")).value
                  && (if governor == "" then "powersave" in available else governor in available)
                  && (governor == "performance" ==> epp == "" || epp == "performance"))
            && (r.Some? ==> r.value == PStates(Str(lo), Str(hi), epp, governor))
  {
  }

  /** Exactly when an accepted absolute profile aborts on a core: when its minimum
      lies below the system minimum, which validation lets through because it
      compares whole MHz. The outcome is the same on every core. */
  lemma AcceptedAbsoluteProfile(minFreq: Option<Freq>, maxFreq: Option<Freq>, governor: string, epp: string,
                                core: Limits, system: Limits, available: seq<string>)
    requires Within(core, system) && system.max < 0x8000_0000
    requires var p := NewPStates(minFreq, maxFreq, governor, epp, system, available);
             p.Some? && p.value.maxFreq.Number?
    ensures var p := NewPStates(minFreq, maxFreq, governor, epp, system, available).value;
            && p.minFreq.Number? && 0 <= p.minFreq.value <= p.maxFreq.value <= system.max
            && (FreqPlan(p, core, system).None? <==> p.minFreq.value < system.min)
            && (system.min % 1000 == 0 ==> FreqPlan(p, core, system).Some?)
            && (minFreq.None? ==> (FreqPlan(p, core, system).None? <==> system.min % 1000 != 0))
  {
    var p := NewPStates(minFreq, maxFreq, governor, epp, system, available).value;
    var (lo, hi) := AdjustMinMaxFreq(minFreq, maxFreq, system).value;
    assert hi.Number? && lo.Number?;
    assert 0 <= lo.value * 1000 <= hi.value * 1000 <= system.max;
    assert p.minFreq == Number(lo.value * 1000) && p.maxFreq == Number(hi.value * 1000);
    PlanClamps(p, core, system);
  }

  /** Exactly when a core carries an accepted text profile out. Validation accepts "50"
      without a percent sign, which no core carries out, and any ordered pair of
      percentages. With the sign on both texts, the scaled range must lie within the
      system's; that is so for percentages from 0 to 100 on every core. */
  lemma AcceptedTextProfile(lo: string, hi: string, governor: string, epp: string,
                            core: Limits, system: Limits, available: seq<string>)
    requires Within(core, system)
    requires ValidatePStates(Str(lo), Str(hi), governor, epp, system, available)
    ensures var (p, low, high) := (PStates(Str(lo), Str(hi), epp, governor),
                                   Atoi(TrimSuffix(lo, "%")).value, Atoi(TrimSuffix(hi, "%")).value);
            && (FreqPlan(p, core, system).Some? <==>
                  && HasSuffix(lo, "%") && HasSuffix(hi, "%")
                  && system.min <= ToUint64(core.min + ScaleUp(low, core.max - core.min))
                  && ToUint64(core.min + ScaleUp(high, core.max - core.min)) <= system.max)
            && (0 <= low && high <= 100 && core.max < TWO64 ==>
                  (FreqPlan(p, core, system).Some? <==> HasSuffix(lo, "%") && HasSuffix(hi, "%")))
  {
    var p := PStates(Str(lo), Str(hi), epp, governor);
    var low, high := Atoi(TrimSuffix(lo, "%")).value, Atoi(TrimSuffix(hi, "%")).value;
    PlanClamps(p, core, system);
    if 0 <= low && high <= 100 && core.max < TWO64 && HasSuffix(lo, "%") && HasSuffix(hi, "%") {
      PercentagesFitEveryCore(p, low, high, core, system);
    }
  }

  /** On a core as wide as the system, a percentage above 100 passes validation and is
      never carried out; the pattern of the resource definition keeps it out. */
  lemma PercentagesAboveRange(lo: string, hi: string, governor: string, epp: string,
                              core: Limits, available: seq<string>)
    requires core.min < core.max
    requires ValidatePStates(Str(lo), Str(hi), governor, epp, core, available)
    requires HasSuffix(hi, "%") && Atoi(TrimSuffix(hi, "%")).value >= 101
    requires core.min + ScaleUp(Atoi(TrimSuffix(hi, "%")).value, core.max - core.min) < TWO64
    ensures FreqPlan(PStates(Str(lo), Str(hi), epp, governor), core, core).None?
  {
    var high, delta := Atoi(TrimSuffix(hi, "%")).value, core.max - core.min;
    AcceptedTextProfile(lo, hi, governor, epp, core, core, available);
    ScaleUpMonotone(101, high, delta);
    assert ScaleUp(101, delta) > delta;
  }

  // ---- c_states.go

  datatype CStateInfo = CStateInfo(latency: int, defaultOn: bool)

  datatype CStates = CStates(states: map<string, bool>, maxLatencyUs: Option<int>)

  datatype Profile = Profile(name: string, pstates: PStates, cstates: CStates)

  function ConfigByLatency(info: map<string, CStateInfo>, maxLatencyUs: int): (r: map<string, bool>) {
    map name | name in info :: info[name].latency <= maxLatencyUs
  }

  function ConfigByNames(info: map<string, CStateInfo>, names: map<string, bool>): (r: map<string, bool>) {
    map name | name in info :: if name in names then names[name] else info[name].defaultOn
  }

  function DefaultCStates(info: map<string, CStateInfo>): (r: map<string, bool>) {
    map name | name in info :: info[name].defaultOn
  }

  /** Which idle states a CPU should have enabled, by name. */
  function WantedCStates(info: map<string, CStateInfo>, profile: Option<Profile>): (r: map<string, bool>)
    ensures r.Keys == info.Keys
  {
    match profile
    case Some(p) =>
      if p.cstates.maxLatencyUs.Some? then ConfigByLatency(info, p.cstates.maxLatencyUs.value)
      else if p.cstates.states != map[] then ConfigByNames(info, p.cstates.states)
      else DefaultCStates(info)
    case None => DefaultCStates(info)
  }

  // ---- what a CPU must look like

  /** What the library read about one CPU at start-up. */
  datatype CpuInfo = CpuInfo(limits: Limits, defaults: PStates, cstates: map<string, CStateInfo>)

  /** The machine: which features work, every CPU, and the system-wide range. */
  datatype Platform = Platform(freqScaling: bool, idleStates: bool, cpus: seq<CpuInfo>, system: Limits)

  /** The control files of one CPU. */
  datatype Registers = Registers(governor: string, epp: string, minFreq: nat, maxFreq: nat,
                                 disabled: map<string, bool>)

  function WantedPStates(info: CpuInfo, profile: Option<Profile>): (r: PStates) {
    match profile
    case Some(p) => p.pstates
    case None => info.defaults
  }

  ghost predicate FrequencySettled(r: Registers, want: PStates, core: Limits, system: Limits) {
    && r.governor == want.governor
    && (want.epp != "" ==> r.epp == want.epp)
    && FreqPlan(want, core, system) == Some((r.minFreq, r.maxFreq))
  }

  ghost predicate IdleSettled(r: Registers, want: map<string, bool>) {
    forall name | name in want :: name in r.disabled && r.disabled[name] == !want[name]
  }

  /** The registers hold what the profile prescribes for this CPU (the start-up
      defaults if there is no profile). */
  ghost predicate Settled(r: Registers, info: CpuInfo, platform: Platform, profile: Option<Profile>) {
    && (platform.freqScaling ==> FrequencySettled(r, WantedPStates(info, profile), info.limits, platform.system))
    && (platform.idleStates ==> IdleSettled(r, WantedCStates(info.cstates, profile)))
  }

  /** What the control files say about frequencies, in numbers: absolute bounds are held
      against the core's own range, percentages are shares of that range. */
  ghost predicate FrequenciesSay(r: Registers, want: PStates, core: Limits) {
    && r.governor == want.governor && (want.epp != "" ==> r.epp == want.epp)
    && (forall low: Int32, high: Int32 | 0 <= low && 0 <= high && want.minFreq == Number(low) && want.maxFreq == Number(high) ::
          && r.minFreq == (if low < core.min then core.min else low)
          && r.maxFreq == (if core.max < high then core.max else high))
    && (forall low: nat, high: nat | low <= high <= 100 && want.minFreq == Str(Itoa(low) + "%") && want.maxFreq == Str(Itoa(high) + "%") ::
          && low * (core.max - core.min) <= 100 * (r.minFreq - core.min) < low * (core.max - core.min) + 100
          && high * (core.max - core.min) <= 100 * (r.maxFreq - core.min) < high * (core.max - core.min) + 100)
  }

  /** And about idle states: by latency if the profile limits it, else as listed, else by
      default. */
  ghost predicate IdleStatesSay(r: Registers, info: map<string, CStateInfo>, profile: Option<Profile>) {
    forall name | name in info ::
      && name in r.disabled
      && (r.disabled[name] <==>
            if profile.Some? && profile.value.cstates.maxLatencyUs.Some?
            then info[name].latency > profile.value.cstates.maxLatencyUs.value
            else if profile.Some? && name in profile.value.cstates.states then !profile.value.cstates.states[name]
            else !info[name].defaultOn)
  }

  ghost predicate RegistersSay(r: Registers, info: CpuInfo, platform: Platform, profile: Option<Profile>) {
    && (platform.freqScaling && Within(info.limits, platform.system) && info.limits.max < TWO64 ==>
          FrequenciesSay(r, if profile.Some? then profile.value.pstates else info.defaults, info.limits))
    && (platform.idleStates ==> IdleStatesSay(r, info.cstates, profile))
  }

  lemma FrequencySettledSays(r: Registers, want: PStates, core: Limits, system: Limits)
    requires FrequencySettled(r, want, core, system) && Within(core, system) && core.max < TWO64
    ensures FrequenciesSay(r, want, core)
  {
    forall low: Int32, high: Int32 | 0 <= low && 0 <= high && want.minFreq == Number(low) && want.maxFreq == Number(high)
      ensures r.minFreq == (if low < core.min then core.min else low) && r.maxFreq == (if core.max < high then core.max else high)
    {
      NumbersAreClamped(low, high, want.epp, want.governor, core, system);
    }
    forall low: nat, high: nat | low <= high <= 100 && want.minFreq == Str(Itoa(low) + "%") && want.maxFreq == Str(Itoa(high) + "%")
      ensures low * (core.max - core.min) <= 100 * (r.minFreq - core.min) < low * (core.max - core.min) + 100
      ensures high * (core.max - core.min) <= 100 * (r.maxFreq - core.min) < high * (core.max - core.min) + 100
    {
      PercentText(low);
      PercentText(high);
      PercentagesFitEveryCore(want, low, high, core, system);
    }
  }

  /** Settled control files say what the profile stands for, or the start-up defaults if
      there is no profile. */
  lemma SettledSays(r: Registers, info: CpuInfo, platform: Platform, profile: Option<Profile>)
    requires Settled(r, info, platform, profile)
    ensures RegistersSay(r, info, platform, profile)
  {
    if platform.freqScaling && Within(info.limits, platform.system) && info.limits.max < TWO64 {
      FrequencySettledSays(r, WantedPStates(info, profile), info.limits, platform.system);
    }
    assert forall name | name in info.cstates :: name in WantedCStates(info.cstates, profile);
  }

  /** A frequency request that this core can carry out. */
  ghost predicate Feasible(info: CpuInfo, platform: Platform, profile: Option<Profile>) {
    platform.freqScaling ==> FreqPlan(WantedPStates(info, profile), info.limits, platform.system).Some?
  }

  ghost predicate FeasibleEverywhere(platform: Platform, profile: Option<Profile>) {
    forall id | 0 <= id < |platform.cpus| :: Feasible(platform.cpus[id], platform, profile)
  }

  /** What the library reads at start-up: every core's range within the system's, and
      that range as its default. */
  ghost predicate PlatformOk(platform: Platform) {
    forall id | 0 <= id < |platform.cpus| :: CpuOk(platform.cpus[id], platform.system)
  }

  ghost predicate CpuOk(info: CpuInfo, system: Limits) {
    && Within(info.limits, system) && info.limits.max < 0x8000_0000
    && info.defaults.minFreq == Number(info.limits.min) && info.defaults.maxFreq == Number(info.limits.max)
  }

  /** No profile, a profile of percentages between 0 and 100, and an accepted absolute
      profile on a system whose minimum is a whole MHz can be met on every CPU. */
  lemma AcceptedIsFeasibleEverywhere(platform: Platform, profile: Option<Profile>, minFreq: Option<Freq>, maxFreq: Option<Freq>,
                                     available: seq<string>)
    requires PlatformOk(platform) && platform.system.max < 0x8000_0000
    requires profile.Some? ==>
               var p := profile.value.pstates;
               && NewPStates(minFreq, maxFreq, p.governor, p.epp, platform.system, available) == Some(p)
               && match p.maxFreq
                  case Number(_) => platform.system.min % 1000 == 0
                  case Str(hi) =>
                    && p.minFreq.Str? && PercentOf(p.minFreq.text).Some? && PercentOf(hi).Some?
                    && 0 <= PercentOf(p.minFreq.text).value <= PercentOf(hi).value <= 100
    ensures FeasibleEverywhere(platform, profile)
  {
    forall id | 0 <= id < |platform.cpus|
      ensures Feasible(platform.cpus[id], platform, profile)
    {
      var info := platform.cpus[id];
      assert CpuOk(info, platform.system);
      if profile.None? {
        PlanClamps(info.defaults, info.limits, platform.system);
      } else {
        var p := profile.value.pstates;
        if p.maxFreq.Number? {
          AcceptedAbsoluteProfile(minFreq, maxFreq, p.governor, p.epp, info.limits, platform.system, available);
        } else {
          PercentagesFitEveryCore(p, PercentOf(p.minFreq.text).value, PercentOf(p.maxFreq.text).value, info.limits, platform.system);
        }
      }
    }
  }

  /** Write one disable flag per wanted idle state, in no particular order. */
  method ApplyCStates(start: Registers, wanted: map<string, bool>) returns (ok: bool, r: Registers)
    ensures r == start.(disabled := r.disabled)
    ensures forall name | name !in wanted :: (name in r.disabled <==> name in start.disabled)
                          && (name in r.disabled ==> r.disabled[name] == start.disabled[name])
    ensures ok ==> IdleSettled(r, wanted)
    ensures wanted == map[] ==> ok
    ensures forall name | name in wanted ::
              || (name in r.disabled && r.disabled[name] == !wanted[name])
              || ((name in r.disabled <==> name in start.disabled) && (name in r.disabled ==> r.disabled[name] == start.disabled[name]))
  {
    r := start;
    var left := wanted.Keys;
    while left != {}
      invariant left <= wanted.Keys
      invariant r == start.(disabled := r.disabled)
      invariant forall name | name !in wanted :: (name in r.disabled <==> name in start.disabled)
                              && (name in r.disabled ==> r.disabled[name] == start.disabled[name])
      invariant forall name | name in left :: (name in r.disabled <==> name in start.disabled)
                              && (name in r.disabled ==> r.disabled[name] == start.disabled[name])
      invariant forall name | name in wanted.Keys - left ::
                  name in r.disabled && r.disabled[name] == !wanted[name]
    {
      var name :| name in left;
      left := left - {name};
      ok := *;
      if !ok {
        return false, r;
      }
      r := r.(disabled := r.disabled[name := !wanted[name]]);
    }
    return true, r;
  }

  /** Governor, energy preference, then the clamped maximum and minimum. Any write
      may fail; apart from that this fails only if the range cannot be met. */
  method SetDriverValues(start: Registers, want: PStates, core: Limits, system: Limits)
    returns (ok: bool, r: Registers, ghost writeFailed: bool)
    ensures ok <==> !writeFailed && FreqPlan(want, core, system).Some?
    ensures ok ==> FrequencySettled(r, want, core, system)
    ensures ok && Within(core, system) && core.max < TWO64 ==> FrequenciesSay(r, want, core)
    ensures want.epp == "" ==> r.epp == start.epp
    ensures r.disabled == start.disabled
    ensures FreqPlan(want, core, system).None? ==> r.minFreq == start.minFreq && r.maxFreq == start.maxFreq
    // An abort comes behind governor and preference. After a failed write each file is as it was or as wanted, in that order.
    ensures !ok && !writeFailed ==> r == start.(governor := want.governor, epp := if want.epp != "" then want.epp else start.epp)
    ensures writeFailed ==>
              && r.minFreq == start.minFreq
              && (r.governor == start.governor || r.governor == want.governor)
              && (r.epp != start.epp ==> r.governor == want.governor && r.epp == want.epp)
              && (r.maxFreq != start.maxFreq ==>
                    && r.governor == want.governor && (want.epp != "" ==> r.epp == want.epp)
                    && FreqPlan(want, core, system).Some? && r.maxFreq == FreqPlan(want, core, system).value.1)
  {
    r := start;
    ok := *;
    if !ok {
      return false, r, true;
    }
    r := r.(governor := want.governor);
    if want.epp != "" {
      ok := *;
      if !ok {
        return false, r, true;
      }
      r := r.(epp := want.epp);
    }
    var plan := FreqPlan(want, core, system);
    if plan.None? {
      return false, r, false;
    }
    ok := *;
    if !ok {
      return false, r, true;
    }
    r := r.(maxFreq := plan.value.1);
    ok := *;
    writeFailed := !ok;
    if ok {
      r := r.(minFreq := plan.value.0);
      if Within(core, system) && core.max < TWO64 {
        FrequencySettledSays(r, want, core, system);
      }
    }
  }

  /** Apply a pool's profile to a CPU: frequencies first, then idle states. */
  method Consolidate(start: Registers, info: CpuInfo, platform: Platform, profile: Option<Profile>)
    returns (ok: bool, r: Registers, ghost writeFailed: bool)
    ensures ok ==> Settled(r, info, platform, profile)
    ensures ok <==> !writeFailed && Feasible(info, platform, profile)
    // What the control files say afterwards.
    ensures var want := if profile.Some? then profile.value.pstates else info.defaults;
            ok && platform.freqScaling ==>
              && r.governor == want.governor && r.epp == (if want.epp != "" then want.epp else start.epp)
              && (Within(info.limits, platform.system) && info.limits.max < TWO64 ==> FrequenciesSay(r, want, info.limits))
    ensures ok && platform.idleStates ==> forall name | name in info.cstates ::
              && name in r.disabled
              && (r.disabled[name] <==>
                    if profile.Some? && profile.value.cstates.maxLatencyUs.Some?
                    then info.cstates[name].latency > profile.value.cstates.maxLatencyUs.value
                    else if profile.Some? && name in profile.value.cstates.states then !profile.value.cstates.states[name]
                    else !info.cstates[name].defaultOn)
    ensures !platform.freqScaling ==> r == start.(disabled := r.disabled)
    ensures !platform.idleStates ==> r.disabled == start.disabled
  {
    ok, r, writeFailed := ConsolidateBoth(start, info, platform, profile);
    if ok {
      SettledSays(r, info, platform, profile);
    }
  }

  /** The two steps. */
  method ConsolidateBoth(start: Registers, info: CpuInfo, platform: Platform, profile: Option<Profile>)
    returns (ok: bool, r: Registers, ghost writeFailed: bool)
    ensures ok ==> Settled(r, info, platform, profile)
    ensures ok <==> !writeFailed && Feasible(info, platform, profile)
    ensures ok && platform.freqScaling && WantedPStates(info, profile).epp == "" ==> r.epp == start.epp
    ensures !platform.freqScaling ==> r == start.(disabled := r.disabled)
    ensures !platform.idleStates ==> r.disabled == start.disabled
  {
    r := start;
    if platform.freqScaling {
      ok, r, writeFailed := SetDriverValues(r, WantedPStates(info, profile), info.limits, platform.system);
      if !ok {
        return;
      }
    }
    if platform.idleStates {
      ok, r := ApplyCStates(r, WantedCStates(info.cstates, profile));
      return ok, r, !ok;
    }
    return true, r, false;
  }
}
