/** internal/scaling/updater.go and generateCPUScalingOpts of
    controllers/powerpod_controller.go: the loop that steers one CPU's frequency so
    that its usage approaches a target. */
module Scaling {
  import opened Text

  const FREQUENCY_NOT_YET_SET: int := -1

  /** The constant part of a CPU's scaling options. Frequencies are in kHz, usages
      in percent. */
  datatype Policy = Policy(target: int, usageTolerance: int, freqTolerance: int,
                           hwMin: int, hwMax: int, scale: real, fallback: int)
  {
    /** target > 0 because the loop divides by it. */
    ghost predicate Ok() {
      0 < target && 0 <= hwMin <= fallback <= hwMax
    }
  }

  function FallbackFreq(min: nat, max: nat, percent: nat): (r: nat)
    requires min <= max
  {
    min + (max - min) * percent / 100
  }

  /** The fallback lies within the hardware limits of every CPU exactly if the
      configured percentage is at most 100. */
  lemma FallbackInRange(percent: nat)
    ensures (forall min: nat, max: nat | min <= max :: min <= FallbackFreq(min, max, percent) <= max) <==> percent <= 100
  {
    if percent <= 100 {
      forall min: nat, max: nat | min <= max
        ensures min <= FallbackFreq(min, max, percent) <= max
      {
        assert (max - min) * percent <= (max - min) * 100;
      }
    } else {
      assert FallbackFreq(0, 100, percent) > 100;
    }
  }

  /** Conversion of a float to an integer drops the fraction. */
  function Trunc(x: real): (r: int) {
    if x >= 0.0 then x.Floor else 0 - (0.0 - x).Floor
  }

  function Clamp(x: int, lo: int, hi: int): (r: int) {
    var y := if x < lo then lo else x;
    if y > hi then hi else y
  }

  /** The frequency computed before truncation and clamping. */
  function Scaled(freq: real, usage: real, target: real, scale: real): (r: real)
    requires target != 0.0
  {
    freq * (1.0 + (usage / target - 1.0) * scale)
  }

  /** freq * usage / target would do the current work at exactly the target usage. */
  function Ideal(freq: real, usage: real, target: real): (r: real)
    requires target != 0.0
  {
    freq * usage / target
  }

  function Abs(x: real): (r: real) {
    if x < 0.0 then 0.0 - x else x
  }

  /** One step removes the share `scale` of the distance to the ideal frequency. */
  lemma DistanceShrinks(freq: real, usage: real, target: real, scale: real)
    requires target != 0.0
    ensures var ideal := Ideal(freq, usage, target);
            Scaled(freq, usage, target, scale) - ideal == (1.0 - scale) * (freq - ideal)
  {
    var q := usage / target;
    assert freq * usage / target == freq * q;
    assert freq * (1.0 + (q - 1.0) * scale) == freq + freq * (q - 1.0) * scale;
  }

  /** The frequency the loop asks for, with truncation and clamping. */
  function Rounded(freq: real, usage: real, target: real, scale: real, lo: int, hi: int): (r: int)
    requires target != 0.0
  {
    Clamp(Trunc(Scaled(freq, usage, target, scale)), lo, hi)
  }

  function Next(p: Policy, freq: int, usage: int): (r: int)
    requires p.Ok()
  {
    Rounded(freq as real, usage as real, p.target as real, p.scale, p.hwMin, p.hwMax)
  }

  /** f is x without its fraction, or the end of the range beyond which x lies. */
  ghost predicate CutOff(f: int, x: real, lo: int, hi: int) {
    && lo <= f <= hi
    && (lo as real <= x <= hi as real ==> f as real <= x < (f + 1) as real)
    && (x < lo as real ==> f == lo)
    && (hi as real < x ==> f == hi)
  }

  /** f is what a usage u at frequency g calls for. */
  ghost predicate CalledFor(p: Policy, f: int, g: int, u: int)
    requires p.target != 0
  {
    CutOff(f, g as real + g as real * p.scale * (u as real / p.target as real - 1.0), p.hwMin, p.hwMax)
  }

  lemma NextIsCalledFor(p: Policy, freq: int, usage: int)
    requires p.Ok()
    ensures CalledFor(p, Next(p, freq, usage), freq, usage)
  {
    var x := Scaled(freq as real, usage as real, p.target as real, p.scale);
    ClampedTrunc(x, p.hwMin, p.hwMax);
    Distributes(freq as real, usage as real / p.target as real - 1.0, p.scale);
    assert x == freq as real + freq as real * p.scale * (usage as real / p.target as real - 1.0);
  }

  lemma Distributes(g: real, q: real, s: real)
    ensures g * (1.0 + q * s) == g + g * s * q
  {
  }

  lemma ClampedTrunc(x: real, lo: int, hi: int)
    requires 0 <= lo <= hi
    ensures CutOff(Clamp(Trunc(x), lo, hi), x, lo, hi)
  {
  }

  /** Truncation and clamping cost at most 1 kHz, if the ideal frequency is one the
      hardware allows. */
  lemma RoundedApproachesIdeal(freq: real, usage: real, target: real, scale: real, lo: int, hi: int)
    requires target != 0.0 && lo as real <= Ideal(freq, usage, target) <= hi as real
    ensures var ideal := Ideal(freq, usage, target);
            Abs(Rounded(freq, usage, target, scale, lo, hi) as real - ideal) <= Abs(1.0 - scale) * Abs(freq - ideal) + 1.0
  {
    RoundingCloses(Scaled(freq, usage, target, scale), lo, hi, Ideal(freq, usage, target));
    ScaledDistance(freq, usage, target, scale);
  }

  lemma ScaledDistance(freq: real, usage: real, target: real, scale: real)
    requires target != 0.0
    ensures var ideal := Ideal(freq, usage, target);
            Abs(Scaled(freq, usage, target, scale) - ideal) == Abs(1.0 - scale) * Abs(freq - ideal)
  {
    DistanceShrinks(freq, usage, target, scale);
    AbsProduct(1.0 - scale, freq - Ideal(freq, usage, target));
  }

  lemma RoundingCloses(x: real, lo: int, hi: int, ideal: real)
    requires lo as real <= ideal <= hi as real
    ensures Abs(Clamp(Trunc(x), lo, hi) as real - ideal) <= Abs(x - ideal) + 1.0
  {
  }

  lemma AbsProduct(a: real, b: real)
    ensures Abs(a * b) == Abs(a) * Abs(b)
  {
    if a < 0.0 && b < 0.0 {
      assert a * b == (0.0 - a) * (0.0 - b) && a * b >= 0.0;
    } else if a < 0.0 {
      assert a * b == 0.0 - (0.0 - a) * b && (0.0 - a) * b >= 0.0;
    } else if b < 0.0 {
      assert a * b == 0.0 - a * (0.0 - b) && a * (0.0 - b) >= 0.0;
    } else {
      assert a * b >= 0.0;
    }
  }

  function Power(x: real, n: nat): (r: real) {
    if n == 0 then 1.0 else x * Power(x, n - 1)
  }

  /** The frequency after n unrounded steps on a CPU whose work per second is
      constant, so that usage is work / frequency. */
  function AfterSteps(freq: real, work: real, target: real, scale: real, n: nat): (r: real)
    requires 0.0 < freq && 0.0 < work && 0.0 < target && 0.0 <= scale <= 1.0
    ensures 0.0 < AfterSteps(freq, work, target, scale, n)
    ensures AfterSteps(freq, work, target, scale, n) ==
            work / target + Power(1.0 - scale, n) * (freq - work / target)
  {
    if n == 0 then freq
    else
      var f := AfterSteps(freq, work, target, scale, n - 1);
      StepOnConstantWork(f, work, target, scale);
      StepClosedForm(f, freq, work / target, scale, n);
      Scaled(f, work / f, target, scale)
  }

  lemma StepOnConstantWork(f: real, work: real, target: real, scale: real)
    requires 0.0 < f && 0.0 < work && 0.0 < target && 0.0 <= scale <= 1.0
    ensures Scaled(f, work / f, target, scale) == work / target + (1.0 - scale) * (f - work / target)
    ensures 0.0 < Scaled(f, work / f, target, scale)
  {
    DistanceShrinks(f, work / f, target, scale);
    assert f * (work / f) == work;
    var ideal := work / target;
    assert ideal > 0.0;
    assert work / target + (1.0 - scale) * (f - work / target) == scale * ideal + (1.0 - scale) * f;
    if scale == 0.0 {
    } else {
      assert scale * ideal > 0.0;
      assert (1.0 - scale) * f >= 0.0;
    }
  }

  lemma StepClosedForm(f: real, freq: real, ideal: real, scale: real, n: nat)
    requires n > 0
    requires f == ideal + Power(1.0 - scale, n - 1) * (freq - ideal)
    ensures ideal + (1.0 - scale) * (f - ideal) == ideal + Power(1.0 - scale, n) * (freq - ideal)
  {
    var c, p, d := 1.0 - scale, Power(1.0 - scale, n - 1), freq - ideal;
    assert c * (p * d) == (c * p) * d;
  }

  // ---- One managed CPU

  datatype Attempt = Attempt(freq: int, ok: bool)

  datatype Wait = SamplePeriod | CooldownPeriod

  /** The frequencies that were set, in order. */
  function Successes(attempts: seq<Attempt>): (r: seq<int>) {
    if attempts == [] then []
    else
      var init, last := attempts[..|attempts| - 1], attempts[|attempts| - 1];
      if last.ok then Successes(init) + [last.freq] else Successes(init)
  }

  class CPUScalingOpts {
    const policy: Policy
    var currentTarget: int
    /** Every frequency passed to SetCPUFrequency so far. */
    ghost var attempts: seq<Attempt>

    ghost predicate Valid()
      reads this
    {
      && policy.Ok()
      && (forall a | a in attempts :: policy.hwMin <= a.freq <= policy.hwMax)
      && currentTarget == (if Successes(attempts) == [] then FREQUENCY_NOT_YET_SET
                           else Successes(attempts)[|Successes(attempts)| - 1])
      && Spaced(Successes(attempts))
    }

    /** Neighbours differ by more than the allowed difference. */
    ghost predicate Spaced(freqs: seq<int>) {
      forall i: nat | i + 1 < |freqs| ::
        freqs[i + 1] < freqs[i] - policy.freqTolerance || freqs[i] + policy.freqTolerance < freqs[i + 1]
    }

    constructor (policy: Policy)
      requires policy.Ok()
      ensures Valid() && this.policy == policy && attempts == []
    {
      this.policy := policy;
      currentTarget, attempts := FREQUENCY_NOT_YET_SET, [];
    }

    predicate InAllowedDifference(freq: int)
      reads this
    {
      && currentTarget != FREQUENCY_NOT_YET_SET
      && currentTarget - policy.freqTolerance <= freq <= currentTarget + policy.freqTolerance
    }

    /** The frequency the telemetry calls for; None if usage is close to the target. */
    ghost function Desired(usage: Option<int>, freq: Option<nat>): (r: Option<int>)
      requires policy.Ok()
    {
      if usage.None? then Some(policy.fallback)
      else if policy.target - policy.usageTolerance <= usage.value <= policy.target + policy.usageTolerance then None
      else if freq.None? then Some(policy.fallback)
      else Some(Next(policy, freq.value, usage.value))
    }

    /** SetCPUFrequency: the hardware may refuse. */
    method SetFrequency(freq: int) returns (ok: bool)
      modifies this`attempts
      ensures attempts == old(attempts) + [Attempt(freq, ok)]
    {
      ok := *;
      attempts := attempts + [Attempt(freq, ok)];
    }

    /** Set a new target, unless it is close to the current one. */
    method SetTarget(freq: int) returns (changed: bool)
      requires Valid() && policy.hwMin <= freq <= policy.hwMax
      modifies this
      ensures Valid()
      ensures old(InAllowedDifference(freq)) ==> attempts == old(attempts) && !changed
      ensures !old(InAllowedDifference(freq)) ==> attempts == old(attempts) + [Attempt(freq, changed)]
    {
      if InAllowedDifference(freq) {
        return false;
      }
      SuccessesInRange(attempts, policy.hwMin, policy.hwMax);
      ghost var before := Successes(attempts);
      assert before != [] ==> before[|before| - 1] in before;
      changed := SetFrequency(freq);
      SuccessesAppend(old(attempts), Attempt(freq, changed));
      if changed {
        currentTarget := freq;
      }
    }

    /** Update: `usage` and `freq` are what the telemetry and the CPU report, if they do. */
    method Update(usage: Option<int>, freq: Option<nat>) returns (wait: Wait)
      requires Valid()
      modifies this
      ensures Valid()
      ensures var d := Desired(usage, freq);
              if d.None? || old(InAllowedDifference(d.value)) then attempts == old(attempts) && wait == SamplePeriod
              else
                && |attempts| == |old(attempts)| + 1
                && attempts == old(attempts) + [Attempt(d.value, attempts[|attempts| - 1].ok)]
                && (wait == CooldownPeriod <==> usage.Some? && freq.Some? && attempts[|attempts| - 1].ok)
      // Whether a frequency is attempted, and which one.
      ensures attempts == old(attempts) || (|attempts| == |old(attempts)| + 1 && attempts[..|old(attempts)|] == old(attempts))
      ensures usage.Some? && policy.target - policy.usageTolerance <= usage.value <= policy.target + policy.usageTolerance ==>
                attempts == old(attempts) && wait == SamplePeriod
      ensures attempts != old(attempts) ==>
                var f := attempts[|attempts| - 1].freq;
                && (old(currentTarget) == -1 || f < old(currentTarget) - policy.freqTolerance || old(currentTarget) + policy.freqTolerance < f)
                && (usage.None? || freq.None? ==> f == policy.fallback)
                && (usage.Some? && freq.Some? ==> CalledFor(policy, f, freq.value, usage.value))
      ensures attempts == old(attempts) &&
              (usage.None? || (freq.None? && (usage.value < policy.target - policy.usageTolerance || policy.target + policy.usageTolerance < usage.value))) ==>
                old(currentTarget) != -1 && old(currentTarget) - policy.freqTolerance <= policy.fallback <= old(currentTarget) + policy.freqTolerance
      ensures attempts == old(attempts) && usage.Some? && freq.Some? &&
              (usage.value < policy.target - policy.usageTolerance || policy.target + policy.usageTolerance < usage.value) ==>
                exists f :: CalledFor(policy, f, freq.value, usage.value) &&
                            old(currentTarget) != -1 && old(currentTarget) - policy.freqTolerance <= f <= old(currentTarget) + policy.freqTolerance
    {
      if usage.Some? && freq.Some? {
        NextIsCalledFor(policy, freq.value, usage.value);
      }
      wait := SamplePeriod;
      if usage.None? {
        var _ := SetTarget(policy.fallback);
        return;
      }
      if policy.target - policy.usageTolerance <= usage.value <= policy.target + policy.usageTolerance {
        return;
      }
      if freq.None? {
        var _ := SetTarget(policy.fallback);
        return;
      }
      var changed := SetTarget(Next(policy, freq.value, usage.value));
      if changed {
        wait := CooldownPeriod;
      }
    }
  }

  lemma {:induction false} SuccessesInRange(attempts: seq<Attempt>, lo: int, hi: int)
    requires forall a | a in attempts :: lo <= a.freq <= hi
    ensures forall f | f in Successes(attempts) :: lo <= f <= hi
  {
    if attempts != [] {
      SuccessesInRange(attempts[..|attempts| - 1], lo, hi);
    }
  }

  lemma SuccessesAppend(attempts: seq<Attempt>, a: Attempt)
    ensures Successes(attempts + [a]) == if a.ok then Successes(attempts) + [a.freq] else Successes(attempts)
  {
    assert (attempts + [a])[..|attempts + [a]| - 1] == attempts;
  }

  /** Any run of updates, whatever the telemetry reports and whichever writes fail:
      every frequency passed on lies within the hardware limits and is what some report
      called for, and consecutive frequencies that were set differ by more than the
      allowed difference. */
  method Run(policy: Policy, reports: seq<(Option<int>, Option<nat>)>) returns (opts: CPUScalingOpts)
    requires policy.Ok()
    ensures fresh(opts) && opts.Valid() && opts.policy == policy
    ensures |opts.attempts| <= |reports|
    ensures forall a | a in opts.attempts :: exists r :: r in reports && opts.Desired(r.0, r.1) == Some(a.freq)
  {
    opts := new CPUScalingOpts(policy);
    for i := 0 to |reports|
      invariant opts.Valid() && |opts.attempts| <= i
      invariant forall a | a in opts.attempts :: exists r :: r in reports && opts.Desired(r.0, r.1) == Some(a.freq)
    {
      assert reports[i] in reports;
      var _ := opts.Update(reports[i].0, reports[i].1);
    }
  }

  // ---- Building the options from a scaling policy

  /** CPUScalingPolicy of a profile, with the bounds its resource definition sets. */
  datatype Request = Request(target: int, usageTolerance: int, freqToleranceMHz: int, scalePercent: int, fallbackPercent: nat)

  datatype Limits = Limits(min: nat, max: nat)

  function PolicyFor(r: Request, l: Limits): (p: Policy)
    requires l.min <= l.max
    ensures 0 < r.target && r.fallbackPercent <= 100 ==> p.Ok()
  {
    FallbackInRange(r.fallbackPercent);
    Policy(r.target, r.usageTolerance, r.freqToleranceMHz * 1000, l.min, l.max,
           r.scalePercent as real / 100.0, FallbackFreq(l.min, l.max, r.fallbackPercent))
  }

  /** Known ids, in order; the rest are reported. */
  function Known(ids: seq<nat>, limits: map<nat, Limits>): (r: seq<nat>) {
    if ids == [] then []
    else
      var init, last := ids[..|ids| - 1], ids[|ids| - 1];
      if last in limits then Known(init, limits) + [last] else Known(init, limits)
  }

  /** Known ids, told by splitting the list: nothing is reordered, dropped or repeated. */
  lemma {:induction false} KnownSplits(a: seq<nat>, b: seq<nat>, limits: map<nat, Limits>)
    ensures Known(a + b, limits) == Known(a, limits) + Known(b, limits)
    ensures |b| == 1 ==> Known(b, limits) == if b[0] in limits then b else []
    decreases |b|
  {
    if b == [] {
      assert a + b == a;
    } else {
      var init := b[..|b| - 1];
      assert (a + b)[..|a + b| - 1] == a + init;
      KnownSplits(a, init, limits);
    }
  }

  method GenerateCPUScalingOpts(r: Request, ids: seq<nat>, limits: map<nat, Limits>)
    returns (list: seq<(nat, Policy)>, missing: seq<nat>)
    requires forall id | id in limits :: limits[id].min <= limits[id].max
    ensures |list| == |Known(ids, limits)|
    ensures forall k | 0 <= k < |list| ::
              && list[k].0 == Known(ids, limits)[k] && list[k].0 in limits
              && list[k].1 == PolicyFor(r, limits[list[k].0])
    // Frequencies are in kHz, the tolerance in the request in MHz; the fallback is a share of the CPU's range.
    ensures forall k | 0 <= k < |list| ::
              var (p, l) := (list[k].1, limits[list[k].0]);
              && p.target == r.target && p.usageTolerance == r.usageTolerance && p.freqTolerance == 1000 * r.freqToleranceMHz
              && p.hwMin == l.min && p.hwMax == l.max && p.scale * 100.0 == r.scalePercent as real
              && 100 * (p.fallback - l.min) <= (l.max - l.min) * r.fallbackPercent < 100 * (p.fallback - l.min) + 100
    ensures forall id :: id in missing <==> id in ids && id !in limits
    ensures |list| + |missing| == |ids|
  {
    list, missing := [], [];
    for i := 0 to |ids|
      invariant |list| == |Known(ids[..i], limits)| && |list| + |missing| == i
      invariant forall k | 0 <= k < |list| ::
                  && list[k].0 == Known(ids[..i], limits)[k] && list[k].0 in limits
                  && list[k].1 == PolicyFor(r, limits[list[k].0])
      invariant forall id :: id in missing <==> id in ids[..i] && id !in limits
    {
      assert ids[..i + 1][..i] == ids[..i];
      if ids[i] !in limits {
        missing := missing + [ids[i]];
      } else {
        list := list + [(ids[i], PolicyFor(r, limits[ids[i]]))];
      }
    }
    assert ids[..|ids|] == ids;
    forall k | 0 <= k < |list| {
      PolicyMeans(r, limits[list[k].0]);
    }
  }

  lemma PolicyMeans(r: Request, l: Limits)
    requires l.min <= l.max
    ensures var p := PolicyFor(r, l);
            && p.scale * 100.0 == r.scalePercent as real
            && 100 * (p.fallback - l.min) <= (l.max - l.min) * r.fallbackPercent < 100 * (p.fallback - l.min) + 100
  {
  }
}
