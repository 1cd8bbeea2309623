/** internal/scaling/dpdk_client.go: windowed usage of each watched CPU from the
    cumulative cycle counters an application reports. */
module Telemetry {
  import opened Slices
  import opened Text

  const TWO_TO_64 := 0x1_0000_0000_0000_0000
  type uint64 = n: nat | n < TWO_TO_64

  datatype Counters = Counters(total: uint64, busy: uint64)

  /** One usage response: parallel arrays. */
  datatype Sample = Sample(ids: seq<nat>, total: seq<uint64>, busy: seq<uint64>)
  {
    predicate Ok() {
      |ids| == |total| == |busy|
    }
  }

  /** What is known about a CPU's usage in the latest window. */
  datatype Reading = Percent(percent: nat) | NotProvided

  /** The entry of a CPU; the last one if the id is repeated. */
  function LastIndexOf(ids: seq<nat>, id: nat): (r: Option<nat>)
    ensures r.None? <==> id !in ids
    ensures r.Some? ==> r.value < |ids| && ids[r.value] == id && id !in ids[r.value + 1..]
  {
    if ids == [] then None
    else if ids[|ids| - 1] == id then Some(|ids| - 1)
    else LastIndexOf(ids[..|ids| - 1], id)
  }

  function Observed(s: Sample, cpu: nat): (r: Option<Counters>)
    requires s.Ok()
  {
    match LastIndexOf(s.ids, cpu)
    case Some(i) => Some(Counters(s.total[i], s.busy[i]))
    case None => None
  }

  /** deltaBusy * 100 / deltaTotal in unsigned 64-bit arithmetic. */
  function Percentage(busy: nat, total: nat): (r: nat)
    requires 0 < total
  {
    var product: nat := busy * 100 % TWO_TO_64;
    product / total
  }

  /** The usage between two observations of a CPU. */
  function Usage(prev: Counters, curr: Counters): (r: Reading) {
    if curr.total < prev.total || curr.busy < prev.busy then NotProvided
    else if curr.total == prev.total then Percent(0)
    else
      var percent := Percentage(curr.busy - prev.busy, curr.total - prev.total);
      if percent > 100 then NotProvided else Percent(percent)
  }

  /** The product of the busy cycles with 100 fits in 64 bits. */
  predicate Fits(prev: Counters, curr: Counters) {
    prev.busy <= curr.busy && (curr.busy - prev.busy) * 100 < TWO_TO_64
  }

  /** A reported percentage is the busy share of the window, rounded down. A reading is
      refused exactly if a counter went back or the busy share exceeds 101%. */
  lemma UsageIsShare(prev: Counters, curr: Counters)
    requires Fits(prev, curr)
    ensures var (p, total, busy) := (Usage(prev, curr), curr.total - prev.total, curr.busy - prev.busy);
            && (p.NotProvided? <==> total < 0 || (0 < total && 101 * total <= 100 * busy))
            && (p.Percent? && 0 < total ==> p.percent * total <= 100 * busy < (p.percent + 1) * total)
            && (total == 0 ==> p == Percent(0))
  {
    var total, busy := curr.total - prev.total, curr.busy - prev.busy;
    if 0 < total {
      assert busy * 100 % TWO_TO_64 == busy * 100;
      Floor(busy * 100, total);
    }
  }

  /** Facts about the quotient n / d. */
  lemma Floor(n: nat, d: nat)
    requires 0 < d
    ensures n / d * d <= n < (n / d + 1) * d
    ensures n / d > 100 <==> 101 * d <= n
  {
    var q := n / d;
    if q > 100 {
      assert q * d >= 101 * d;
    } else {
      assert (q + 1) * d <= 101 * d;
    }
  }

  /** The usage of a forward window in unbounded arithmetic. */
  function ExactUsage(prev: Counters, curr: Counters): (r: Reading)
    requires prev.total < curr.total && prev.busy <= curr.busy
  {
    var percent := 100 * (curr.busy - prev.busy) / (curr.total - prev.total);
    if percent > 100 then NotProvided else Percent(percent)
  }

  /** Exactly when a reading is right. For a consistent window (no more busy than total
      cycles) that is when the product does not wrap. An inconsistent one is also
      refused, as it should be, if the wrapped product still exceeds 100%. */
  lemma UsageExactIff(prev: Counters, curr: Counters)
    requires prev.total < curr.total && prev.busy <= curr.busy
    ensures Usage(prev, curr) == ExactUsage(prev, curr) <==>
            Fits(prev, curr) || Percentage(curr.busy - prev.busy, curr.total - prev.total) > 100
    ensures curr.busy - prev.busy <= curr.total - prev.total ==>
              && (Usage(prev, curr) == Percent(100 * (curr.busy - prev.busy) / (curr.total - prev.total)) <==> Fits(prev, curr))
              && (Usage(prev, curr).Percent? || Fits(prev, curr))
              && (!Fits(prev, curr) ==> Usage(prev, curr).percent < 100 * (curr.busy - prev.busy) / (curr.total - prev.total))
  {
    var total, busy := curr.total - prev.total, curr.busy - prev.busy;
    var product := busy * 100;
    Floor(product, total);
    if product < TWO_TO_64 {
      assert product % TWO_TO_64 == product;
    } else {
      assert product % TWO_TO_64 <= product - TWO_TO_64;
      QuotientDrops(product % TWO_TO_64, product, total);
    }
    assert Percentage(busy, total) == product % TWO_TO_64 / total;
  }

  lemma QuotientDrops(m: nat, n: nat, d: nat)
    requires 0 < d && m + d <= n
    ensures m / d < n / d
  {
    Floor(m, d);
    Floor(n, d);
    assert 0 < (n / d - m / d) * d;
  }

  /** When the product wraps around, a fully busy window can be reported as idle. */
  lemma WrapMisreports()
    ensures var (prev, curr) := (Counters(0, 0), Counters(TWO_TO_64 / 4, TWO_TO_64 / 4));
            Usage(prev, curr) == Percent(0) && !Fits(prev, curr)
  {
  }

  // ---- Runs

  /** No reset, no refused reading and no wrapped product in a run of observations. */
  ghost predicate Clean(obs: seq<Counters>) {
    |obs| >= 2 ==>
      var (prev, curr) := (obs[|obs| - 2], obs[|obs| - 1]);
      Fits(prev, curr) && Usage(prev, curr).Percent? && Clean(obs[..|obs| - 1])
  }

  ghost predicate Advancing(obs: seq<Counters>) {
    |obs| >= 2 ==> obs[|obs| - 2].total < obs[|obs| - 1].total && Advancing(obs[..|obs| - 1])
  }

  /** The sum of percentage times window length, with `extra` added to each percentage. */
  ghost function Weighted(obs: seq<Counters>, extra: nat): (r: int) {
    if |obs| < 2 then 0
    else
      var (prev, curr) := (obs[|obs| - 2], obs[|obs| - 1]);
      Weighted(obs[..|obs| - 1], extra) + WeightedWindow(prev, curr, extra)
  }

  ghost function WeightedWindow(prev: Counters, curr: Counters, extra: nat): (r: int) {
    match Usage(prev, curr)
    case Percent(p) => (p + extra) * (curr.total - prev.total)
    case NotProvided => 0
  }

  lemma WindowBounds(prev: Counters, curr: Counters)
    requires Fits(prev, curr) && Usage(prev, curr).Percent?
    ensures WeightedWindow(prev, curr, 0) <= 100 * (curr.busy - prev.busy)
    ensures prev.total < curr.total ==> 100 * (curr.busy - prev.busy) < WeightedWindow(prev, curr, 1)
  {
    UsageIsShare(prev, curr);
  }

  /** Over a run without resets or refused readings nothing is lost between windows:
      the weighted percentages add up to the busy share of the whole run, up to the
      rounding of each window. */
  lemma {:induction false} WindowsTelescope(obs: seq<Counters>)
    requires Clean(obs) && obs != []
    ensures Weighted(obs, 0) <= 100 * (obs[|obs| - 1].busy - obs[0].busy)
    ensures |obs| > 1 && Advancing(obs) ==> 100 * (obs[|obs| - 1].busy - obs[0].busy) < Weighted(obs, 1)
  {
    if |obs| > 1 {
      var init := obs[..|obs| - 1];
      WindowsTelescope(init);
      WindowBounds(obs[|obs| - 2], obs[|obs| - 1]);
      assert init[|init| - 1] == obs[|obs| - 2] && init[0] == obs[0];
    }
  }

  ghost function Lookup<V>(m: map<nat, V>, cpu: nat): (r: Option<V>) {
    if cpu in m then Some(m[cpu]) else None
  }

  ghost function Extended(obs: seq<Counters>, o: Option<Counters>): (r: seq<Counters>) {
    if o.Some? then obs + [o.value] else obs
  }

  /** What a sample says about a CPU observed before as `obs`: a first observation
      only sets the baseline. */
  ghost function ReadingAfter(obs: seq<Counters>, o: Option<Counters>): (r: Reading) {
    if o.None? || obs == [] then NotProvided else Usage(obs[|obs| - 1], o.value)
  }

  /** What a connection knows about one CPU: the last counters, the latest reading,
      and, for reasoning only, every observation since the metrics were last cleared. */
  datatype CpuState = CpuState(prev: Option<Counters>, reading: Option<Reading>, seen: seq<Counters>)
  {
    /** A percentage is that of the two latest observations, whatever samples left the
        CPU out in between. */
    ghost predicate Ok() {
      && (prev.Some? <==> seen != [])
      && (prev.Some? ==> prev.value == seen[|seen| - 1])
      && (reading.Some? && reading.value.Percent? ==>
            |seen| >= 2 && reading.value == Usage(seen[|seen| - 2], seen[|seen| - 1]))
    }

    ghost function After(o: Option<Counters>): (r: CpuState) {
      CpuState(if o.Some? then o else prev, Some(ReadingAfter(seen, o)), Extended(seen, o))
    }
  }

  class DpdkTelemetryConnection {
    const watchedCPUs: seq<nat>
    var prevUsageCycles: map<nat, Counters>
    var deltaUsage: map<nat, Reading>
    ghost var seen: map<nat, seq<Counters>>

    constructor (watchedCPUs: seq<nat>)
      requires NoDup(watchedCPUs)
      ensures Valid() && this.watchedCPUs == watchedCPUs
      ensures forall cpu | cpu in watchedCPUs :: At(cpu).seen == []
    {
      this.watchedCPUs := watchedCPUs;
      prevUsageCycles, deltaUsage, seen := map[], map[], map[];
    }

    ghost function At(cpu: nat): (r: CpuState)
      reads this
    {
      CpuState(Lookup(prevUsageCycles, cpu), Lookup(deltaUsage, cpu), if cpu in seen then seen[cpu] else [])
    }

    ghost predicate Valid()
      reads this
    {
      NoDup(watchedCPUs) && forall cpu | cpu in watchedCPUs :: At(cpu).Ok()
    }

    /** handleUsage's work on one watched CPU. */
    method HandleCpu(s: Sample, lcores: map<nat, nat>, cpu: nat)
      requires s.Ok() && At(cpu).Ok()
      requires Lookup(lcores, cpu) == LastIndexOf(s.ids, cpu)
      modifies this`prevUsageCycles, this`deltaUsage, this`seen
      ensures At(cpu).Ok() && At(cpu) == old(At(cpu)).After(Observed(s, cpu))
      ensures forall other | other != cpu :: At(other) == old(At(other))
    {
      var result := NotProvided;
      if cpu in lcores {
        var curr := Counters(s.total[lcores[cpu]], s.busy[lcores[cpu]]);
        if cpu in prevUsageCycles {
          result := Usage(prevUsageCycles[cpu], curr);
        }
        prevUsageCycles := prevUsageCycles[cpu := curr];
        seen := seen[cpu := At(cpu).seen + [curr]];
      }
      deltaUsage := deltaUsage[cpu := result];
    }

    method IndexLcores(ids: seq<nat>) returns (lcores: map<nat, nat>)
      ensures forall id: nat :: Lookup(lcores, id) == LastIndexOf(ids, id)
    {
      lcores := map[];
      for i := 0 to |ids|
        invariant forall id: nat :: Lookup(lcores, id) == LastIndexOf(ids[..i], id)
      {
        lcores := lcores[ids[i] := i];
        assert ids[..i + 1][..i] == ids[..i];
      }
      assert ids[..|ids|] == ids;
    }

    /** handleUsage: one sample. CPUs of other connections are not touched. */
    method HandleUsage(s: Sample)
      requires Valid() && s.Ok()
      modifies this`prevUsageCycles, this`deltaUsage, this`seen
      ensures Valid()
      ensures forall cpu | cpu in watchedCPUs :: At(cpu) == old(At(cpu)).After(Observed(s, cpu))
      ensures forall cpu | cpu !in watchedCPUs :: At(cpu) == old(At(cpu))
    {
      var lcores := IndexLcores(s.ids);
      for i := 0 to |watchedCPUs|
        invariant Valid()
        invariant forall k | 0 <= k < i :: At(watchedCPUs[k]) == old(At(watchedCPUs[k])).After(Observed(s, watchedCPUs[k]))
        invariant forall k | i <= k < |watchedCPUs| :: At(watchedCPUs[k]) == old(At(watchedCPUs[k]))
        invariant forall cpu | cpu !in watchedCPUs :: At(cpu) == old(At(cpu))
      {
        NoDupAt(watchedCPUs, i);
        assert forall k | 0 <= k < |watchedCPUs| && k != i :: watchedCPUs[k] != watchedCPUs[i];
        HandleCpu(s, lcores, watchedCPUs[i]);
      }
    }

    /** clearMetrics, when the connection closes or breaks. */
    method ClearMetrics(cpus: seq<nat>)
      requires Valid()
      modifies this`prevUsageCycles, this`deltaUsage, this`seen
      ensures Valid()
      ensures forall cpu | cpu in cpus :: At(cpu) == CpuState(None, None, [])
      ensures forall cpu | cpu !in cpus :: At(cpu) == old(At(cpu))
    {
      for i := 0 to |cpus|
        invariant forall k | 0 <= k < i :: At(cpus[k]) == CpuState(None, None, [])
        invariant forall cpu | cpu !in cpus[..i] :: At(cpu) == old(At(cpu))
      {
        deltaUsage := deltaUsage - {cpus[i]};
        prevUsageCycles := prevUsageCycles - {cpus[i]};
        seen := seen - {cpus[i]};
      }
    }

    /** GetUsagePercent; None when there is no percentage to report. */
    method GetUsagePercent(cpu: nat) returns (r: Option<nat>)
      requires Valid()
      ensures r == match At(cpu).reading case Some(Percent(p)) => Some(p) case _ => None
      ensures r.Some? && cpu in watchedCPUs ==>
                var obs := At(cpu).seen;
                r.value <= 100 && |obs| >= 2 && Usage(obs[|obs| - 2], obs[|obs| - 1]) == Percent(r.value)
    {
      if cpu in deltaUsage && deltaUsage[cpu].Percent? {
        return Some(deltaUsage[cpu].percent);
      }
      return None;
    }
  }

  datatype Event = Sampled(s: Sample) | Broken

  ghost predicate WellFormed(events: seq<Event>) {
    forall e | e in events && e.Sampled? :: e.s.Ok()
  }

  /** The observations of a CPU since the last break in a run of events. */
  ghost function ObservedIn(events: seq<Event>, cpu: nat): (r: seq<Counters>)
    requires WellFormed(events)
  {
    if events == [] then []
    else
      var init, last := events[..|events| - 1], events[|events| - 1];
      assert last in events;
      match last
      case Broken => []
      case Sampled(s) => Extended(ObservedIn(init, cpu), Observed(s, cpu))
  }

  /** The run ends with an observation of the CPU. */
  ghost predicate EndsObserved(events: seq<Event>, cpu: nat)
    requires WellFormed(events)
  {
    events != [] && events[|events| - 1].Sampled? && Observed(events[|events| - 1].s, cpu).Some?
  }

  /** What the latest window of a run says: the usage between the two latest
      observations since the last break, if the last sample is one of them. */
  ghost function LatestWindow(events: seq<Event>, cpu: nat): (r: Reading)
    requires WellFormed(events)
  {
    var obs := ObservedIn(events, cpu);
    if EndsObserved(events, cpu) && |obs| >= 2 then Usage(obs[|obs| - 2], obs[|obs| - 1]) else NotProvided
  }

  lemma OneMoreEvent(events: seq<Event>, e: Event, cpu: nat)
    requires WellFormed(events + [e])
    ensures WellFormed(events)
    ensures e.Broken? ==> ObservedIn(events + [e], cpu) == [] && LatestWindow(events + [e], cpu) == NotProvided
    ensures e.Sampled? ==> e.s.Ok() && ObservedIn(events + [e], cpu) == Extended(ObservedIn(events, cpu), Observed(e.s, cpu))
    ensures e.Sampled? ==> LatestWindow(events + [e], cpu) == ReadingAfter(ObservedIn(events, cpu), Observed(e.s, cpu))
  {
    assert e in events + [e];
    assert forall x | x in events :: x in events + [e];
    assert (events + [e])[..|events + [e]| - 1] == events;
  }

  /** Any run of samples and broken connections reports the latest window. */
  method Run(watched: seq<nat>, events: seq<Event>, cpu: nat) returns (percent: Option<nat>)
    requires NoDup(watched) && cpu in watched
    requires WellFormed(events)
    ensures percent == match LatestWindow(events, cpu) case Percent(p) => Some(p) case NotProvided => None
    ensures percent.Some? ==> percent.value <= 100
  {
    var c := new DpdkTelemetryConnection(watched);
    for i := 0 to |events|
      invariant c.Valid() && c.watchedCPUs == watched && fresh(c)
      invariant WellFormed(events[..i])
      invariant c.At(cpu).seen == ObservedIn(events[..i], cpu)
      invariant c.At(cpu).reading.None? || c.At(cpu).reading.value == LatestWindow(events[..i], cpu)
      invariant c.At(cpu).reading.None? ==> LatestWindow(events[..i], cpu).NotProvided?
    {
      assert events[..i + 1] == events[..i] + [events[i]];
      assert forall e | e in events[..i + 1] :: e in events;
      OneMoreEvent(events[..i], events[i], cpu);
      match events[i] {
        case Sampled(s) => c.HandleUsage(s);
        case Broken => c.ClearMetrics(watched);
      }
    }
    assert events[..|events|] == events;
    percent := c.GetUsagePercent(cpu);
  }

  /** Two samples in a row, in their own numbers: where a CPU stands last in both lists
      of ids, its counters are those at the same places, and what is reported is the share
      of busy cycles among all cycles between them, rounded down. */
  method TwoSamples(watched: seq<nat>, s: Sample, t: Sample, cpu: nat, i: nat, j: nat) returns (percent: Option<nat>)
    requires NoDup(watched) && cpu in watched && |s.ids| == |s.total| == |s.busy| && |t.ids| == |t.total| == |t.busy|
    requires i < |s.ids| && s.ids[i] == cpu && cpu !in s.ids[i + 1..] && j < |t.ids| && t.ids[j] == cpu && cpu !in t.ids[j + 1..]
    ensures percent.Some? ==> s.total[i] <= t.total[j] && s.busy[i] <= t.busy[j]
    ensures s.total[i] < t.total[j] && s.busy[i] <= t.busy[j] && 100 * (t.busy[j] as int - s.busy[i] as int) < 0x1_0000_0000_0000_0000 ==>
              var (total, busy) := (t.total[j] - s.total[i], t.busy[j] - s.busy[i]);
              && (percent.Some? <==> 100 * busy < 101 * total)
              && (percent.Some? ==> percent.value * total <= 100 * busy < (percent.value + 1) * total)
    ensures s.total[i] == t.total[j] && s.busy[i] <= t.busy[j] ==> percent == Some(0)
  {
    LastIndexIs(s.ids, cpu, i);
    LastIndexIs(t.ids, cpu, j);
    percent := Run(watched, [Sampled(s), Sampled(t)], cpu);
    ghost var events := [Sampled(s), Sampled(t)];
    assert events[..1] == [Sampled(s)] && events[..1][..0] == [];
    assert ObservedIn(events[..1], cpu) == [Counters(s.total[i], s.busy[i])];
    assert ObservedIn(events, cpu) == [Counters(s.total[i], s.busy[i]), Counters(t.total[j], t.busy[j])];
    if Fits(Counters(s.total[i], s.busy[i]), Counters(t.total[j], t.busy[j])) {
      UsageIsShare(Counters(s.total[i], s.busy[i]), Counters(t.total[j], t.busy[j]));
    }
  }

  /** When there is nothing to report: after a broken connection, after a sample that
      leaves the CPU out, and after the first that does not. */
  lemma NothingToReport(events: seq<Event>, e: Event, cpu: nat)
    requires WellFormed(events + [e])
    ensures e.Broken? || cpu !in e.s.ids ==> LatestWindow(events + [e], cpu) == NotProvided
    ensures (forall x | x in events :: x.Broken? || cpu !in x.s.ids) ==> LatestWindow(events + [e], cpu) == NotProvided
    ensures events != [] && events[|events| - 1].Broken? ==> LatestWindow(events + [e], cpu) == NotProvided
  {
    OneMoreEvent(events, e, cpu);
    if events != [] {
      var init, last := events[..|events| - 1], events[|events| - 1];
      assert init + [last] == events;
      OneMoreEvent(init, last, cpu);
    }
    if forall x | x in events :: x.Broken? || cpu !in x.s.ids {
      NothingObserved(events, cpu);
    }
  }

  lemma {:induction false} NothingObserved(events: seq<Event>, cpu: nat)
    requires WellFormed(events) && forall x | x in events :: x.Broken? || cpu !in x.s.ids
    ensures ObservedIn(events, cpu) == []
  {
    if events != [] {
      var init, last := events[..|events| - 1], events[|events| - 1];
      assert last in events && forall x | x in init :: x in events;
      NothingObserved(init, cpu);
    }
  }

  lemma LastIndexIs(ids: seq<nat>, id: nat, i: nat)
    requires i < |ids| && ids[i] == id && id !in ids[i + 1..]
    ensures LastIndexOf(ids, id) == Some(i)
  {
    var r := LastIndexOf(ids, id).value;
    assert forall k | i < k < |ids| :: ids[k] == ids[i + 1..][k - i - 1];
    assert forall k | r < k < |ids| :: ids[k] == ids[r + 1..][k - r - 1];
  }

  // ---- what a connection reports over a run adds up

  /** The percentages reported over a run, each weighted with the length of its window
      and increased by `extra`; samples without a percentage add nothing. */
  ghost function WeightedReports(events: seq<Event>, percents: seq<Option<nat>>, cpu: nat, extra: nat): (r: int)
    requires WellFormed(events) && |percents| == |events|
  {
    if events == [] then 0
    else
      var n := |events| - 1;
      assert WellFormed(events[..n]) by {
        assert forall e | e in events[..n] :: e in events;
      }
      WeightedReports(events[..n], percents[..n], cpu, extra) + WeightOf(percents[n], ObservedIn(events, cpu), extra)
  }

  /** A percentage times the length of the latest window. */
  ghost function WeightOf(percent: Option<nat>, obs: seq<Counters>, extra: nat): (r: int) {
    if percent.Some? && |obs| >= 2 then (percent.value + extra) * (obs[|obs| - 1].total - obs[|obs| - 2].total) else 0
  }

  ghost function Percents(r: Reading): (p: Option<nat>) {
    match r
    case Percent(p) => Some(p)
    case NotProvided => None
  }

  /** The report after each event is that of the latest window. */
  ghost predicate Reported(events: seq<Event>, percents: seq<Option<nat>>, cpu: nat)
    requires WellFormed(events)
  {
    && |percents| == |events|
    && (events != [] ==>
          var n := |events| - 1;
          && WellFormed(events[..n])
          && percents[n] == Percents(LatestWindow(events, cpu))
          && Reported(events[..n], percents[..n], cpu))
  }

  /** Without a break, and with clean observations, the weighted reports are the weighted
      windows, however many samples left the CPU out. */
  lemma {:induction false} ReportsAreWindows(events: seq<Event>, percents: seq<Option<nat>>, cpu: nat, extra: nat)
    requires WellFormed(events) && Reported(events, percents, cpu)
    requires (forall e | e in events :: e.Sampled?) && Clean(ObservedIn(events, cpu))
    ensures WeightedReports(events, percents, cpu, extra) == Weighted(ObservedIn(events, cpu), extra)
  {
    if events != [] {
      var n := |events| - 1;
      var init, e := events[..n], events[n];
      assert events == init + [e] && e in events;
      assert forall x | x in init :: x in events;
      OneMoreEvent(init, e, cpu);
      WindowMore(ObservedIn(init, cpu), Observed(e.s, cpu), extra);
      assert percents[n] == Percents(ReadingAfter(ObservedIn(init, cpu), Observed(e.s, cpu)));
      ReportsAreWindows(init, percents[..n], cpu, extra);
    }
  }

  /** What one more sample adds to the weighted windows is its own reading's weight. */
  lemma WindowMore(before: seq<Counters>, o: Option<Counters>, extra: nat)
    requires Clean(Extended(before, o))
    ensures Clean(before)
    ensures Weighted(Extended(before, o), extra) ==
            Weighted(before, extra) + WeightOf(Percents(ReadingAfter(before, o)), Extended(before, o), extra)
  {
    if o.Some? {
      assert (before + [o.value])[..|before|] == before;
    }
  }

  /** The percentages a connection reports over a run without resets or refused readings
      add up, window by window, to the busy cycles of the whole run, up to rounding. */
  lemma ReportsTelescope(events: seq<Event>, percents: seq<Option<nat>>, cpu: nat)
    requires WellFormed(events) && Reported(events, percents, cpu)
    requires (forall e | e in events :: e.Sampled?)
    requires Clean(ObservedIn(events, cpu)) && ObservedIn(events, cpu) != []
    ensures var obs := ObservedIn(events, cpu);
            var busy := obs[|obs| - 1].busy - obs[0].busy;
            && WeightedReports(events, percents, cpu, 0) <= 100 * busy
            && (|obs| > 1 && Advancing(obs) ==> 100 * busy < WeightedReports(events, percents, cpu, 1))
  {
    ReportsAreWindows(events, percents, cpu, 0);
    ReportsAreWindows(events, percents, cpu, 1);
    WindowsTelescope(ObservedIn(events, cpu));
  }

  /** The connection itself, asked after every event. */
  method RunReporting(watched: seq<nat>, events: seq<Event>, cpu: nat) returns (percents: seq<Option<nat>>)
    requires NoDup(watched) && cpu in watched
    requires WellFormed(events)
    ensures Reported(events, percents, cpu)
  {
    var c := new DpdkTelemetryConnection(watched);
    percents := [];
    for i := 0 to |events|
      invariant c.Valid() && c.watchedCPUs == watched && fresh(c)
      invariant WellFormed(events[..i]) && Reported(events[..i], percents, cpu)
      invariant c.At(cpu).seen == ObservedIn(events[..i], cpu)
    {
      assert events[..i + 1] == events[..i] + [events[i]];
      assert forall e | e in events[..i + 1] :: e in events;
      OneMoreEvent(events[..i], events[i], cpu);
      match events[i] {
        case Sampled(s) => c.HandleUsage(s);
        case Broken => c.ClearMetrics(watched);
      }
      var percent := c.GetUsagePercent(cpu);
      ReportedMore(events[..i], percents, events[i], percent, cpu);
      percents := percents + [percent];
    }
    assert events[..|events|] == events;
  }

  lemma ReportedMore(events: seq<Event>, percents: seq<Option<nat>>, e: Event, percent: Option<nat>, cpu: nat)
    requires WellFormed(events + [e]) && WellFormed(events) && Reported(events, percents, cpu)
    requires percent == Percents(LatestWindow(events + [e], cpu))
    ensures Reported(events + [e], percents + [percent], cpu)
  {
    assert (events + [e])[..|events|] == events && (percents + [percent])[..|percents|] == percents;
  }
}
