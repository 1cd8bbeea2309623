/** Whole runs of a host: any sequence of the public pool operations. The host
    mutex serialises them, so a run is a sequence of steps. */
module Runs {
  import opened Text
  import opened Settings
  import opened Views
  import opened Pools

  datatype Op =
    | MoveCPUIDs(pool: Home, ids: seq<nat>)
    | SetCPUIDs(pool: Home, ids: seq<nat>)
    | SetPowerProfile(pool: Home, profile: Option<Profile>)
    | Remove(pool: Home)
    | AddExclusivePool(name: string)

  /** What a call that succeeds does. */
  function Effect(v: View, op: Op): (r: View) {
    match op
    case MoveCPUIDs(pool, ids) => v.Move(ids, pool)
    case SetCPUIDs(pool, ids) => v.SetMembers(ids, pool)
    case SetPowerProfile(pool, profile) => v.SetProfile(pool, profile)
    case Remove(pool) => v.SetMembers([], pool).Drop(pool)
    case AddExclusivePool(name) => v.SetProfile(InPool(name), None)
  }

  /** What a call that fails has done: a move stops at the first CPU that fails, setting
      or draining a membership stops at a CPU of the host, a profile is stored before it
      is applied; a refused call has done nothing. */
  ghost predicate PartialEffect(v: View, op: Op, done: nat, w: View) {
    w == v ||
    match op
    case MoveCPUIDs(pool, ids) => done <= |ids| && w == v.Move(ids[..done], pool)
    case SetCPUIDs(pool, ids) => w == v.Replace(ids, pool, done)
    case SetPowerProfile(pool, profile) => w == v.SetProfile(pool, profile)
    case Remove(pool) => w == v.Replace([], pool, done)
    case AddExclusivePool(_) => false
  }

  // ---- the calls as a deterministic machine on views

  /** How many of the listed CPUs come before the first that may not move. */
  function MovableIds(v: View, ids: seq<nat>, to: Home): (n: nat)
    requires v.Known(ids)
    ensures n <= |ids| && CanMovePrefix(v, ids, n, to) && (n < |ids| ==> !v.CanMove(ids[n], to))
  {
    if ids == [] || !v.CanMove(ids[0], to) then 0 else 1 + MovableIds(v, ids[1..], to)
  }

  /** The first requested CPU of the host, from the given one on, that may not come in. */
  function FirstBarred(v: View, ids: seq<nat>, to: Home, from: nat): (n: nat)
    requires from <= |v.homes|
    ensures from <= n <= |v.homes| && (forall id | from <= id < n && id in ids :: v.CanMove(id, to))
    ensures n < |v.homes| ==> n in ids && !v.CanMove(n, to)
    decreases |v.homes| - from
  {
    if from == |v.homes| || (from in ids && !v.CanMove(from, to)) then from else FirstBarred(v, ids, to, from + 1)
  }

  lemma StopsAtMovable(v: View, ids: seq<nat>, to: Home, n: nat)
    requires v.Known(ids) && n < |ids| && CanMovePrefix(v, ids, n, to) && !v.CanMove(ids[n], to)
    ensures n == MovableIds(v, ids, to)
  {
  }

  lemma StopsAtBarred(v: View, ids: seq<nat>, to: Home, n: nat)
    requires v.Known(ids) && n < |v.homes| && CanMoveBelow(v, ids, n, to) && n in ids && !v.CanMove(n, to)
    ensures n == FirstBarred(v, ids, to, 0)
  {
  }

  /** The pool has a handle to call on: it is registered. */
  predicate OnPool(v: View, op: Op) {
    !op.AddExclusivePool? && op.pool in v.profiles
  }

  /** Whether a call succeeds, as long as no profile fails to be applied. */
  predicate Succeeds(v: View, op: Op) {
    match op
    case MoveCPUIDs(pool, ids) => pool in v.profiles && v.Known(ids) && v.CanMoveAll(ids, pool)
    case SetCPUIDs(pool, ids) => pool in v.profiles && v.Known(ids) && v.CanMoveAll(ids, pool)
    case SetPowerProfile(pool, _) => pool in v.profiles && pool != InReserved
    case Remove(pool) => pool in v.profiles && pool.InPool?
    case AddExclusivePool(name) => InPool(name) !in v.profiles
  }

  /** What a call then does: all of its effect, or the part of it up to the first CPU
      that may not move, or nothing. */
  function Apply(v: View, op: Op): (r: View) {
    if Succeeds(v, op) then Effect(v, op)
    else if OnPool(v, op) && op.MoveCPUIDs? && v.Known(op.ids) then v.Move(op.ids[..MovableIds(v, op.ids, op.pool)], op.pool)
    else if OnPool(v, op) && op.SetCPUIDs? && v.Known(op.ids) then v.Replace(op.ids, op.pool, FirstBarred(v, op.ids, op.pool, 0))
    else v
  }

  /** Which calls succeed and what they do, CPU by CPU and pool by pool. */
  lemma CallsMean(v: View, op: Op)
    ensures (op.MoveCPUIDs? || op.SetCPUIDs?) ==>
              (Succeeds(v, op) <==>
                 && op.pool in v.profiles
                 && forall k | 0 <= k < |op.ids| ::
                      && op.ids[k] < |v.homes|
                      && (v.homes[op.ids[k]] == op.pool || v.homes[op.ids[k]] == InShared || op.pool == InShared))
    ensures op.SetPowerProfile? ==> (Succeeds(v, op) <==> op.pool in v.profiles && op.pool != InReserved)
    ensures op.Remove? ==> (Succeeds(v, op) <==> op.pool in v.profiles && op.pool != InReserved && op.pool != InShared)
    ensures op.AddExclusivePool? ==> (Succeeds(v, op) <==> InPool(op.name) !in v.profiles)
    ensures Succeeds(v, op) ==>
              var w := Apply(v, op);
              && |w.homes| == |v.homes|
              && (op.MoveCPUIDs? ==> w.profiles == v.profiles)
              && (op.MoveCPUIDs? ==>
                    forall id: nat | id < |v.homes| :: w.homes[id] == if id in op.ids then op.pool else v.homes[id])
              && (op.SetCPUIDs? ==> w.profiles == v.profiles)
              && (op.SetCPUIDs? ==>
                    forall id: nat | id < |v.homes| ::
                      w.homes[id] == if id in op.ids then op.pool
                                     else if v.homes[id] != op.pool then v.homes[id]
                                     else if op.pool == InShared then InReserved else InShared)
              && (op.SetPowerProfile? ==> w.homes == v.homes && w.profiles == v.profiles[op.pool := op.profile])
              && (op.Remove? ==> w.profiles == v.profiles - {op.pool})
              && (op.Remove? ==>
                    forall id: nat | id < |v.homes| :: w.homes[id] == if v.homes[id] == op.pool then InShared else v.homes[id])
              && (op.AddExclusivePool? ==> w.homes == v.homes && w.profiles == v.profiles[InPool(op.name) := None])
  {
  }

  function ApplyAll(v: View, ops: seq<Op>): (r: View) {
    if ops == [] then v else Apply(ApplyAll(v, ops[..|ops| - 1]), ops[|ops| - 1])
  }

  /** The call stores no profile that some CPU of the machine cannot meet. */
  ghost predicate OpFeasible(platform: Platform, op: Op) {
    op.SetPowerProfile? ==> FeasibleEverywhere(platform, op.profile)
  }

  ghost predicate AllOpsFeasible(platform: Platform, ops: seq<Op>) {
    forall k | 0 <= k < |ops| :: OpFeasible(platform, ops[k])
  }

  /** Feasible calls keep all profiles feasible, whatever became of the call. */
  lemma EffectFeasible(v: View, op: Op, done: nat, w: View, platform: Platform)
    requires v.Ok() && OpFeasible(platform, op) && (w == Effect(v, op) || PartialEffect(v, op, done, w))
    ensures AllFeasible(v.profiles, platform) ==> AllFeasible(w.profiles, platform)
  {
    if op.AddExclusivePool? {
      NoneFeasible(v, platform, InPool(op.name));
    }
  }

  /** One public call; a pool that is not registered has no handle to call on. */
  method Perform(host: Host, op: Op) returns (ok: bool, ghost done: nat)
    requires host.Valid()
    modifies host`st, host`faults, host`failedWrites, host`exclusives, host.exclusives.arr
    ensures host.Valid() && old(host.faults) <= host.faults && old(host.failedWrites) <= host.failedWrites
    ensures host.exclusives.arr == old(host.exclusives.arr) || fresh(host.exclusives.arr)
    ensures old(host.st.view).Reaches(host.st.view)
    ensures if ok then host.st.view == Effect(old(host.st.view), op) else PartialEffect(old(host.st.view), op, done, host.st.view)
    ensures ok ==> host.faults == old(host.faults)
    ensures host.faults == old(host.faults) ==>
              (ok <==> Succeeds(old(host.st.view), op)) && host.st.view == Apply(old(host.st.view), op)
    // A fault has a cause.
    ensures OpFeasible(host.platform, op) && AllFeasible(old(host.st.view).profiles, host.platform) ==>
              && AllFeasible(host.st.view.profiles, host.platform)
              && (host.failedWrites == old(host.failedWrites) ==> host.faults == old(host.faults))
  {
    done := 0;
    ghost var v := host.st.view;
    if op.AddExclusivePool? {
      ok := host.AddExclusivePool(op.name);
    } else if op.pool !in host.st.lists {
      ok := false;
    } else {
      ok, done := PerformOn(host, op);
    }
    if OpFeasible(host.platform, op) {
      EffectFeasible(v, op, done, host.st.view, host.platform);
    }
  }

  /** A call on a registered pool. */
  method PerformOn(host: Host, op: Op) returns (ok: bool, ghost done: nat)
    requires host.Valid() && OnPool(host.st.view, op)
    modifies host`st, host`faults, host`failedWrites, host`exclusives, host.exclusives.arr
    ensures host.Valid() && old(host.faults) <= host.faults && old(host.failedWrites) <= host.failedWrites
    ensures host.exclusives.arr == old(host.exclusives.arr)
    ensures old(host.st.view).Reaches(host.st.view)
    ensures if ok then host.st.view == Effect(old(host.st.view), op) else PartialEffect(old(host.st.view), op, done, host.st.view)
    ensures ok ==> host.faults == old(host.faults)
    ensures host.faults == old(host.faults) ==>
              (ok <==> Succeeds(old(host.st.view), op)) && host.st.view == Apply(old(host.st.view), op)
    ensures host.faults == old(host.faults) || host.Excuse(old(host.failedWrites), old(host.st.view)) ||
            host.Excuse(old(host.failedWrites), host.st.view)
  {
    done := 0;
    ghost var index;
    ghost var v := host.st.view;
    match op {
      case MoveCPUIDs(pool, ids) =>
        ok, done := host.MoveCPUIDs(pool, ids);
        if !ok && v.Known(ids) && done < |ids| && !v.CanMove(ids[done], pool) {
          StopsAtMovable(v, ids, pool, done);
        }
      case SetCPUIDs(pool, ids) =>
        ok, done := host.SetCPUIDs(pool, ids);
        if !ok && v.Known(ids) && done < |v.homes| && done in ids && !v.CanMove(done, pool) {
          StopsAtBarred(v, ids, pool, done);
        }
      case SetPowerProfile(pool, profile) => ok := host.SetPowerProfile(pool, profile);
      case Remove(pool) => ok, done, index := host.RemovePool(pool);
    }
  }

  // ---- runs

  /** Every run keeps the host valid, including runs with failing calls: each CPU in
      exactly one registered pool's list, once, that pool its back-pointer, and pool
      names unique. The trace lists the views the run went through. While no profile
      fails to be applied, a run refines the machine on views; and one does only if a
      write fails or a stored profile cannot be met. */
  method Run(host: Host, ops: seq<Op>) returns (ghost trace: seq<View>)
    requires host.Valid()
    modifies host`st, host`faults, host`failedWrites, host`exclusives, host.exclusives.arr
    ensures host.Valid() && old(host.faults) <= host.faults && old(host.failedWrites) <= host.failedWrites
    ensures |trace| == |ops| + 1 && trace[0] == old(host.st.view) && trace[|ops|] == host.st.view
    ensures IsTrace(trace)
    ensures host.faults == old(host.faults) ==> host.st.view == ApplyAll(old(host.st.view), ops)
    ensures AllOpsFeasible(host.platform, ops) && AllFeasible(old(host.st.view).profiles, host.platform) &&
            host.failedWrites == old(host.failedWrites) ==>
              host.faults == old(host.faults)
  {
    ghost var v := host.st.view;
    trace := [v];
    for i := 0 to |ops|
      invariant host.Valid() && old(host.faults) <= host.faults && old(host.failedWrites) <= host.failedWrites
      invariant host.exclusives.arr == old(host.exclusives.arr) || fresh(host.exclusives.arr)
      invariant |trace| == i + 1 && trace[0] == v && trace[i] == host.st.view
      invariant IsTrace(trace)
      invariant host.faults == old(host.faults) ==> host.st.view == ApplyAll(v, ops[..i])
      invariant AllOpsFeasible(host.platform, ops) && AllFeasible(v.profiles, host.platform) ==>
                  && AllFeasible(host.st.view.profiles, host.platform)
                  && (host.failedWrites == old(host.failedWrites) ==> host.faults == old(host.faults))
    {
      assert ops[..i + 1][..i] == ops[..i];
      var ok;
      ghost var done;
      ok, done := Perform(host, ops[i]);
      trace := trace + [host.st.view];
    }
    assert ops[..|ops|] == ops;
  }

  /** How a host starts: every CPU in reserved, no pool beyond shared and reserved, no
      profile. */
  function Start(n: nat): (r: View) {
    View(seq(n, _ => InReserved), map[InReserved := None, InShared := None])
  }

  /** After any run from the start that stores profiles every CPU can meet, if no write
      failed: each CPU is where the machine on views puts it, and every CPU outside
      reserved is set as its pool's profile prescribes, or to its defaults if the pool
      has none: governor and frequency range, and the disable flag of each idle state. */
  method RunFromStart(platform: Platform, initial: seq<Registers>, ops: seq<Op>) returns (host: Host)
    requires |initial| == |platform.cpus|
    ensures fresh(host) && host.Valid() && host.platform == platform
    ensures host.failedWrites == 0 && FeasibleEverywhere(platform, None) && AllOpsFeasible(platform, ops) ==>
              && host.faults == 0 && host.st.view == ApplyAll(Start(|platform.cpus|), ops)
              && AllSettled(host.st.view, host.st.regs, platform)
    ensures host.failedWrites == 0 && FeasibleEverywhere(platform, None) && AllOpsFeasible(platform, ops) ==>
              AllSay(host.st.view, host.st.regs, platform)
  {
    host := RunToTheEnd(platform, initial, ops);
    if AllSettled(host.st.view, host.st.regs, platform) {
      AllSettledSay(host.st.view, host.st.regs, platform);
    }
  }

  /** The control files of every CPU outside reserved say what its pool's profile stands
      for. */
  ghost predicate AllSay(v: View, regs: seq<Registers>, platform: Platform)
    requires v.Ok() && |regs| == |platform.cpus| == |v.homes|
  {
    forall cpu | 0 <= cpu < |regs| && v.homes[cpu] != InReserved ::
      RegistersSay(regs[cpu], platform.cpus[cpu], platform, v.profiles[v.homes[cpu]])
  }

  lemma AllSettledSay(v: View, regs: seq<Registers>, platform: Platform)
    requires AllSettled(v, regs, platform)
    ensures AllSay(v, regs, platform)
  {
    forall cpu | 0 <= cpu < |regs| && v.homes[cpu] != InReserved
      ensures RegistersSay(regs[cpu], platform.cpus[cpu], platform, v.profiles[v.homes[cpu]])
    {
      SettledSays(regs[cpu], platform.cpus[cpu], platform, v.profiles[v.homes[cpu]]);
    }
  }

  method RunToTheEnd(platform: Platform, initial: seq<Registers>, ops: seq<Op>) returns (host: Host)
    requires |initial| == |platform.cpus|
    ensures fresh(host) && host.Valid() && host.platform == platform
    ensures host.failedWrites == 0 && FeasibleEverywhere(platform, None) && AllOpsFeasible(platform, ops) ==>
              && host.faults == 0 && host.st.view == ApplyAll(Start(|platform.cpus|), ops)
              && AllSettled(host.st.view, host.st.regs, platform)
  {
    host := new Host(platform, initial);
    ghost var trace := Run(host, ops);
  }

  ghost predicate IsTrace(trace: seq<View>) {
    forall k | 0 < k < |trace| :: trace[k - 1].Reaches(trace[k])
  }

  lemma {:induction false} TraceKeepsCpus(trace: seq<View>, a: nat, b: nat)
    requires IsTrace(trace) && a <= b < |trace|
    ensures |trace[a].homes| == |trace[b].homes|
  {
    if a < b {
      TraceKeepsCpus(trace, a, b - 1);
      assert trace[b - 1].Reaches(trace[b]);
    }
  }

  /** In every run, a CPU that is in one pool at one time and in another later, with
      neither of them shared, was in the shared pool in between. */
  lemma {:induction false} ThroughShared(trace: seq<View>, a: nat, b: nat, cpu: nat)
    requires IsTrace(trace) && a <= b < |trace| && cpu < |trace[a].homes|
    requires cpu < |trace[b].homes| && trace[a].homes[cpu] != trace[b].homes[cpu]
    requires trace[a].homes[cpu] != InShared && trace[b].homes[cpu] != InShared
    ensures exists t :: a < t < b && cpu < |trace[t].homes| && trace[t].homes[cpu] == InShared
  {
    TraceKeepsCpus(trace, a, b - 1);
    assert trace[b - 1].Reaches(trace[b]);
    if trace[b - 1].homes[cpu] != InShared {
      assert trace[b - 1].homes[cpu] == trace[b].homes[cpu];
      ThroughShared(trace, a, b - 1, cpu);
    }
  }

  /** Two CPU's control files say the same where the profile decides. */
  ghost predicate SameSettings(r: Registers, q: Registers, info: CpuInfo, platform: Platform, profile: Option<Profile>) {
    && (platform.freqScaling ==>
          && r.governor == q.governor && r.minFreq == q.minFreq && r.maxFreq == q.maxFreq
          && (WantedPStates(info, profile).epp != "" ==> r.epp == q.epp))
    && (platform.idleStates ==> forall name | name in info.cstates ::
          name in r.disabled && name in q.disabled && r.disabled[name] == q.disabled[name])
  }

  lemma SettledAlike(r: Registers, q: Registers, info: CpuInfo, platform: Platform, profile: Option<Profile>)
    requires Settled(r, info, platform, profile) && Settled(q, info, platform, profile)
    ensures SameSettings(r, q, info, platform, profile)
  {
    assert WantedCStates(info.cstates, profile).Keys == info.cstates.Keys;
  }

  /** What a CPU is set to depends on its pool's profile only, not on how it got
      there: after any two runs on the same machine, from whatever control files, that
      store profiles every CPU can meet and in which no write fails, the settings agree
      on every CPU that ends outside reserved in pools with the same profile. The
      energy preference is excepted if that profile leaves it empty. */
  method SettingsDependOnPoolOnly(platform: Platform, left: seq<Registers>, right: seq<Registers>, a: seq<Op>, b: seq<Op>)
    returns (h: Host, g: Host)
    requires |left| == |right| == |platform.cpus|
    ensures fresh(h) && fresh(g) && h.Valid() && g.Valid() && h.platform == g.platform == platform
    ensures h.failedWrites == 0 && g.failedWrites == 0 &&
            FeasibleEverywhere(platform, None) && AllOpsFeasible(platform, a) && AllOpsFeasible(platform, b) ==>
              var (v, w) := (ApplyAll(Start(|platform.cpus|), a), ApplyAll(Start(|platform.cpus|), b));
              && h.st.view == v && g.st.view == w
              && forall cpu | 0 <= cpu < |platform.cpus| && v.homes[cpu] != InReserved && w.homes[cpu] != InReserved
                              && v.profiles[v.homes[cpu]] == w.profiles[w.homes[cpu]] ::
                   SameSettings(h.st.regs[cpu], g.st.regs[cpu], platform.cpus[cpu], platform, v.profiles[v.homes[cpu]])
  {
    h := RunToTheEnd(platform, left, a);
    g := RunToTheEnd(platform, right, b);
    SettledCpusAlike(h.st.view, g.st.view, h.st.regs, g.st.regs, platform);
  }

  lemma SettledCpusAlike(v: View, w: View, r: seq<Registers>, q: seq<Registers>, platform: Platform)
    ensures AllSettled(v, r, platform) && AllSettled(w, q, platform) ==>
              forall cpu | 0 <= cpu < |platform.cpus| && v.homes[cpu] != InReserved && w.homes[cpu] != InReserved
                           && v.profiles[v.homes[cpu]] == w.profiles[w.homes[cpu]] ::
                SameSettings(r[cpu], q[cpu], platform.cpus[cpu], platform, v.profiles[v.homes[cpu]])
  {
    if AllSettled(v, r, platform) && AllSettled(w, q, platform) {
      forall cpu | 0 <= cpu < |platform.cpus| && v.homes[cpu] != InReserved && w.homes[cpu] != InReserved
                   && v.profiles[v.homes[cpu]] == w.profiles[w.homes[cpu]]
        ensures SameSettings(r[cpu], q[cpu], platform.cpus[cpu], platform, v.profiles[v.homes[cpu]])
      {
        SettledAlike(r[cpu], q[cpu], platform.cpus[cpu], platform, v.profiles[v.homes[cpu]]);
      }
    }
  }
}
