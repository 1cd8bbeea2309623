/** internal/power: pool membership of the CPUs of one host. Membership is held
    twice, as each CPU's back-pointer and as each pool's unordered list; Valid()
    ties the two together. CPUs are named by their id and pools by their Home. */
module Pools {
  import opened Text
  import opened Slices
  import opened Settings
  import opened Views

  /** The list of one pool: each of its CPUs, once, and nothing else. */
  ghost predicate ListOf(s: seq<nat>, homes: seq<Home>, pool: Home) {
    NoDup(s) && (forall c :: c in s <==> 0 <= c < |homes| && homes[c] == pool)
  }

  lemma ListWithout(s: seq<nat>, index: nat, homes: seq<Home>, pool: Home, to: Home)
    requires ListOf(s, homes, pool) && index < |s| && s[index] < |homes| && to != pool
    ensures ListOf(SwapRemoved(s, index), homes[s[index] := to], pool)
    ensures ListOf(SwapRemoved(s, index) + [s[index]], homes, pool)
  {
    SwapRemovedElements(s, index);
    NoDupSnoc(SwapRemoved(s, index), s[index]);
  }

  lemma ListWith(s: seq<nat>, cpu: nat, homes: seq<Home>, pool: Home)
    requires ListOf(s, homes, pool) && cpu < |homes| && homes[cpu] != pool
    ensures ListOf(s + [cpu], homes[cpu := pool], pool)
  {
    NoDupSnoc(s, cpu);
  }

  /** Each CPU is in exactly one registered pool's list, once, and that pool is
      its back-pointer. */
  ghost predicate Partitioned(v: View, lists: map<Home, seq<nat>>) {
    && v.Ok()
    && lists.Keys == v.profiles.Keys
    && forall h | h in lists :: ListOf(lists[h], v.homes, h)
  }

  /** The host's slice names each registered exclusive pool once. */
  ghost predicate Registered(names: seq<string>, v: View) {
    NoDup(names) && (forall n :: n in names <==> InPool(n) in v.profiles)
  }

  /** Every CPU outside the reserved pool is set as its pool's profile prescribes. */
  ghost predicate AllSettled(v: View, regs: seq<Registers>, platform: Platform) {
    && v.Ok() && |regs| == |platform.cpus| == |v.homes|
    && forall i | 0 <= i < |regs| && v.homes[i] != InReserved ::
         Settled(regs[i], platform.cpus[i], platform, v.profiles[v.homes[i]])
  }

  /** The CPU is in the pool already, or can meet the pool's profile. */
  ghost predicate CanSettle(v: View, platform: Platform, id: nat, to: Home)
    requires id < |platform.cpus| == |v.homes| && to in v.profiles
  {
    v.homes[id] == to || Feasible(platform.cpus[id], platform, v.profiles[to])
  }

  ghost predicate CanSettleAll(v: View, platform: Platform, ids: seq<nat>, n: nat, to: Home)
    requires |platform.cpus| == |v.homes| && v.Known(ids) && to in v.profiles && n <= |ids|
  {
    forall k | 0 <= k < n :: CanSettle(v, platform, ids[k], to)
  }

  lemma FeasibleSettles(v: View, platform: Platform, ids: seq<nat>, to: Home)
    requires |platform.cpus| == |v.homes| && v.Known(ids) && to in v.profiles
    ensures AllFeasible(v.profiles, platform) ==> CanSettleAll(v, platform, ids, |ids|, to)
  {
    assert AllFeasible(v.profiles, platform) ==> FeasibleEverywhere(platform, v.profiles[to]);
  }

  /** The CPU can come into the pool, if requested, or leave it for the next one. */
  ghost predicate CanRehome(v: View, platform: Platform, id: nat, requested: bool, pool: Home)
    requires v.Ok() && id < |platform.cpus| == |v.homes| && pool in v.profiles
  {
    if requested then CanSettle(v, platform, id, pool)
    else v.homes[id] == pool ==> CanSettle(v, platform, id, Neighbour(pool))
  }

  ghost predicate CanRehomeAll(v: View, platform: Platform, ids: seq<nat>, n: nat, pool: Home)
    requires v.Ok() && n <= |platform.cpus| == |v.homes| && pool in v.profiles
  {
    forall id: nat | id < n :: CanRehome(v, platform, id, id in ids, pool)
  }

  /** The first n CPUs being done does not change what the next one needs. */
  lemma RehomeNext(v: View, platform: Platform, ids: seq<nat>, n: nat, pool: Home)
    requires v.Ok() && n < |platform.cpus| == |v.homes| && pool in v.profiles
    ensures v.Replace(ids, pool, n).Ok()
    ensures CanRehome(v.Replace(ids, pool, n), platform, n, n in ids, pool) <==> CanRehome(v, platform, n, n in ids, pool)
    ensures CanRehomeAll(v, platform, ids, n + 1, pool) <==>
            CanRehomeAll(v, platform, ids, n, pool) && CanRehome(v, platform, n, n in ids, pool)
    ensures CanRehomeAll(v, platform, ids, |v.homes|, pool) ==> CanRehome(v, platform, n, n in ids, pool)
  {
    ReplaceOneMore(v, ids, pool, n);
  }

  lemma FeasibleRehomes(v: View, platform: Platform, ids: seq<nat>, pool: Home)
    requires v.Ok() && |platform.cpus| == |v.homes| && pool in v.profiles
    ensures AllFeasible(v.profiles, platform) ==> CanRehomeAll(v, platform, ids, |v.homes|, pool)
  {
    assert AllFeasible(v.profiles, platform) ==>
        FeasibleEverywhere(platform, v.profiles[pool]) && FeasibleEverywhere(platform, v.profiles[Neighbour(pool)]);
  }

  /** The CPU stands last on the list it is on now; lists of third pools are as before. */
  ghost predicate Relisted(before: map<Home, seq<nat>>, after: map<Home, seq<nat>>, from: Home, to: Home, id: nat) {
    && after.Keys == before.Keys
    && to in after && after[to] != [] && after[to][|after[to]| - 1] == id
    && forall h | h in before && h != from && h != to :: after[h] == before[h]
  }

  lemma MoveKeepsPartition(v: View, lists: map<Home, seq<nat>>, id: nat, index: nat, to: Home)
    requires Partitioned(v, lists) && id < |v.homes| && to in lists && v.homes[id] != to
    requires index < |lists[v.homes[id]]| && lists[v.homes[id]][index] == id
    ensures v.Move([id], to).homes == v.homes[id := to]
    ensures Partitioned(v.Move([id], to),
              lists[v.homes[id] := SwapRemoved(lists[v.homes[id]], index)][to := lists[to] + [id]])
    ensures Relisted(lists, lists[v.homes[id] := SwapRemoved(lists[v.homes[id]], index)][to := lists[to] + [id]], v.homes[id], to, id)
  {
    var source := v.homes[id];
    var homes := v.Move([id], to).homes;
    assert homes == v.homes[id := to];
    ListWithout(lists[source], index, v.homes, source, to);
    ListWith(lists[to], id, v.homes, to);
    forall h | h in lists && h != source && h != to
      ensures ListOf(lists[h], homes, h)
    {
    }
  }

  lemma RollbackKeepsPartition(v: View, lists: map<Home, seq<nat>>, id: nat, index: nat)
    requires Partitioned(v, lists) && id < |v.homes|
    requires index < |lists[v.homes[id]]| && lists[v.homes[id]][index] == id
    ensures Partitioned(v, lists[v.homes[id] := SwapRemoved(lists[v.homes[id]], index) + [id]])
    ensures Relisted(lists, lists[v.homes[id] := SwapRemoved(lists[v.homes[id]], index) + [id]], v.homes[id], v.homes[id], id)
  {
    var source := v.homes[id];
    ListWithout(lists[source], index, v.homes, source, if source == InShared then InReserved else InShared);
  }

  /** A new profile for a pool, once applied to the pool's CPUs. */
  lemma ProfileKeepsPartition(v: View, lists: map<Home, seq<nat>>, pool: Home, profile: Option<Profile>)
    requires Partitioned(v, lists) && pool in lists && pool != InReserved
    ensures Partitioned(v.SetProfile(pool, profile), lists)
    ensures forall k | 0 <= k < |lists[pool]| :: lists[pool][k] < |v.homes|
  {
    assert forall k | 0 <= k < |lists[pool]| :: lists[pool][k] in lists[pool];
  }

  lemma ProfileKeepsSettled(v: View, before: seq<Registers>, after: seq<Registers>, platform: Platform,
                            pool: Home, profile: Option<Profile>, list: seq<nat>)
    requires v.Ok() && pool in v.profiles && pool != InReserved && ListOf(list, v.homes, pool)
    requires |before| == |after| == |platform.cpus| == |v.homes|
    requires forall id | 0 <= id < |after| && id !in list :: after[id] == before[id]
    requires forall id | id in list :: Settled(after[id], platform.cpus[id], platform, profile)
    ensures AllSettled(v, before, platform) ==> AllSettled(v.SetProfile(pool, profile), after, platform)
  {
  }

  /** All CPUs of a pool can meet a profile, told by the list or by the back-pointers. */
  lemma ListFeasible(list: seq<nat>, homes: seq<Home>, pool: Home, platform: Platform, profile: Option<Profile>)
    requires ListOf(list, homes, pool) && |homes| == |platform.cpus|
    ensures forall k | 0 <= k < |list| :: list[k] < |homes|
    ensures (forall k | 0 <= k < |list| :: Feasible(platform.cpus[list[k]], platform, profile)) <==>
            (forall id | 0 <= id < |homes| && homes[id] == pool :: Feasible(platform.cpus[id], platform, profile))
  {
    assert forall k | 0 <= k < |list| :: list[k] in list;
    forall id | 0 <= id < |homes| && homes[id] == pool
      ensures exists k :: 0 <= k < |list| && list[k] == id
    {
      assert id in list;
    }
  }

  /** Unregistering a drained pool. */
  lemma DropKeepsPartition(v: View, lists: map<Home, seq<nat>>, names: seq<string>, index: nat)
    requires Partitioned(v, lists) && Registered(names, v) && index < |names|
    requires forall i | 0 <= i < |v.homes| :: v.homes[i] != InPool(names[index])
    ensures Partitioned(v.Drop(InPool(names[index])), lists - {InPool(names[index])})
    ensures Registered(SwapRemoved(names, index), v.Drop(InPool(names[index])))
  {
    SwapRemovedElements(names, index);
  }

  /** CPUList.remove: the first occurrence is overwritten by the last element. */
  method RemoveCpu(cpus: seq<nat>, cpu: nat) returns (removed: bool, r: seq<nat>, ghost index: nat)
    ensures removed <==> cpu in cpus
    ensures removed ==> index < |cpus| && cpus[index] == cpu && cpu !in cpus[..index] && r == SwapRemoved(cpus, index)
    ensures !removed ==> r == cpus
  {
    for i := 0 to |cpus|
      invariant cpu !in cpus[..i]
    {
      if cpus[i] == cpu {
        return true, SwapRemoved(cpus, i), i;
      }
    }
    return false, cpus, 0;
  }

  /** Apply a profile to one CPU after the other, stopping at the first failure: a
      write that fails, or a CPU that cannot meet the profile. */
  method ConsolidateAll(start: seq<Registers>, cpus: seq<nat>, platform: Platform, profile: Option<Profile>)
    returns (ok: bool, regs: seq<Registers>, ghost writeFailed: bool)
    requires |start| == |platform.cpus| && forall k | 0 <= k < |cpus| :: cpus[k] < |start|
    ensures |regs| == |start|
    ensures forall id | 0 <= id < |regs| && id !in cpus :: regs[id] == start[id]
    ensures ok ==> forall id | id in cpus :: Settled(regs[id], platform.cpus[id], platform, profile)
    ensures ok <==> !writeFailed && forall k | 0 <= k < |cpus| :: Feasible(platform.cpus[cpus[k]], platform, profile)
  {
    regs := start;
    for i := 0 to |cpus|
      invariant |regs| == |start|
      invariant forall id | 0 <= id < |regs| && id !in cpus :: regs[id] == start[id]
      invariant forall k | 0 <= k < i :: Settled(regs[cpus[k]], platform.cpus[cpus[k]], platform, profile)
      invariant forall k | 0 <= k < i :: Feasible(platform.cpus[cpus[k]], platform, profile)
    {
      var id := cpus[i];
      var r;
      ok, r, writeFailed := Consolidate(regs[id], platform.cpus[id], platform, profile);
      regs := regs[id := r];
      if !ok {
        return false, regs, writeFailed;
      }
    }
    return true, regs, false;
  }

  /** What the fields of CPUs and pools hold: back-pointers and profiles (the view),
      the pools' lists, and the CPUs' control files. */
  datatype State = State(view: View, lists: map<Home, seq<nat>>, regs: seq<Registers>)

  class Host {
    const platform: Platform
    var st: State
    /** The names of the exclusive pools, in the order of the host's slice. */
    var exclusives: Slice<string>
    /** How often a profile could not be applied to a CPU, and how often that was
        because writing one of its control files failed. */
    ghost var faults: nat
    ghost var failedWrites: nat

    ghost predicate Valid()
      reads this, exclusives.arr
    {
      && |st.view.homes| == |st.regs| == |platform.cpus|
      && Partitioned(st.view, st.lists)
      && exclusives.Ok() && Registered(exclusives.Elems(), st.view)
      && (faults == 0 ==> AllSettled(st.view, st.regs, platform))
    }

    /** The only reasons for a fault since a state with this count and view: a write
        failed, or some pool carries a profile that some CPU cannot meet. */
    ghost predicate Excuse(writes: nat, v: View)
      reads this`failedWrites
    {
      writes < failedWrites || !AllFeasible(v.profiles, platform)
    }

    /** initHost: every CPU starts in the reserved pool, nothing else exists. */
    constructor (platform: Platform, initial: seq<Registers>)
      requires |initial| == |platform.cpus|
      ensures Valid() && fresh(exclusives.arr) && this.platform == platform && st.regs == initial
      ensures st.view == View(seq(|initial|, _ => InReserved), map[InReserved := None, InShared := None])
      ensures faults == 0 && failedWrites == 0
    {
      this.platform := platform;
      var all := seq(|initial|, i => i);
      st := State(View(seq(|initial|, _ => InReserved), map[InReserved := None, InShared := None]),
                  map[InReserved := all, InShared := []], initial);
      assert forall c :: c in all <==> 0 <= c < |all| && all[c] == c;
      var arr := new string[0];
      exclusives := Slice(arr, 0);
      faults, failedWrites := 0, 0;
    }

    // ---- cpu.go

    /** Change pools once SetPool has allowed it. If the new pool's profile cannot
        be applied the CPU goes back where it was, at the end of the list. */
    method DoSetPool(id: nat, target: Home) returns (ok: bool)
      requires Valid() && id < |st.view.homes| && target in st.lists && st.view.homes[id] != target
      modifies this`st, this`faults, this`failedWrites
      ensures Valid()
      ensures st.view == if ok then old(st.view).Move([id], target) else old(st.view)
      ensures faults == old(faults) + if ok then 0 else 1
      ensures old(failedWrites) <= failedWrites
      ensures ok <==> failedWrites == old(failedWrites) && Feasible(platform.cpus[id], platform, old(st.view).profiles[target])
      ensures Relisted(old(st.lists), st.lists, old(st.view).homes[id], st.view.homes[id], id)
    {
      var origin := st.view.homes[id];
      var removed, rest;
      ghost var index;
      removed, rest, index := RemoveCpu(st.lists[origin], id);
      assert removed;
      var r;
      ghost var writeFailed;
      ok, r, writeFailed := Consolidate(st.regs[id], platform.cpus[id], platform, st.view.profiles[target]);
      if !ok {
        RollbackKeepsPartition(st.view, st.lists, id, index);
        st := st.(lists := st.lists[origin := rest + [id]], regs := st.regs[id := r]);
        faults := faults + 1;
        failedWrites := failedWrites + if writeFailed then 1 else 0;
        return;
      }
      MoveKeepsPartition(st.view, st.lists, id, index, target);
      st := State(st.view.Move([id], target),
                  st.lists[origin := rest][target := st.lists[target] + [id]],
                  st.regs[id := r]);
    }

    /** Move one CPU: reserved <-> shared <-> exclusive only. */
    method SetPool(id: nat, target: Home) returns (ok: bool)
      requires Valid() && id < |st.view.homes| && target in st.lists
      modifies this`st, this`faults, this`failedWrites
      ensures Valid()
      ensures st.view == if ok then old(st.view).Move([id], target) else old(st.view)
      ensures old(faults) <= faults
      ensures ok <==> old(st.view).CanMove(id, target) && faults == old(faults)
      ensures faults == old(faults) ==>
                (ok <==> old(st.view).homes[id] == target || old(st.view).homes[id] == InShared || target == InShared)
      ensures !old(st.view).CanMove(id, target) ==> faults == old(faults) && failedWrites == old(failedWrites)
      ensures old(failedWrites) <= failedWrites
      ensures ok <==> old(st.view).CanMove(id, target) && failedWrites == old(failedWrites) && CanSettle(old(st.view), platform, id, target)
    {
      var current := st.view.homes[id];
      if current == target {
        assert st.view.homes == st.view.Move([id], target).homes;
        return true;
      }
      if current == InReserved && target.InPool? {
        return false;
      }
      if current.InPool? && target.InPool? {
        return false;
      }
      if current.InPool? && target == InReserved {
        return false;
      }
      // The source panics if neither end is the shared pool; that cannot happen.
      assert target == InShared || current == InShared;
      ok := DoSetPool(id, target);
    }

    // ---- pool.go

    /** moveCpus: one CPU after the other, stopping at the first that fails. */
    method MoveCpus(target: Home, cpus: seq<nat>) returns (ok: bool, ghost done: nat)
      requires Valid() && target in st.lists && st.view.Known(cpus)
      modifies this`st, this`faults, this`failedWrites
      ensures Valid()
      ensures done <= |cpus| && st.view == old(st.view).Move(cpus[..done], target)
      ensures ok ==> done == |cpus| && st.view == old(st.view).Move(cpus, target)
      ensures !ok && faults == old(faults) ==> done < |cpus| && !old(st.view).CanMove(cpus[done], target)
      ensures CanMovePrefix(old(st.view), cpus, done, target)
      ensures old(st.view).Reaches(st.view)
      ensures old(faults) <= faults
      ensures ok <==> old(st.view).CanMoveAll(cpus, target) && faults == old(faults)
      ensures old(failedWrites) <= failedWrites
      ensures ok <==> && old(st.view).CanMoveAll(cpus, target) && failedWrites == old(failedWrites)
                      && CanSettleAll(old(st.view), platform, cpus, |cpus|, target)
      ensures old(failedWrites) <= failedWrites && (faults == old(faults) || Excuse(old(failedWrites), old(st.view)))
    {
      FeasibleSettles(st.view, platform, cpus, target);
      MoveNone(st.view, target);
      for i := 0 to |cpus|
        invariant Valid() && faults == old(faults) && failedWrites == old(failedWrites)
        invariant st.view == old(st.view).Move(cpus[..i], target)
        invariant CanSettleAll(old(st.view), platform, cpus, i, target)
        invariant CanMovePrefix(old(st.view), cpus, i, target)
      {
        PrefixReaches(old(st.view), cpus, i, target);
        ok := SetPool(cpus[i], target);
        if !ok {
          return false, i;
        }
        MoveOneMore(old(st.view), cpus, i, target);
      }
      PrefixReaches(old(st.view), cpus, |cpus|, target);
      return true, |cpus|;
    }

    /** ManyByIDs over all CPUs: fails on the first id that names none. */
    method ManyByIDs(ids: seq<nat>) returns (ok: bool, cpus: seq<nat>)
      ensures ok <==> st.view.Known(ids)
      ensures ok ==> cpus == ids
    {
      cpus := [];
      for i := 0 to |ids|
        invariant cpus == ids[..i] && st.view.Known(cpus)
      {
        if |st.view.homes| <= ids[i] {
          return false, [];
        }
        cpus := cpus + [ids[i]];
      }
      return true, cpus;
    }

    /** A failing call has moved exactly the CPUs listed before the one that failed. */
    method MoveCPUIDs(target: Home, ids: seq<nat>) returns (ok: bool, ghost done: nat)
      requires Valid() && target in st.lists
      modifies this`st, this`faults, this`failedWrites
      ensures Valid()
      ensures done <= |ids| && st.view == old(st.view).Move(ids[..done], target)
      ensures ok ==> done == |ids| && st.view == old(st.view).Move(ids, target)
      ensures !old(st.view).Known(ids) ==> done == 0 && st.view == old(st.view) && faults == old(faults)
      ensures !ok && old(st.view).Known(ids) && faults == old(faults) ==>
                done < |ids| && !old(st.view).CanMove(ids[done], target)
      ensures old(st.view).Known(ids) ==> CanMovePrefix(old(st.view), ids, done, target)
      ensures old(st.view).Reaches(st.view)
      ensures old(faults) <= faults
      ensures ok <==> old(st.view).Known(ids) && old(st.view).CanMoveAll(ids, target) && faults == old(faults)
      ensures ok <==> && old(st.view).Known(ids) && old(st.view).CanMoveAll(ids, target) && failedWrites == old(failedWrites)
                      && CanSettleAll(old(st.view), platform, ids, |ids|, target)
      ensures old(failedWrites) <= failedWrites && (faults == old(faults) || Excuse(old(failedWrites), old(st.view)))
    {
      var cpus;
      ok, cpus := ManyByIDs(ids);
      if !ok {
        MoveNone(st.view, target);
        return false, 0;
      }
      ok, done := MoveCpus(target, cpus);
    }

    /** One round of setCpus, by kind of pool: bring a requested CPU in, evict a
        member that is not requested, leave any other CPU alone. */
    method PlaceCpu(target: Home, id: nat, requested: bool) returns (ok: bool)
      requires Valid() && target in st.lists && id < |st.view.homes|
      modifies this`st, this`faults, this`failedWrites
      ensures Valid()
      ensures st.view == if !ok then old(st.view)
                         else if requested then old(st.view).Move([id], target)
                         else if old(st.view).homes[id] == target then old(st.view).Move([id], Neighbour(target))
                         else old(st.view)
      ensures old(faults) <= faults
      ensures ok <==> (requested ==> old(st.view).CanMove(id, target)) && faults == old(faults)
      ensures requested && !old(st.view).CanMove(id, target) ==> faults == old(faults) && failedWrites == old(failedWrites)
      ensures old(failedWrites) <= failedWrites
      ensures ok <==> && (requested ==> old(st.view).CanMove(id, target)) && failedWrites == old(failedWrites)
                      && CanRehome(old(st.view), platform, id, requested, target)
    {
      ok := true;
      if target == InReserved {
        if requested {
          if st.view.homes[id].InPool? {
            return false;
          }
          ok := SetPool(id, InReserved);
        } else if st.view.homes[id] == InReserved {
          ok := SetPool(id, InShared);
        }
      } else if target == InShared {
        if requested {
          ok := SetPool(id, InShared);
        } else if st.view.homes[id] == InShared {
          ok := SetPool(id, InReserved);
        }
      } else {
        if requested {
          ok := SetPool(id, target);
        } else if st.view.homes[id] == target {
          ok := SetPool(id, InShared);
        }
      }
    }

    /** The round for one CPU, once all CPUs before it have been done. */
    method Round(ghost v: View, target: Home, requested: seq<nat>, id: nat) returns (ok: bool)
      requires Valid() && target in st.lists && v.Ok() && v.Known(requested) && id < |v.homes|
      requires st.view == v.Replace(requested, target, id)
      modifies this`st, this`faults, this`failedWrites
      ensures Valid() && old(faults) <= faults && old(failedWrites) <= failedWrites
      ensures st.view == v.Replace(requested, target, if ok then id + 1 else id)
      ensures ok <==> (id in requested ==> v.CanMove(id, target)) && faults == old(faults)
      ensures ok <==> && (id in requested ==> v.CanMove(id, target)) && failedWrites == old(failedWrites)
                      && CanRehome(v, platform, id, id in requested, target)
      ensures id in requested && !v.CanMove(id, target) ==> faults == old(faults) && failedWrites == old(failedWrites)
    {
      ReplaceOneMore(v, requested, target, id);
      RehomeNext(v, platform, requested, id, target);
      ok := PlaceCpu(target, id, id in requested);
    }

    /** setCpus, in the order of the host's CPUs, stopping at the first failure. */
    method SetCpus(target: Home, requested: seq<nat>) returns (ok: bool, ghost done: nat)
      requires Valid() && target in st.lists && st.view.Known(requested)
      modifies this`st, this`faults, this`failedWrites
      ensures Valid()
      ensures done <= |st.view.homes| && st.view == old(st.view).Replace(requested, target, done)
      ensures ok ==> done == |st.view.homes| && st.view == old(st.view).SetMembers(requested, target)
      ensures !ok && faults == old(faults) ==>
                done < |st.view.homes| && done in requested && !old(st.view).CanMove(done, target)
      ensures CanMoveBelow(old(st.view), requested, done, target)
      ensures old(st.view).Reaches(st.view)
      ensures old(faults) <= faults
      ensures ok <==> old(st.view).CanMoveAll(requested, target) && faults == old(faults)
      ensures ok <==> && old(st.view).CanMoveAll(requested, target) && failedWrites == old(failedWrites)
                      && CanRehomeAll(old(st.view), platform, requested, |old(st.view).homes|, target)
      ensures old(failedWrites) <= failedWrites && (faults == old(faults) || Excuse(old(failedWrites), old(st.view)))
    {
      ghost var v := st.view;
      FeasibleRehomes(v, platform, requested, target);
      ok, done := Rounds(v, target, requested);
      BelowReaches(v, requested, done, target);
      if !ok {
        RehomeNext(v, platform, requested, done, target);
      }
    }

    /** The loop of setCpus: how far it gets, and why it stops. */
    method Rounds(ghost v: View, target: Home, requested: seq<nat>) returns (ok: bool, ghost done: nat)
      requires Valid() && target in st.lists && st.view == v && v.Known(requested)
      modifies this`st, this`faults, this`failedWrites
      ensures Valid() && old(faults) <= faults && old(failedWrites) <= failedWrites
      ensures done <= |v.homes| && st.view == v.Replace(requested, target, done)
      ensures CanMoveBelow(v, requested, done, target)
      ensures ok ==> && done == |v.homes| && faults == old(faults) && failedWrites == old(failedWrites)
                     && CanRehomeAll(v, platform, requested, done, target)
      ensures !ok ==> && done < |v.homes|
                      && if done in requested && !v.CanMove(done, target)
                         then faults == old(faults) && failedWrites == old(failedWrites)
                         else faults > old(faults) && (failedWrites > old(failedWrites) || !CanRehome(v, platform, done, done in requested, target))
    {
      ReplaceNone(v, requested, target);
      for id := 0 to |st.view.homes|
        invariant |st.view.homes| == |v.homes| && Valid() && faults == old(faults) && failedWrites == old(failedWrites)
        invariant st.view == v.Replace(requested, target, id)
        invariant CanMoveBelow(v, requested, id, target) && CanRehomeAll(v, platform, requested, id, target)
      {
        RehomeNext(v, platform, requested, id, target);
        BelowReaches(v, requested, id, target);
        ok := Round(v, target, requested, id);
        if !ok {
          return false, id;
        }
      }
      return true, |st.view.homes|;
    }

    /** A failing call has processed exactly the host's CPUs below the one it stopped at. */
    method SetCPUIDs(target: Home, ids: seq<nat>) returns (ok: bool, ghost done: nat)
      requires Valid() && target in st.lists
      modifies this`st, this`faults, this`failedWrites
      ensures Valid()
      ensures done <= |st.view.homes| && st.view == old(st.view).Replace(ids, target, done)
      ensures ok ==> done == |st.view.homes| && st.view == old(st.view).SetMembers(ids, target)
      ensures !old(st.view).Known(ids) ==> done == 0 && st.view == old(st.view) && faults == old(faults)
      ensures !ok && old(st.view).Known(ids) && faults == old(faults) ==>
                done < |st.view.homes| && done in ids && !old(st.view).CanMove(done, target)
      ensures old(st.view).Known(ids) ==> CanMoveBelow(old(st.view), ids, done, target)
      ensures old(st.view).Reaches(st.view)
      ensures old(faults) <= faults
      ensures ok <==> old(st.view).Known(ids) && old(st.view).CanMoveAll(ids, target) && faults == old(faults)
      ensures ok <==> && old(st.view).Known(ids) && old(st.view).CanMoveAll(ids, target) && failedWrites == old(failedWrites)
                      && CanRehomeAll(old(st.view), platform, ids, |old(st.view).homes|, target)
      ensures old(failedWrites) <= failedWrites && (faults == old(faults) || Excuse(old(failedWrites), old(st.view)))
    {
      var cpus;
      ok, cpus := ManyByIDs(ids);
      if !ok {
        ReplaceNone(st.view, ids, target);
        return false, 0;
      }
      ok, done := SetCpus(target, cpus);
    }

    /** The profile is stored first, then applied to each CPU of the pool. */
    method SetPowerProfile(target: Home, profile: Option<Profile>) returns (ok: bool)
      requires Valid() && target in st.lists
      modifies this`st, this`faults, this`failedWrites
      ensures Valid() && st.lists == old(st.lists)
      ensures target == InReserved ==> !ok && st == old(st) && faults == old(faults)
      ensures target != InReserved ==> st.view == old(st.view).SetProfile(target, profile)
      ensures old(faults) <= faults
      ensures target != InReserved ==> (ok <==> faults == old(faults))
      ensures target != InReserved ==>
                (ok <==> && failedWrites == old(failedWrites)
                         && forall id | 0 <= id < |st.view.homes| && st.view.homes[id] == target :: Feasible(platform.cpus[id], platform, profile))
      ensures old(failedWrites) <= failedWrites && (faults == old(faults) || Excuse(old(failedWrites), st.view))
      ensures ok ==> forall id | id in st.lists[target] ::
                       Settled(st.regs[id], platform.cpus[id], platform, profile)
      ensures forall id | 0 <= id < |st.regs| && id !in st.lists[target] :: st.regs[id] == old(st.regs)[id]
    {
      if target == InReserved {
        return false;
      }
      ghost var v, list, before := st.view, st.lists[target], st.regs;
      ProfileKeepsPartition(v, st.lists, target, profile);
      var regs;
      ghost var writeFailed;
      ok, regs, writeFailed := ConsolidateAll(st.regs, st.lists[target], platform, profile);
      ListFeasible(list, v.homes, target, platform, profile);
      if ok {
        ProfileKeepsSettled(v, before, regs, platform, target, profile, list);
      } else {
        faults := faults + 1;
        failedWrites := failedWrites + if writeFailed then 1 else 0;
        FeasiblePool(v.profiles[target := profile], platform, target);
      }
      st := st.(view := st.view.SetProfile(target, profile), regs := regs);
    }

    /** PoolList.remove: the slot written is the first that holds the name. */
    method Unregister(name: string) returns (ghost index: nat)
      requires Valid() && InPool(name) in st.lists
      requires forall i | 0 <= i < |st.view.homes| :: st.view.homes[i] != InPool(name)
      modifies this`st, this`exclusives, exclusives.arr
      ensures Valid()
      ensures st.view == old(st.view).Drop(InPool(name))
      ensures SlotWritten(name, index)
    {
      var ok, rest;
      ok, rest, index := Remove(exclusives, name);
      DropKeepsPartition(st.view, st.lists, old(exclusives.Elems()), index);
      exclusives := rest;
      st := st.(view := st.view.Drop(InPool(name)), lists := st.lists - {InPool(name)});
    }

    /** The slice shrank by one: its last name now stands where `name` stood first. */
    twostate predicate SlotWritten(name: string, index: nat)
      reads this, exclusives.arr
    {
      && old(exclusives.Ok()) && exclusives.arr == old(exclusives.arr) && exclusives.len + 1 == old(exclusives.len)
      && index < old(exclusives.len) && old(exclusives.arr[index]) == name && name !in old(exclusives.arr[..index])
      && exclusives.arr[..] == old(exclusives.arr[..])[index := old(exclusives.arr[exclusives.len - 1])]
    }

    /** Drain to the shared pool, then unregister. Shared and reserved refuse. */
    method RemovePool(target: Home) returns (ok: bool, ghost done: nat, ghost index: nat)
      requires Valid() && target in st.lists
      modifies this`st, this`faults, this`failedWrites, this`exclusives, exclusives.arr
      ensures Valid()
      ensures !target.InPool? ==> !ok && st == old(st) && faults == old(faults)
      ensures target.InPool? && ok ==>
                st.view == old(st.view).SetMembers([], target).Drop(target) && SlotWritten(target.name, index)
      ensures target.InPool? && !ok ==> st.view == old(st.view).Replace([], target, done)
      ensures !ok ==> exclusives == old(exclusives) && exclusives.arr[..] == old(exclusives.arr[..])
      ensures old(st.view).Reaches(st.view)
      ensures old(faults) <= faults
      ensures target.InPool? ==> (ok <==> faults == old(faults))
      ensures target.InPool? ==>
                (ok <==> failedWrites == old(failedWrites) && CanRehomeAll(old(st.view), platform, [], |old(st.view).homes|, target))
      ensures old(failedWrites) <= failedWrites && (faults == old(faults) || Excuse(old(failedWrites), old(st.view)))
    {
      index, done := 0, 0;
      if !target.InPool? {
        return false, 0, 0;
      }
      Drained(st.view, target);
      ok, done := SetCpus(target, []);
      if !ok {
        return;
      }
      index := Unregister(target.name);
    }

    // ---- host.go

    /** IndexOfName. */
    method IndexOfName(name: string) returns (index: int)
      requires exclusives.Ok()
      ensures index < 0 <==> name !in exclusives.Elems()
      ensures 0 <= index ==> index < exclusives.len && exclusives.arr[index] == name
    {
      index := IndexOf(exclusives, name);
    }

    /** A new empty pool; refused if the name is taken. */
    method AddExclusivePool(name: string) returns (ok: bool)
      requires Valid()
      modifies this`st, this`exclusives, exclusives.arr
      ensures Valid()
      ensures ok <==> InPool(name) !in old(st.view).profiles
      ensures ok ==> st.view == old(st.view).SetProfile(InPool(name), None)
      ensures !ok ==> st == old(st) && exclusives == old(exclusives) && exclusives.arr[..] == old(exclusives.arr[..])
      ensures exclusives.arr == old(exclusives.arr) || fresh(exclusives.arr)
    {
      var index := IndexOfName(name);
      if 0 <= index {
        return false;
      }
      NoDupSnoc(exclusives.Elems(), name);
      exclusives := Append(exclusives, [name]);
      st := st.(view := st.view.SetProfile(InPool(name), None), lists := st.lists[InPool(name) := []]);
      return true;
    }

    /** ByName. */
    method GetExclusivePool(name: string) returns (pool: Option<Home>)
      requires Valid()
      ensures pool == if InPool(name) in st.view.profiles then Some(InPool(name)) else None
    {
      var index := IndexOfName(name);
      pool := if index < 0 then None else Some(InPool(name));
    }
  }
}
