/** controllers/powernodeconfig_controller.go: bringing the shared and reserved
    pools of a node in line with a PowerNodeConfig. */
module NodeConfig {
  import opened Text
  import opened Slices
  import opened Views
  import opened Pools
  import opened NodeConfigViews
  import CpuLists

  datatype Outcome = Invalid | SharedFailed | GroupErrors | Applied

  datatype Status = Status(profile: string, cpuIDs: string, failed: bool)

  /** One status entry per group, with its cores in list format. */
  ghost predicate Recorded(statuses: seq<Status>, groups: seq<Group>, n: nat) {
    && |statuses| == n <= |groups|
    && forall k | 0 <= k < n :: Records(statuses[k], groups[k])
  }

  ghost predicate Records(s: Status, g: Group) {
    s.profile == g.profile && s.cpuIDs == CpuLists.Render(CpuLists.Sort(g.cores))
  }

  /** The entries of exactly those groups carry an error whose profile has no pool. */
  ghost predicate FailedExactly(statuses: seq<Status>, groups: seq<Group>, v: View)
    requires |statuses| <= |groups|
  {
    forall k | 0 <= k < |statuses| :: statuses[k].failed <==> groups[k].profile != "" && !HasOwnPool(v, groups[k])
  }

  /** How many entries carry an error. */
  ghost function Failures(statuses: seq<Status>): (n: nat) {
    if statuses == [] then 0
    else Failures(statuses[..|statuses| - 1]) + if statuses[|statuses| - 1].failed then 1 else 0
  }

  lemma {:induction false} FailuresNone(statuses: seq<Status>)
    ensures Failures(statuses) == 0 <==> NoneFailed(statuses)
  {
    if statuses != [] {
      FailuresNone(statuses[..|statuses| - 1]);
    }
  }

  /** What has been written down after n groups: an entry for each, as many errors as
      entries that carry one, and, in a run that is `exact`, which ones do. */
  ghost predicate Documented(statuses: seq<Status>, groups: seq<Group>, n: nat, errors: nat, v: View, exact: bool) {
    && n <= |groups| && Recorded(statuses, groups, n) && errors == Failures(statuses)
    && (forall k | 0 <= k < n :: v.Known(groups[k].cores))
    && (exact ==> FailedExactly(statuses, groups, v))
  }

  lemma DocumentNone(groups: seq<Group>, v: View, exact: bool)
    ensures Documented([], groups, 0, 0, v, exact)
  {
  }

  lemma DocumentOneMore(statuses: seq<Status>, groups: seq<Group>, n: nat, errors: nat, v: View, exact: bool, s: Status)
    requires n < |groups| && Documented(statuses, groups, n, errors, v, exact)
    requires Records(s, groups[n]) && v.Known(groups[n].cores)
    requires exact ==> (s.failed <==> groups[n].profile != "" && !HasOwnPool(v, groups[n]))
    ensures Documented(statuses + [s], groups, n + 1, errors + if s.failed then 1 else 0, v, exact)
  {
    assert forall k | 0 <= k < |statuses| :: (statuses + [s])[k] == statuses[k];
    assert (statuses + [s])[|statuses|] == s && (statuses + [s])[..|statuses|] == statuses;
  }

  /** The same said of another view with the same CPUs, in which the same groups' profiles
      have pools. */
  lemma DocumentAlike(statuses: seq<Status>, groups: seq<Group>, n: nat, errors: nat, v: View, w: View, exact: bool, still: bool)
    requires Documented(statuses, groups, n, errors, v, exact) && |v.homes| == |w.homes|
    requires still ==> exact && forall k: nat | k < |groups| :: HasOwnPool(w, groups[k]) <==> HasOwnPool(v, groups[k])
    ensures Documented(statuses, groups, n, errors, w, still)
  {
  }

  /** What a run of the loop over the groups reports: entries for all of them and their
      errors, or entries for those before the one that cut it short, whose error is then the
      only one passed on. */
  ghost predicate Reported(statuses: seq<Status>, groups: seq<Group>, aborted: bool, errors: nat, v: View, exact: bool) {
    if aborted then errors == 1 && Documented(statuses, groups, |statuses|, Failures(statuses), v, exact)
    else Documented(statuses, groups, |groups|, errors, v, exact)
  }

  lemma ReportSays(statuses: seq<Status>, groups: seq<Group>, aborted: bool, errors: nat, v: View, exact: bool)
    requires Reported(statuses, groups, aborted, errors, v, exact)
    ensures |statuses| <= |groups| && (errors == 0 <==> !aborted && NoneFailed(statuses))
    ensures !aborted ==> Recorded(statuses, groups, |groups|) && AllKnown(v, groups)
    ensures exact ==> FailedExactly(statuses, groups, v)
  {
    FailuresNone(statuses);
  }

  lemma ReportAlike(statuses: seq<Status>, groups: seq<Group>, aborted: bool, errors: nat, v: View, w: View, exact: bool, still: bool)
    requires Reported(statuses, groups, aborted, errors, v, exact) && |v.homes| == |w.homes|
    requires still ==> exact && forall k: nat | k < |groups| :: HasOwnPool(w, groups[k]) <==> HasOwnPool(v, groups[k])
    ensures Reported(statuses, groups, aborted, errors, w, still)
  {
    if aborted {
      DocumentAlike(statuses, groups, |statuses|, Failures(statuses), v, w, exact, still);
    } else {
      DocumentAlike(statuses, groups, |groups|, errors, v, w, exact, still);
    }
  }

  ghost predicate NoneFailed(statuses: seq<Status>) {
    forall k | 0 <= k < |statuses| :: !statuses[k].failed
  }

  /** The profiles of an accepted configuration have pools. */
  lemma NoneFails(statuses: seq<Status>, v: View, cluster: Cluster, c: Config)
    requires |statuses| <= |c.groups| && FailedExactly(statuses, c.groups, v) && Accepts(v, cluster, c)
    ensures NoneFailed(statuses)
  {
  }

  class PowerNodeConfigReconciler {
    const library: Host
    const nodeName: string

    constructor (library: Host, nodeName: string)
      ensures this.library == library && this.nodeName == nodeName
    {
      this.library, this.nodeName := library, nodeName;
    }

    /** While a loop ranges over a header captured before it, each Remove overwrites a
        slot of the same array and shortens the host's own header. No slot ahead of the
        loop is ever written, so every pool is looked at exactly once. */
    ghost predicate Ahead(pools: Slice<string>, names: seq<string>, i: nat)
      reads library, pools.arr
    {
      && library.exclusives.arr == pools.arr && library.exclusives.len <= pools.len <= pools.arr.Length
      && pools.len == |names| && forall k | i <= k < pools.len :: pools.arr[k] == names[k]
    }

    /** One round of such a loop: the pool at i goes if it is pseudo-reserved. */
    method RemoveIfPseudo(pools: Slice<string>, ghost v: View, ghost names: seq<string>, i: nat) returns (ok: bool)
      requires library.Valid() && NoDup(names) && v.Ok() && (forall n | n in names :: InPool(n) in v.profiles)
      requires i < pools.len && Ahead(pools, names, i) && library.st.view == Evicted(v, PseudoAmong(nodeName, names[..i]))
      modifies library`st, library`faults, library`failedWrites, library`exclusives, pools.arr
      ensures library.Valid() && old(library.faults) <= library.faults
      ensures ok <==> library.faults == old(library.faults)
      ensures ok ==> Ahead(pools, names, i + 1) && library.st.view == Evicted(v, PseudoAmong(nodeName, names[..i + 1]))
      ensures ok ==> library.st.view ==
                       if IsPseudo(nodeName, InPool(names[i]))
                       then old(library.st.view).SetMembers([], InPool(names[i])).Drop(InPool(names[i])) else old(library.st.view)
      ensures library.exclusives.arr == pools.arr
      ensures OnlyTouches(old(library.st.view), library.st.view, nodeName, [])
      ensures old(library.failedWrites) <= library.failedWrites
      ensures library.faults == old(library.faults) || library.Excuse(old(library.failedWrites), old(library.st.view))
    {
      ghost var pool := InPool(names[i]);
      PseudoOneMore(nodeName, names, i);
      NoDupAt(names, i);
      TouchesNothing(library.st.view, nodeName, []);
      var p := pools.arr[i];
      if !HasPrefix(p, nodeName + "-reserved-") {
        return true;
      }
      ghost var done, index;
      EvictOneMore(v, PseudoAmong(nodeName, names[..i]), pool);
      ok, done, index := library.RemovePool(InPool(p));
      RemovalTouches(old(library.st.view), nodeName, pool, done);
    }

    /** The first loop of configureReservedPools. */
    method RemovePseudoPools() returns (ok: bool)
      requires library.Valid()
      modifies library`st, library`faults, library`failedWrites, library`exclusives, library.exclusives.arr
      ensures library.Valid()
      ensures ok ==> library.st.view == Evicted(old(library.st.view), PseudoPools(nodeName, old(library.st.view)))
      ensures ok <==> library.faults == old(library.faults)
      ensures old(library.faults) <= library.faults
      ensures library.exclusives.arr == old(library.exclusives.arr)
      ensures OnlyTouches(old(library.st.view), library.st.view, nodeName, [])
      ensures old(library.failedWrites) <= library.failedWrites
      ensures library.faults == old(library.faults) || library.Excuse(old(library.failedWrites), old(library.st.view))
    {
      var pools := library.exclusives;
      ghost var v, names := library.st.view, pools.Elems();
      EvictNone(v);
      TouchesNothing(v, nodeName, []);
      for i := 0 to pools.len
        invariant library.Valid() && library.faults == old(library.faults) && old(library.failedWrites) <= library.failedWrites
        invariant Ahead(pools, names, i) && library.st.view == Evicted(v, PseudoAmong(nodeName, names[..i]))
        invariant OnlyTouches(v, library.st.view, nodeName, [])
      {
        ghost var u := library.st.view;
        FewerFeasible(v.profiles, u.profiles, library.platform);
        ok := RemoveIfPseudo(pools, v, names, i);
        TouchesTransitive(v, u, library.st.view, nodeName, [], []);
        if !ok {
          return;
        }
      }
      assert names[..pools.len] == names;
      PseudoAmongAll(v, nodeName, names);
      return true;
    }

    method FillPool(own: Home, source: Home, cores: seq<nat>) returns (ok: bool)
      requires library.Valid() && IsPseudo(nodeName, own) && own in library.st.lists && source in library.st.lists
      modifies library`st, library`faults, library`failedWrites
      ensures library.Valid() && own in library.st.lists
      ensures old(library.faults) <= library.faults
      ensures ok <==> library.faults == old(library.faults)
                      && old(library.st.view).Known(cores) && old(library.st.view).CanMoveAll(cores, own)
      ensures ok ==> library.st.view ==
                       old(library.st.view).SetProfile(own, old(library.st.view).profiles[source]).SetMembers(cores, own)
      ensures OnlyTouches(old(library.st.view), library.st.view, nodeName, cores)
      ensures AllFeasible(old(library.st.view).profiles, library.platform) ==> AllFeasible(library.st.view.profiles, library.platform)
      ensures old(library.failedWrites) <= library.failedWrites
      ensures library.faults == old(library.faults) || library.Excuse(old(library.failedWrites), old(library.st.view))
    {
      ghost var v := library.st.view;
      CopiedFeasible(v.profiles, library.platform, own, source);
      ok := library.SetPowerProfile(own, library.st.view.profiles[source]);
      ghost var u := library.st.view;
      ProfileTouches(v, nodeName, own, v.profiles[source]);
      TouchesNothing(u, nodeName, cores);
      if ok {
        ghost var done;
        ok, done := library.SetCPUIDs(own, cores);
        ReplaceTouches(u, nodeName, cores, own, done);
      }
      TouchesThen(v, u, library.st.view, nodeName, cores);
    }

    /** A pool is added, given the profile of the group's profile pool, and filled;
        it is removed again if any of that fails. */
    method CreateReservedPool(g: Group) returns (ok: bool)
      requires library.Valid()
      modifies library`st, library`faults, library`failedWrites, library`exclusives, library.exclusives.arr
      ensures library.Valid()
      ensures library.exclusives.arr == old(library.exclusives.arr) || fresh(library.exclusives.arr)
      ensures old(library.faults) <= library.faults
      ensures ok ==> library.faults == old(library.faults)
      ensures library.faults == old(library.faults) && old(library.st.view).Known(g.cores) &&
              (forall c | c in g.cores :: old(library.st.view).homes[c] == InShared) ==>
                && (ok <==> CanPlace(old(library.st.view), nodeName, g))
                && library.st.view == (if ok then Placed(old(library.st.view), nodeName, g) else old(library.st.view))
      ensures OnlyTouches(old(library.st.view), library.st.view, nodeName, g.cores)
      ensures AllFeasible(old(library.st.view).profiles, library.platform) ==> AllFeasible(library.st.view.profiles, library.platform)
      ensures old(library.failedWrites) <= library.failedWrites
      ensures library.faults == old(library.faults) || library.Excuse(old(library.failedWrites), old(library.st.view))
    {
      ghost var v := library.st.view;
      var own := InPool(PoolName(nodeName, g.cores));
      OwnIsPseudo(nodeName, g);
      TouchesNothing(v, nodeName, g.cores);
      ok := library.AddExclusivePool(own.name);
      if !ok {
        return false;
      }
      ghost var added := library.st.view;
      ProfileTouches(v, nodeName, own, None);
      NoneFeasible(v, library.platform, own);
      AddedPool(v, nodeName, g);
      ok := FillOrRemove(own, g);
      TouchesThen(v, added, library.st.view, nodeName, g.cores);
    }

    /** The new pool is filled if the group's profile has a pool; it goes if not, or if
        filling it fails. */
    method FillOrRemove(own: Home, g: Group) returns (ok: bool)
      requires library.Valid() && IsPseudo(nodeName, own) && own in library.st.lists
      modifies library`st, library`faults, library`failedWrites, library`exclusives, library.exclusives.arr
      ensures library.Valid() && old(library.faults) <= library.faults
      ensures library.exclusives.arr == old(library.exclusives.arr)
      ensures ok ==> && library.faults == old(library.faults) && InPool(g.profile) in old(library.st.view).profiles
                     && library.st.view == old(library.st.view).SetProfile(own, old(library.st.view).profiles[InPool(g.profile)]).SetMembers(g.cores, own)
      ensures library.faults == old(library.faults) && old(library.st.view).Known(g.cores) && old(library.st.view).CanMoveAll(g.cores, own) ==>
                && (ok <==> InPool(g.profile) in old(library.st.view).profiles)
                && (!ok ==> library.st.view == old(library.st.view).SetMembers([], own).Drop(own))
      ensures OnlyTouches(old(library.st.view), library.st.view, nodeName, g.cores)
      ensures AllFeasible(old(library.st.view).profiles, library.platform) ==> AllFeasible(library.st.view.profiles, library.platform)
      ensures old(library.failedWrites) <= library.failedWrites
      ensures library.faults == old(library.faults) || library.Excuse(old(library.failedWrites), old(library.st.view))
    {
      ghost var v := library.st.view;
      TouchesNothing(v, nodeName, g.cores);
      var corePool := library.GetExclusivePool(g.profile);
      ok := corePool.Some?;
      if ok {
        ok := FillPool(own, corePool.value, g.cores);
      }
      if !ok {
        ghost var filled := library.st.view;
        RemoveOwn(own);
        TouchesTransitive(v, filled, library.st.view, nodeName, g.cores, []);
        assert g.cores + [] == g.cores;
      }
    }

    /** The removal after a failed attempt; its own failure is ignored. */
    method RemoveOwn(own: Home)
      requires library.Valid() && IsPseudo(nodeName, own) && own in library.st.lists
      modifies library`st, library`faults, library`failedWrites, library`exclusives, library.exclusives.arr
      ensures library.Valid() && old(library.faults) <= library.faults
      ensures library.exclusives.arr == old(library.exclusives.arr)
      ensures library.faults == old(library.faults) ==> library.st.view == old(library.st.view).SetMembers([], own).Drop(own)
      ensures OnlyTouches(old(library.st.view), library.st.view, nodeName, [])
      ensures AllFeasible(old(library.st.view).profiles, library.platform) ==> AllFeasible(library.st.view.profiles, library.platform)
      ensures old(library.failedWrites) <= library.failedWrites
      ensures library.faults == old(library.faults) || library.Excuse(old(library.failedWrites), old(library.st.view))
    {
      ghost var v, done, index := library.st.view, 0, 0;
      var removed;
      removed, done, index := library.RemovePool(own);
      RemovalTouches(v, nodeName, own, done);
      FewerFeasible(v.profiles, library.st.view.profiles, library.platform);
    }

    /** One round of the loop of configureReservedPools: the group's cores go to the
        shared pool first, then to a pool of their own or to the default reserved
        pool. `placed` tells which; it is false without an error only for a group
        without a profile. */
    method ConfigureGroup(g: Group) returns (ok: bool, placed: bool)
      requires library.Valid()
      modifies library`st, library`faults, library`failedWrites, library`exclusives, library.exclusives.arr
      ensures library.Valid() && |library.st.view.homes| == |old(library.st.view).homes|
      ensures library.exclusives.arr == old(library.exclusives.arr) || fresh(library.exclusives.arr)
      ensures old(library.faults) <= library.faults
      ensures ok && (g.profile != "" ==> placed) ==> library.faults == old(library.faults)
      ensures placed ==> ok && g.profile != ""
      ensures ok ==> old(library.st.view).Known(g.cores)
      ensures library.faults == old(library.faults) && old(library.st.view).Known(g.cores) ==>
                && ok && library.st.view == AfterGroup(old(library.st.view), nodeName, g)
                && (placed <==> g.profile != "" && CanPlace(old(library.st.view).Move(g.cores, InShared), nodeName, g))
      ensures OnlyTouches(old(library.st.view), library.st.view, nodeName, g.cores)
      ensures AllFeasible(old(library.st.view).profiles, library.platform) ==> AllFeasible(library.st.view.profiles, library.platform)
      ensures old(library.failedWrites) <= library.failedWrites
      ensures library.faults == old(library.faults) || library.Excuse(old(library.failedWrites), old(library.st.view))
    {
      ghost var v, done := library.st.view, 0;
      if v.Known(g.cores) {
        AllShared(v, g.cores, InReserved);
      }
      TouchesNothing(v, nodeName, g.cores);
      placed := false;
      ok, done := library.MoveCPUIDs(InShared, g.cores);
      ghost var shared := library.st.view;
      MoveTouches(v, nodeName, g.cores, done, InShared);
      if !ok {
        return;
      }
      TouchesNothing(shared, nodeName, g.cores);
      if g.profile != "" {
        placed := CreateReservedPool(g);
      }
      ghost var tried := library.st.view;
      TouchesAgain(v, shared, tried, nodeName, g.cores);
      if placed {
        return;
      }
      ok, done := library.MoveCPUIDs(InReserved, g.cores);
      MoveTouches(tried, nodeName, g.cores, done, InReserved);
      TouchesAgain(v, tried, library.st.view, nodeName, g.cores);
    }

    /** Where the host stands once n groups have been tried, starting from v with the
        given counts. */
    ghost predicate Tried(v: View, faults: nat, writes: nat, groups: seq<Group>, n: nat)
      requires n <= |groups|
      reads library
    {
      && |library.st.view.homes| == |v.homes| && faults <= library.faults && writes <= library.failedWrites
      && (library.faults == faults && AllKnown(v, groups) ==> library.st.view == AfterGroups(v, nodeName, groups[..n]))
      && OnlyTouches(v, library.st.view, nodeName, AllCores(groups[..n]))
      && (AllFeasible(v.profiles, library.platform) ==> AllFeasible(library.st.view.profiles, library.platform))
      && (library.faults == faults || library.Excuse(writes, v))
    }

    lemma TriedNone(groups: seq<Group>)
      ensures Tried(library.st.view, library.faults, library.failedWrites, groups, 0)
    {
      TouchesNothing(library.st.view, nodeName, []);
    }

    /** The next group. */
    method TryGroup(ghost v: View, ghost faults: nat, ghost writes: nat, groups: seq<Group>, n: nat) returns (ok: bool, placed: bool)
      requires library.Valid() && n < |groups| && Tried(v, faults, writes, groups, n)
      modifies library`st, library`faults, library`failedWrites, library`exclusives, library.exclusives.arr
      ensures library.Valid() && Tried(v, faults, writes, groups, n + 1)
      ensures library.exclusives.arr == old(library.exclusives.arr) || fresh(library.exclusives.arr)
      ensures old(library.faults) <= library.faults
      ensures ok && (groups[n].profile != "" ==> placed) ==> library.faults == old(library.faults)
      ensures placed ==> ok && groups[n].profile != ""
      ensures ok ==> v.Known(groups[n].cores)
      ensures library.faults == faults && AllKnown(v, groups) ==> ok
      ensures library.faults == faults && CleanStart(v, nodeName, groups) ==> (placed <==> HasOwnPool(v, groups[n]))
    {
      ghost var u := library.st.view;
      ok, placed := ConfigureGroup(groups[n]);
      OneMoreTried(v, u, library.st.view, groups, n);
    }

    /** What one more group comes to. */
    lemma OneMoreTried(v: View, u: View, w: View, groups: seq<Group>, n: nat)
      requires n < |groups| && OnlyTouches(v, u, nodeName, AllCores(groups[..n])) && OnlyTouches(u, w, nodeName, groups[n].cores)
      ensures OnlyTouches(v, w, nodeName, AllCores(groups[..n + 1]))
      ensures AfterGroups(v, nodeName, groups[..n + 1]) == AfterGroup(AfterGroups(v, nodeName, groups[..n]), nodeName, groups[n])
      ensures CleanStart(v, nodeName, groups) && u == AfterGroups(v, nodeName, groups[..n]) ==>
                (groups[n].profile != "" && CanPlace(u.Move(groups[n].cores, InShared), nodeName, groups[n]) <==> HasOwnPool(v, groups[n]))
    {
      assert groups[..n + 1][..n] == groups[..n];
      TouchesTransitive(v, u, w, nodeName, AllCores(groups[..n]), groups[n].cores);
      if CleanStart(v, nodeName, groups) {
        NextPlaced(v, nodeName, groups, n);
      }
    }

    /** The second loop of configureReservedPools. Returns whether it was cut short,
        what was recorded per group, and how many errors were collected. */
    method ConfigureGroups(groups: seq<Group>) returns (aborted: bool, statuses: seq<Status>, errors: nat, ghost tried: nat)
      requires library.Valid()
      modifies library`st, library`faults, library`failedWrites, library`exclusives, library.exclusives.arr
      ensures library.Valid() && tried <= |groups|
      ensures library.exclusives.arr == old(library.exclusives.arr) || fresh(library.exclusives.arr)
      ensures Tried(old(library.st.view), old(library.faults), old(library.failedWrites), groups, tried)
      ensures errors == 0 ==> library.faults == old(library.faults)
      ensures !aborted ==> tried == |groups|
      ensures Reported(statuses, groups, aborted, errors, old(library.st.view), Exact(old(library.st.view), old(library.faults), groups))
      ensures library.faults == old(library.faults) && AllKnown(old(library.st.view), groups) ==> !aborted
    {
      statuses, errors, tried := [], 0, 0;
      ghost var v, faults, writes := library.st.view, library.faults, library.failedWrites;
      TriedNone(groups);
      DocumentNone(groups, v, Exact(v, faults, groups));
      for i := 0 to |groups|
        invariant library.Valid() && tried == i == |statuses| && Tried(v, faults, writes, groups, i)
        invariant library.exclusives.arr == old(library.exclusives.arr) || fresh(library.exclusives.arr)
        invariant Documented(statuses, groups, i, errors, v, Exact(v, faults, groups))
        invariant errors == 0 ==> library.faults == faults
      {
        var ok;
        ok, statuses, errors := DocumentGroup(v, faults, writes, groups, i, statuses, errors);
        tried := i + 1;
        if !ok {
          return true, statuses, errors, tried;
        }
      }
      return false, statuses, errors, tried;
    }

    ghost predicate Exact(v: View, faults: nat, groups: seq<Group>)
      reads library
    {
      library.faults == faults && CleanStart(v, nodeName, groups)
    }

    /** The next group and its entry; a group that stops the loop has none. */
    method DocumentGroup(ghost v: View, ghost faults: nat, ghost writes: nat, groups: seq<Group>, n: nat,
                         statuses: seq<Status>, errors: nat)
      returns (ok: bool, more: seq<Status>, count: nat)
      requires library.Valid() && n < |groups| && Tried(v, faults, writes, groups, n)
      requires Documented(statuses, groups, n, errors, v, Exact(v, faults, groups))
      requires errors == 0 ==> library.faults == faults
      modifies library`st, library`faults, library`failedWrites, library`exclusives, library.exclusives.arr
      ensures library.Valid() && Tried(v, faults, writes, groups, n + 1)
      ensures library.exclusives.arr == old(library.exclusives.arr) || fresh(library.exclusives.arr)
      ensures if ok then |more| == n + 1 && Documented(more, groups, n + 1, count, v, Exact(v, faults, groups))
              else count == 1 && more == statuses && Documented(more, groups, n, errors, v, Exact(v, faults, groups))
      ensures count == 0 ==> library.faults == faults
      ensures library.faults == faults && AllKnown(v, groups) ==> ok
    {
      var placed;
      ok, placed := TryGroup(v, faults, writes, groups, n);
      if !ok {
        return false, statuses, 1;
      }
      var status := StatusFor(groups[n], placed);
      DocumentOneMore(statuses, groups, n, errors, v, Exact(v, faults, groups), status);
      return true, statuses + [status], errors + if status.failed then 1 else 0;
    }

    method StatusFor(g: Group, placed: bool) returns (s: Status)
      ensures Records(s, g) && (s.failed <==> g.profile != "" && !placed)
    {
      var text := CpuLists.PrettifyCoreList(g.cores);
      s := Status(g.profile, text, g.profile != "" && !placed);
    }

    method ConfigureReservedPools(config: Config) returns (aborted: bool, statuses: seq<Status>, errors: nat)
      requires library.Valid()
      modifies library`st, library`faults, library`failedWrites, library`exclusives, library.exclusives.arr
      ensures library.Valid() && old(library.faults) <= library.faults
      ensures library.exclusives.arr == old(library.exclusives.arr) || fresh(library.exclusives.arr)
      ensures errors == 0 ==> library.faults == old(library.faults)
      ensures Reported(statuses, config.groups, aborted, errors, old(library.st.view),
                       Exactly(old(library.st.view), old(library.faults), config))
      ensures library.faults == old(library.faults) && AllKnown(old(library.st.view), config.groups) ==>
                !aborted && library.st.view == AfterGroups(Evicted(old(library.st.view), PseudoPools(nodeName, old(library.st.view))),
                                                           nodeName, config.groups)
      ensures OnlyTouches(old(library.st.view), library.st.view, nodeName, AllCores(config.groups))
      ensures old(library.failedWrites) <= library.failedWrites
      ensures library.faults == old(library.faults) || library.Excuse(old(library.failedWrites), old(library.st.view))
    {
      ghost var v, faults := library.st.view, library.faults;
      var ok := RemovePseudoPools();
      if !ok {
        TouchesMore(v, library.st.view, nodeName, [], AllCores(config.groups));
        DocumentNone(config.groups, v, Exactly(v, faults, config));
        return true, [], 1;
      }
      ghost var u := library.st.view;
      FewerFeasible(v.profiles, u.profiles, library.platform);
      ghost var tried;
      aborted, statuses, errors, tried := ConfigureGroups(config.groups);
      AfterRemoval(v, u, library.st.view, config, statuses, aborted, errors, tried, library.faults == faults);
    }

    /** What the loop over the groups has done and reported, seen from before the old pools
        were removed. */
    lemma AfterRemoval(v: View, u: View, w: View, config: Config, statuses: seq<Status>, aborted: bool, errors: nat, tried: nat,
                       clean: bool)
      requires v.Ok() && u == Evicted(v, PseudoPools(nodeName, v)) && OnlyTouches(v, u, nodeName, [])
      requires tried <= |config.groups| && OnlyTouches(u, w, nodeName, AllCores(config.groups[..tried]))
      requires Reported(statuses, config.groups, aborted, errors, u, clean && CleanStart(u, nodeName, config.groups))
      ensures OnlyTouches(v, w, nodeName, AllCores(config.groups))
      ensures Reported(statuses, config.groups, aborted, errors, v, clean && GoodConfig(v, nodeName, config))
      ensures config.groups[..|config.groups|] == config.groups
    {
      if GoodConfig(v, nodeName, config) {
        EvictedIsClean(v, nodeName, config);
      }
      ReportAlike(statuses, config.groups, aborted, errors, u, v, clean && CleanStart(u, nodeName, config.groups),
                  clean && GoodConfig(v, nodeName, config));
      TouchesSome(u, w, nodeName, config.groups, tried);
      TouchesThen(v, u, w, nodeName, AllCores(config.groups));
    }

    ghost predicate Exactly(v: View, faults: nat, config: Config)
      reads library
    {
      library.faults == faults && GoodConfig(v, nodeName, config)
    }

    /** The shared pool takes the profile of the named profile's pool, and every
        reserved CPU joins it. */
    method ConfigureSharedPool(config: Config) returns (ok: bool)
      requires library.Valid()
      modifies library`st, library`faults, library`failedWrites
      ensures library.Valid()
      ensures old(library.faults) <= library.faults
      ensures ok <==> SharedSource(old(library.st.view), config).Some? && library.faults == old(library.faults)
      ensures ok ==> library.st.view == AfterShared(old(library.st.view), SharedSource(old(library.st.view), config))
      ensures KeepsProfilePools(old(library.st.view), library.st.view, nodeName, [])
      ensures AllFeasible(old(library.st.view).profiles, library.platform) ==> AllFeasible(library.st.view.profiles, library.platform)
      ensures old(library.failedWrites) <= library.failedWrites
      ensures library.faults == old(library.faults) || library.Excuse(old(library.failedWrites), old(library.st.view))
    {
      ghost var v := library.st.view;

      var pool := library.GetExclusivePool(config.sharedProfile);
      KeepsNothing(v, nodeName);
      if pool.None? {
        return false;
      }
      var profile := library.st.view.profiles[pool.value];
      if profile.None? {
        return false;
      }
      CopiedFeasible(v.profiles, library.platform, InShared, pool.value);
      ok := library.SetPowerProfile(InShared, profile);
      SharedStepsKeep(v, nodeName, profile, |v.homes|);
      if ok {
        ghost var u := library.st.view;
        ghost var done;
        ok, done := library.SetCPUIDs(InReserved, []);
        SharedStepsKeep(v, nodeName, profile, done);
      }
    }

    /** The loop of cleanupPowerNodeConfigPools: remember the shared CPUs and those
        of each pseudo-reserved pool, removing the pools on the way. */
    method GatherCores() returns (ok: bool, movedCores: seq<nat>)
      requires library.Valid()
      modifies library`st, library`faults, library`failedWrites, library`exclusives, library.exclusives.arr
      ensures library.Valid()
      ensures old(library.faults) <= library.faults
      ensures ok <==> library.faults == old(library.faults)
      ensures ok ==> library.st.view == Evicted(old(library.st.view), PseudoPools(nodeName, old(library.st.view)))
      ensures ok ==> Holds(movedCores, library.st.view.homes, InShared)
      ensures OnlyTouches(old(library.st.view), library.st.view, nodeName, [])
      ensures old(library.failedWrites) <= library.failedWrites
      ensures library.faults == old(library.faults) || library.Excuse(old(library.failedWrites), old(library.st.view))
    {
      movedCores := library.st.lists[InShared];
      var pools := library.exclusives;
      ghost var v, names := library.st.view, pools.Elems();
      EvictNone(v);
      TouchesNothing(v, nodeName, []);
      for i := 0 to pools.len
        invariant library.Valid() && library.faults == old(library.faults) && old(library.failedWrites) <= library.failedWrites
        invariant Ahead(pools, names, i) && library.st.view == Evicted(v, PseudoAmong(nodeName, names[..i]))
        invariant Holds(movedCores, library.st.view.homes, InShared)
        invariant OnlyTouches(v, library.st.view, nodeName, [])
      {
        ghost var u := library.st.view;
        FewerFeasible(v.profiles, u.profiles, library.platform);
        movedCores := WithPool(movedCores, v, names, i, pools.arr[i]);
        ok := RemoveIfPseudo(pools, v, names, i);
        TouchesTransitive(v, u, library.st.view, nodeName, [], []);
        if !ok {
          return;
        }
      }
      assert names[..pools.len] == names;
      PseudoAmongAll(v, nodeName, names);
      return true, movedCores;
    }

    /** What is remembered before the pool at i goes, if it is pseudo-reserved. */
    method WithPool(movedCores: seq<nat>, ghost v: View, ghost names: seq<string>, i: nat, p: string) returns (r: seq<nat>)
      requires library.Valid() && NoDup(names) && i < |names| && p == names[i] && InPool(p) in v.profiles
      requires library.st.view == Evicted(v, PseudoAmong(nodeName, names[..i]))
      requires Holds(movedCores, library.st.view.homes, InShared)
      ensures Holds(r, (if IsPseudo(nodeName, InPool(p)) then library.st.view.SetMembers([], InPool(p)).Drop(InPool(p))
                        else library.st.view).homes, InShared)
    {
      NoDupAt(names, i);
      r := movedCores;
      if HasPrefix(p, nodeName + "-reserved-") {
        HoldsMore(movedCores, library.st.lists[InPool(p)], library.st.view, InPool(p));
        r := movedCores + library.st.lists[InPool(p)];
      }
    }

    /** cleanupPowerNodeConfigPools up to the status update. */
    method CleanupPools() returns (ok: bool)
      requires library.Valid()
      modifies library`st, library`faults, library`failedWrites, library`exclusives, library.exclusives.arr
      ensures library.Valid()
      ensures old(library.faults) <= library.faults
      ensures ok <==> library.faults == old(library.faults)
      ensures ok ==> library.st.view == CleanedUp(old(library.st.view), nodeName)
      ensures library.failedWrites == old(library.failedWrites) && AllFeasible(old(library.st.view).profiles, library.platform) ==> ok
      ensures KeepsProfilePools(old(library.st.view), library.st.view, nodeName, [])
      ensures old(library.failedWrites) <= library.failedWrites
    {
      ghost var v := library.st.view;
      var movedCores;
      ok, movedCores := GatherCores();
      ghost var u := library.st.view;
      TouchesKeeps(v, u, nodeName, []);
      if !ok {
        return;
      }
      FewerFeasible(v.profiles, u.profiles, library.platform);
      MoveHeld(u, movedCores);
      CleanupIsMove(v, nodeName, movedCores);
      ghost var done;
      ok, done := library.MoveCpus(InReserved, movedCores);
      HeldMoveKeeps(v, u, nodeName, movedCores, done);
    }

    /** The disjointness check of validatePowerNodeConfigProfiles: accepted exactly
        if no core is listed twice. */
    method ReservedCoresDistinct(groups: seq<Group>) returns (ok: bool)
      ensures ok <==> NoDup(AllCores(groups))
    {
      var seen: set<nat> := {};
      for i := 0 to |groups|
        invariant NoDup(AllCores(groups[..i]))
        invariant forall c :: c in seen <==> c in AllCores(groups[..i])
      {
        ghost var before := AllCores(groups[..i]);
        var cores := groups[i].cores;
        AllCoresPrefix(groups, i);
        assert before + cores[..0] == before;
        for j := 0 to |cores|
          invariant NoDup(before + cores[..j])
          invariant forall c :: c in seen <==> c in before + cores[..j]
        {
          if cores[j] in seen {
            TwiceIn(AllCores(groups), before + cores[..j], cores[j..], cores[j]);
            return false;
          }
          seen := seen + {cores[j]};
          NoDupSnoc(before + cores[..j], cores[j]);
          assert before + cores[..j + 1] == (before + cores[..j]) + [cores[j]];
        }
        assert cores[..|cores|] == cores;
        assert groups[..i + 1][..i] == groups[..i];
      }
      assert groups[..|groups|] == groups;
      return true;
    }

    /** validateProfileAvailabilityOnNode. */
    method ProfileAvailable(name: string, cluster: Cluster) returns (ok: bool)
      requires library.Valid()
      ensures ok <==> Available(library.st.view, cluster, name)
    {
      if name == "" {
        return true;
      }
      if name !in cluster {
        return false;
      }
      var pool := library.GetExclusivePool(name);
      if pool.None? {
        return false;
      }
      return cluster[name].matchesNode;
    }

    /** validatePowerNodeConfigProfiles. */
    method ValidateProfiles(config: Config, cluster: Cluster) returns (ok: bool)
      requires library.Valid()
      ensures ok <==> Accepts(library.st.view, cluster, config)
    {
      if config.sharedProfile !in cluster || !cluster[config.sharedProfile].shared {
        return false;
      }
      ok := ReservedCoresDistinct(config.groups);
      if !ok {
        return;
      }
      ok := ProfileAvailable(config.sharedProfile, cluster);
      if !ok {
        return;
      }
      for i := 0 to |config.groups|
        invariant forall k: nat | k < i :: Available(library.st.view, cluster, config.groups[k].profile)
      {
        ok := ProfileAvailable(config.groups[i].profile, cluster);
        if !ok {
          return;
        }
      }
      return true;
    }

    /** applyPowerNodeConfig. What reading the cluster returns is an input. The last result
        is the shared CPU list written to the status. */
    method ApplyPowerNodeConfig(config: Config, cluster: Cluster)
      returns (outcome: Outcome, statuses: seq<Status>, sharedCPUs: string)
      requires library.Valid()
      modifies library`st, library`faults, library`failedWrites, library`exclusives, library.exclusives.arr
      ensures library.Valid() && old(library.failedWrites) <= library.failedWrites && old(library.faults) <= library.faults
      ensures library.exclusives.arr == old(library.exclusives.arr) || fresh(library.exclusives.arr)
      ensures outcome == Invalid <==> !Accepts(old(library.st.view), cluster, config)
      // Refused exactly if the shared profile is not one, a core repeats, or a profile that is named is missing,
      // without a pool or not for this node. A group that names no profile is no reason.
      ensures outcome == Invalid <==>
                || config.sharedProfile !in cluster || !cluster[config.sharedProfile].shared
                || (config.sharedProfile != "" &&
                      !(InPool(config.sharedProfile) in old(library.st.view).profiles && cluster[config.sharedProfile].matchesNode))
                || !ListedOnce(config.groups)
                || exists k: nat :: k < |config.groups| && config.groups[k].profile != "" &&
                     !(&& config.groups[k].profile in cluster && InPool(config.groups[k].profile) in old(library.st.view).profiles
                       && cluster[config.groups[k].profile].matchesNode)
      ensures outcome == Invalid ==> library.st == old(library.st) && library.faults == old(library.faults)
      ensures outcome == Invalid || outcome == SharedFailed ==> statuses == []
      ensures library.faults == old(library.faults) && outcome != Invalid ==>
                (outcome == SharedFailed <==> SharedSource(old(library.st.view), config).None?)
      ensures outcome == Applied ==> library.faults == old(library.faults) && AllKnown(old(library.st.view), config.groups)
                                     && Recorded(statuses, config.groups, |config.groups|) && NoneFailed(statuses)
      // The result, if no write fails and every profile can be met on every CPU.
      ensures outcome != Invalid &&
              (library.faults == old(library.faults) ||
               (library.failedWrites == old(library.failedWrites) && AllFeasible(old(library.st.view).profiles, library.platform))) &&
              SharedSource(old(library.st.view), config).Some? &&
              GoodConfig(old(library.st.view), nodeName, config) ==>
                && outcome == Applied
                && library.st.view == AfterGroups(Prepared(old(library.st.view), nodeName, config), nodeName, config.groups)
                && ConfigResult(old(library.st.view), nodeName, config, library.st.view)
                && ConfigServed(old(library.st.view), nodeName, config, library.st.view)
      // Whatever fails, profile pools keep their CPUs outside the groups and their profiles.
      ensures KeepsProfilePools(old(library.st.view), library.st.view, nodeName, AllCores(config.groups))
      ensures outcome == Applied || outcome == GroupErrors ==>
                sharedCPUs == CpuLists.Render(CpuLists.Sort(library.st.lists[InShared]))
    {
      ghost var v := library.st.view;
      KeepsNothing(v, nodeName);
      KeepsMore(v, v, nodeName, AllCores(config.groups));
      statuses, sharedCPUs := [], "";
      AcceptedIff(v, cluster, config);
      var valid := ValidateProfiles(config, cluster);
      if !valid {
        return Invalid, [], "";
      }
      var ok, errors;
      ghost var aborted, faults := false, library.faults;
      ok, statuses, errors, aborted := ConfigurePools(config);
      if !ok {
        return SharedFailed, [], "";
      }
      ReportSays(statuses, config.groups, aborted, errors, v, Exactly(v, faults, config));
      if GoodConfig(v, nodeName, config) {
        ConfigExact(v, nodeName, config);
        ResultServes(v, nodeName, config, AfterGroups(Prepared(v, nodeName, config), nodeName, config.groups));
        if library.faults == faults {
          NoneFails(statuses, v, cluster, config);
        }
      }
      sharedCPUs := CpuLists.PrettifyCoreList(library.st.lists[InShared]);
      outcome := if errors == 0 then Applied else GroupErrors;
    }

    /** The shared pool first, then the reserved pools. */
    method ConfigurePools(config: Config) returns (ok: bool, statuses: seq<Status>, errors: nat, ghost aborted: bool)
      requires library.Valid()
      modifies library`st, library`faults, library`failedWrites, library`exclusives, library.exclusives.arr
      ensures library.Valid() && old(library.faults) <= library.faults && old(library.failedWrites) <= library.failedWrites
      ensures library.exclusives.arr == old(library.exclusives.arr) || fresh(library.exclusives.arr)
      ensures library.faults == old(library.faults) || library.Excuse(old(library.failedWrites), old(library.st.view))
      ensures ok && errors == 0 ==> library.faults == old(library.faults)
      ensures ok ==> SharedSource(old(library.st.view), config).Some?
      ensures ok ==> Reported(statuses, config.groups, aborted, errors, old(library.st.view),
                              Exactly(old(library.st.view), old(library.faults), config))
      ensures library.faults == old(library.faults) && SharedSource(old(library.st.view), config).Some? ==> ok
      ensures library.faults == old(library.faults) && SharedSource(old(library.st.view), config).Some? &&
              AllKnown(old(library.st.view), config.groups) ==>
                !aborted && library.st.view == AfterGroups(Prepared(old(library.st.view), nodeName, config), nodeName, config.groups)
      ensures KeepsProfilePools(old(library.st.view), library.st.view, nodeName, AllCores(config.groups))
    {
      ghost var v, faults := library.st.view, library.faults;
      statuses, errors, aborted := [], 0, false;
      ok := ConfigureSharedPool(config);
      ghost var u := library.st.view;
      KeepsMore(v, u, nodeName, AllCores(config.groups));
      if !ok {
        return;
      }
      aborted, statuses, errors := ConfigureReservedPools(config);
      AfterSharing(v, u, library.st.view, config, statuses, aborted, errors, library.faults == faults);
    }

    /** What configuring the reserved pools has done and reported, seen from before the
        shared pool was configured. */
    lemma AfterSharing(v: View, u: View, w: View, config: Config, statuses: seq<Status>, aborted: bool, errors: nat, clean: bool)
      requires v.Ok() && u == AfterShared(v, SharedSource(v, config)) && KeepsProfilePools(v, u, nodeName, [])
      requires OnlyTouches(u, w, nodeName, AllCores(config.groups))
      requires Reported(statuses, config.groups, aborted, errors, u, clean && GoodConfig(u, nodeName, config))
      ensures KeepsProfilePools(v, w, nodeName, AllCores(config.groups))
      ensures Reported(statuses, config.groups, aborted, errors, v, clean && GoodConfig(v, nodeName, config))
    {
      if GoodConfig(v, nodeName, config) {
        SharedStaysGood(v, nodeName, config, SharedSource(v, config));
      }
      ReportAlike(statuses, config.groups, aborted, errors, u, v, clean && GoodConfig(u, nodeName, config),
                  clean && GoodConfig(v, nodeName, config));
      TouchesKeeps(u, w, nodeName, AllCores(config.groups));
      KeepsTransitive(v, u, w, nodeName, AllCores(config.groups));
    }

    /** Two reconciliations of one configuration, as after a restart: the second is
        accepted again and changes no CPU, pool or profile. */
    method ApplyTwice(config: Config, cluster: Cluster) returns (first: Outcome, second: Outcome, ghost between: View)
      requires library.Valid()
      modifies library`st, library`faults, library`failedWrites, library`exclusives, library.exclusives.arr
      ensures library.Valid()
      ensures library.failedWrites == old(library.failedWrites) && AllFeasible(old(library.st.view).profiles, library.platform) &&
              Accepts(old(library.st.view), cluster, config) && SharedSource(old(library.st.view), config).Some? &&
              GoodConfig(old(library.st.view), nodeName, config) ==>
                && first == Applied && second == Applied
                && ConfigResult(old(library.st.view), nodeName, config, between)
                && library.st.view == between
    {
      ghost var v := library.st.view;
      var statuses, sharedCPUs;
      first, statuses, sharedCPUs := ApplyPowerNodeConfig(config, cluster);
      between := library.st.view;
      if SharedSource(v, config).Some? && GoodConfig(v, nodeName, config) {
        ConfigTwice(v, nodeName, config);
        if ConfigResult(v, nodeName, config, between) && AllFeasible(v.profiles, library.platform) {
          ResultFeasible(v, nodeName, config, between, library.platform);
          StillAccepted(v, nodeName, config, between, cluster);
        }
      }
      second, statuses, sharedCPUs := ApplyPowerNodeConfig(config, cluster);
    }
  }
}
