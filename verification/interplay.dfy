/** What the controllers of one node do to each other's pools. They share the host and
    know nothing of each other: applying a configuration does not look at the record of
    pods, deleting a pod does not look at the configuration, and creating a profile does
    not look at the pools of a configuration that is gone. */
module Interplay {
  import opened Text
  import opened Settings
  import opened Views
  import opened NodeConfigViews
  import NodeConfig
  import opened Profiles
  import opened Pods

  // ---- configurations and pods

  /** A CPU recorded for a pod, in one of the given pools, is in a reserved group. */
  ghost predicate TakenFromPod(r: Record, groups: seq<Group>, pools: set<string>, uid: string, id: nat) {
    OnRecord(r, uid, pools, id) && !Ungrouped(groups, |groups|, id)
  }

  ghost predicate PoolsAreProfiles(pools: set<string>, node: string) {
    forall n | n in pools :: !IsPseudo(node, InPool(n))
  }

  /** A recorded CPU stays in its profile's pool exactly if no group names it. */
  lemma RecordedStaysIff(s: PodState, node: string, c: Config, w: View, pools: set<string>, uid: string, k: nat, id: nat)
    requires Held(s, pools) && PoolsAreProfiles(pools, node) && ConfigResult(s.view, node, c, w)
    requires Owns(s.recorded, uid, k, id) && Counts(s.recorded[uid][k], pools) && id < |s.view.homes|
    ensures w.homes[id] == InPool(s.recorded[uid][k].profile) <==> !TakenFromPod(s.recorded, c.groups, pools, uid, id)
  {
    assert OnRecord(s.recorded, uid, pools, id);
    if g: nat :| InGroup(c.groups, g, id) {
      OwnIsPseudo(node, c.groups[g]);
      assert w.homes[id] == GroupHome(s.view, node, c.groups[g]);
    }
  }

  /** Applying a configuration puts no CPU in a profile pool. */
  lemma ConfigAddsNoStray(s: PodState, node: string, c: Config, w: View, pools: set<string>, id: nat)
    requires PoolsAreProfiles(pools, node) && ConfigResult(s.view, node, c, w)
    ensures IsStray(PodState(w, s.recorded), pools, id) <==> IsStray(s, pools, id) && Ungrouped(c.groups, |c.groups|, id)
  {
    if g: nat :| InGroup(c.groups, g, id) {
      OwnIsPseudo(node, c.groups[g]);
      assert id < |w.homes| ==> w.homes[id] == GroupHome(s.view, node, c.groups[g]);
    }
  }

  /** A configuration takes CPUs from live pods without a word. Every pool holds exactly
      what is on record afterwards exactly if no recorded CPU is in a reserved group. */
  lemma AccountedAfterConfigIff(s: PodState, node: string, c: Config, w: View, pools: set<string>)
    requires Accounted(s, pools) && PoolsAreProfiles(pools, node) && ConfigResult(s.view, node, c, w)
    ensures Accounted(PodState(w, s.recorded), pools) <==>
            !exists uid, id: nat :: id < |s.view.homes| && TakenFromPod(s.recorded, c.groups, pools, uid, id)
  {
    var t := PodState(w, s.recorded);
    forall id: nat
      ensures !IsStray(t, pools, id)
    {
      ConfigAddsNoStray(s, node, c, w, pools, id);
    }
    forall uid, k: nat, id: nat | Owns(s.recorded, uid, k, id) && Counts(s.recorded[uid][k], pools) && id < |s.view.homes|
      ensures w.homes[id] == InPool(s.recorded[uid][k].profile) <==> !TakenFromPod(s.recorded, c.groups, pools, uid, id)
    {
      RecordedStaysIff(s, node, c, w, pools, uid, k, id);
    }
    forall n | n in pools
      ensures InPool(n) in w.profiles
    {
      assert InPool(n) in s.view.profiles;
    }
    if uid, id: nat :| id < |s.view.homes| && TakenFromPod(s.recorded, c.groups, pools, uid, id) {
      var k: nat :| Uses(s.recorded[uid], k, id) && Counts(s.recorded[uid][k], pools);
      assert Owns(t.recorded, uid, k, id);
    }
  }

  /** Each CPU of the groups is where the configuration, applied to v, put it. */
  ghost predicate GroupsInPlace(v: View, node: string, c: Config, homes: seq<Home>) {
    forall k: nat, id: nat | InGroup(c.groups, k, id) && id < |homes| :: homes[id] == GroupHome(v, node, c.groups[k])
  }

  /** When a pod that has lost CPUs to a group is deleted, these go to the shared pool:
      the deletion leaves the groups in place exactly if none of the pod's CPUs is in one. */
  lemma DeletionKeepsGroupsIff(v: View, node: string, c: Config, s: PodState, uid: string)
    requires GroupsInPlace(v, node, c, s.view.homes) && uid in s.recorded
    ensures GroupsInPlace(v, node, c, After(s, Delete(uid)).view.homes) <==>
            !exists k: nat, id: nat :: InGroup(c.groups, k, id) && id < |s.view.homes| && UsesAny(s.recorded[uid], id)
  {
    var cs, w := s.recorded[uid], s.view;
    var homes := After(s, Delete(uid)).view.homes;
    ReleasedHomes(w, cs, |cs|);
    assert cs[..|cs|] == cs;
    forall id: nat | id < |w.homes|
      ensures homes[id] == if UsesAny(cs, id) then InShared else w.homes[id]
    {
      if l: nat :| Uses(cs, l, id) {
        assert UsesAny(cs, id);
      }
    }
    if k: nat, id: nat :| InGroup(c.groups, k, id) && id < |w.homes| && UsesAny(cs, id) {
      assert homes[id] == InShared && GroupHome(v, node, c.groups[k]) != InShared;
    }
  }

  // ---- configurations and profiles

  /** The shared profile exists and is marked shared, as admission asks, but its selector
      does not match the node. */
  predicate NotForThisNode(c: Config, cluster: Cluster) {
    c.sharedProfile != "" && c.sharedProfile in cluster && cluster[c.sharedProfile].shared && !cluster[c.sharedProfile].matchesNode
  }

  /** How a profile can be deleted although admission forbids that while a configuration
      names it: the configuration is replaced by one that does not, and that this node does
      not accept, so its pools stay as they are. Only the latter matters for how the run
      ends. Created again with another content, the profile leaves an old version behind
      exactly if it was the shared one and a reserved group used it too. */
  method ReplaceDeleteRecreate(n: NodeConfig.PowerNodeConfigReconciler, p: PowerProfileReconciler, first: Config, second: Config,
                               cluster: Cluster, before: Profile, after: Profile)
    returns (applied: NodeConfig.Outcome, rejected: NodeConfig.Outcome)
    requires n.library.Valid() && p.library == n.library && p.nodeName == n.nodeName
    requires Accepts(n.library.st.view, cluster, first) && GoodConfig(n.library.st.view, n.nodeName, first)
    requires SharedSource(n.library.st.view, first).Some? && Namesakes(n.library.st.view, n.nodeName)
    requires NotForThisNode(second, cluster)
    requires before.name == after.name && before.name != "" && before != after && !IsPseudo(n.nodeName, InPool(after.name))
    requires InPool(after.name) in n.library.st.view.profiles && n.library.st.view.profiles[InPool(after.name)] == Some(before)
    modifies n.library`st, n.library`faults, n.library`failedWrites, n.library`exclusives, n.library.exclusives.arr
    ensures n.library.Valid()
    ensures n.library.failedWrites == old(n.library.failedWrites) && FeasibleEverywhere(n.library.platform, Some(after)) &&
            AllFeasible(old(n.library.st.view).profiles, n.library.platform) ==>
              && applied == NodeConfig.Applied && rejected == NodeConfig.Invalid
              && (UpToDate(n.library.st.view, n.nodeName, after) <==>
                    !(first.sharedProfile == after.name && GroupNames(first, after.name)))
  {
    ghost var v := n.library.st.view;
    var statuses, sharedCPUs, ok;
    applied, statuses, sharedCPUs := n.ApplyPowerNodeConfig(first, cluster);
    ghost var w := n.library.st.view;
    if ConfigResult(v, n.nodeName, first, w) {
      StaleAfterResult(v, n.nodeName, first, w, before, after);
      if AllFeasible(v.profiles, n.library.platform) {
        ResultFeasible(v, n.nodeName, first, w, n.library.platform);
      }
    }
    rejected, statuses, sharedCPUs := n.ApplyPowerNodeConfig(second, cluster);
    ok := p.HandleProfileDeletion(after.name);
    ok := p.Propagate(after);
  }
}
