/** controllers/powerprofile_controller.go: propagating a created or updated profile
    to the pools that use it, and what a deleted one leaves. */
module Profiles {
  import opened Text
  import opened Settings
  import opened Views
  import opened Pools
  import opened NodeConfigViews

  /** The pool carries some version of the named profile. */
  predicate Carries(v: View, pool: Home, name: string) {
    pool in v.profiles && v.profiles[pool].Some? && v.profiles[pool].value.name == name
  }

  predicate SpecialReserved(node: string, pool: Home) {
    pool.InPool? && Contains(pool.name, node + "-reserved-")
  }

  /** The pools an update of the profile is meant to reach. */
  predicate Affected(v: View, node: string, name: string, pool: Home) {
    pool in v.profiles && (pool == InPool(name) || (Carries(v, pool, name) && (pool == InShared || SpecialReserved(node, pool))))
  }

  /** The profile is now carried by the given pools; nobody moved. */
  function Carrying(v: View, pools: set<Home>, p: Profile): (r: View) {
    v.(profiles := map h | h in v.profiles :: if h in pools then Some(p) else v.profiles[h])
  }

  function FanOut(v: View, node: string, name: string): (r: set<Home>) {
    set h | h in v.profiles && Affected(v, node, name, h)
  }

  /** No affected pool carries another version of the profile. */
  ghost predicate UpToDate(v: View, node: string, p: Profile) {
    forall h | h in v.profiles && Affected(v, node, p.name, h) :: v.profiles[h] == Some(p)
  }

  lemma CarryOneMore(v: View, pools: set<Home>, p: Profile, pool: Home)
    requires pool in v.profiles
    ensures Carrying(v, pools, p).SetProfile(pool, Some(p)) == Carrying(v, pools + {pool}, p)
  {
    assert Carrying(v, pools, p).profiles[pool := Some(p)] == Carrying(v, pools + {pool}, p).profiles;
  }

  /** Updating an existing pool's profile leaves no old version behind. */
  lemma UpdateReachesAll(v: View, node: string, p: Profile)
    ensures UpToDate(Carrying(v, FanOut(v, node, p.name), p), node, p)
  {
  }

  /** The shared pool or a special reserved pool carries another version. */
  predicate Leftover(v: View, node: string, p: Profile) {
    exists h | h in v.profiles ::
      Carries(v, h, p.name) && (h == InShared || SpecialReserved(node, h)) && v.profiles[h] != Some(p)
  }

  /** Creating the pool leaves an old version behind exactly if the shared pool or a
      special reserved pool still carries one, from an earlier life of the profile. */
  lemma CreateReachesAllIff(v: View, node: string, p: Profile)
    requires InPool(p.name) !in v.profiles
    ensures UpToDate(v.SetProfile(InPool(p.name), Some(p)), node, p) <==> !Leftover(v, node, p)
  {
    var w := v.SetProfile(InPool(p.name), Some(p));
    assert forall h | h in v.profiles :: w.profiles[h] == v.profiles[h];
    assert forall h | h in v.profiles :: Affected(w, node, p.name, h) <==> Affected(v, node, p.name, h);
  }

  /** What creating or updating the profile makes of the pools. */
  function Propagated(v: View, node: string, p: Profile): (r: View) {
    if InPool(p.name) in v.profiles then Carrying(v, FanOut(v, node, p.name), p) else v.SetProfile(InPool(p.name), Some(p))
  }

  /** What deleting the profile makes of the pools: its own pool goes if the shared pool
      carries it, and shared loses it. Otherwise all pools stay, its own included. */
  function Deleted(v: View, name: string): (r: View) {
    if !Carries(v, InShared, name) then v
    else
      var w := v.SetProfile(InShared, None);
      if InPool(name) in v.profiles then w.SetMembers([], InPool(name)).Drop(InPool(name)) else w
  }

  /** What that comes to, pool by pool: an update reaches the profile's own pool, and of the
      pools that carry it shared and those with the node's reserved text in their name. */
  lemma PropagatedMeans(v: View, node: string, p: Profile)
    ensures Propagated(v, node, p).homes == v.homes
    ensures InPool(p.name) in v.profiles ==>
              && Propagated(v, node, p).profiles.Keys == v.profiles.Keys
              && forall h | h in v.profiles ::
                   Propagated(v, node, p).profiles[h] ==
                   if h == InPool(p.name) then Some(p)
                   else if v.profiles[h].Some? && v.profiles[h].value.name == p.name
                           && (h == InShared || (h.InPool? && exists i: nat :: StandsAt(h.name, node + "-reserved-", i))) then Some(p)
                   else v.profiles[h]
    ensures InPool(p.name) !in v.profiles ==> Propagated(v, node, p).profiles == v.profiles[InPool(p.name) := Some(p)]
  {
    forall h | h in v.profiles && h.InPool? {
      ContainsMeans(h.name, node + "-reserved-");
    }
  }

  /** And a deletion: only a profile that the shared pool carries goes, with its pool, whose
      CPUs join the shared pool. */
  lemma DeletedMeans(v: View, name: string)
    requires v.Ok()
    ensures var w := Deleted(v, name);
            if v.profiles[InShared].Some? && v.profiles[InShared].value.name == name
            then
              && w.profiles == v.profiles[InShared := None] - {InPool(name)}
              && |w.homes| == |v.homes|
              && forall id: nat | id < |v.homes| :: w.homes[id] == if v.homes[id] == InPool(name) then InShared else v.homes[id]
            else w == v
  {
  }

  /** Profile pools carry the profile they are named after, as the controllers create them. */
  ghost predicate Namesakes(v: View, node: string) {
    forall h | h in v.profiles && IsProfilePool(node, h) && v.profiles[h].Some? :: v.profiles[h].value.name == h.name
  }

  /** A group of the configuration names the profile. */
  ghost predicate GroupNames(c: Config, name: string) {
    exists k: nat :: k < |c.groups| && c.groups[k].profile == name
  }

  /** A configuration has been applied; then a profile is deleted and created again with
      another content. Exactly when an old version is left behind: when the profile is
      the shared one, and a reserved group uses it as well. That group's pool is not
      touched by the deletion, nor reached by the creation. */
  lemma RecreatedProfileIsStaleIff(v: View, node: string, c: Config, before: Profile, after: Profile)
    requires v.Ok() && GoodConfig(v, node, c) && SharedSource(v, c).Some? && Namesakes(v, node)
    requires before.name == after.name && before.name != "" && before != after && !IsPseudo(node, InPool(after.name))
    requires InPool(after.name) in v.profiles && v.profiles[InPool(after.name)] == Some(before)
    ensures var w := AfterGroups(Prepared(v, node, c), node, c.groups);
            UpToDate(Propagated(Deleted(w, after.name), node, after), node, after) <==>
            !(c.sharedProfile == after.name && GroupNames(c, after.name))
  {
    ConfigExact(v, node, c);
    StaleAfterResult(v, node, c, AfterGroups(Prepared(v, node, c), node, c.groups), before, after);
  }

  lemma StaleAfterResult(v: View, node: string, c: Config, w: View, before: Profile, after: Profile)
    requires v.Ok() && GoodConfig(v, node, c) && ConfigResult(v, node, c, w) && Namesakes(v, node)
    requires before.name == after.name && before.name != "" && before != after && !IsPseudo(node, InPool(after.name))
    requires InPool(after.name) in v.profiles && v.profiles[InPool(after.name)] == Some(before)
    ensures UpToDate(Propagated(Deleted(w, after.name), node, after), node, after) <==>
            !(c.sharedProfile == after.name && GroupNames(c, after.name))
  {
    var name, d := after.name, Deleted(w, after.name);
    SameProfilePool(v, node, c, w, InPool(name));
    SharedCarries(v, node, c, w, name);
    if Carries(w, InShared, name) {
      CreateReachesAllIff(d, node, after);
      LeftoverIff(v, node, c, w, before, after);
    } else {
      UpdateReachesAll(w, node, after);
      assert InPool(name) in w.profiles;
      CarryingKeepsNames(w, node, after);
    }
  }

  /** After a fan-out the affected pools are the same ones. */
  lemma CarryingKeepsNames(v: View, node: string, p: Profile)
    ensures forall h | h in v.profiles :: Affected(Carrying(v, FanOut(v, node, p.name), p), node, p.name, h) <==> Affected(v, node, p.name, h)
  {
  }

  lemma SharedCarries(v: View, node: string, c: Config, w: View, name: string)
    requires ConfigResult(v, node, c, w) && Namesakes(v, node) && !IsPseudo(node, InPool(c.sharedProfile))
    ensures Carries(w, InShared, name) <==> c.sharedProfile == name && SharedSource(v, c).Some?
  {
  }

  /** After the deletion a special reserved pool still carries the profile exactly if a
      group names it. */
  lemma LeftoverIff(v: View, node: string, c: Config, w: View, before: Profile, after: Profile)
    requires v.Ok() && GoodConfig(v, node, c) && ConfigResult(v, node, c, w) && Namesakes(v, node)
    requires before.name == after.name && before.name != "" && before != after && !IsPseudo(node, InPool(after.name))
    requires InPool(after.name) in v.profiles && v.profiles[InPool(after.name)] == Some(before)
    requires Carries(w, InShared, after.name)
    ensures InPool(after.name) !in Deleted(w, after.name).profiles
    ensures Leftover(Deleted(w, after.name), node, after) <==> GroupNames(c, after.name)
  {
    var name, d := after.name, Deleted(w, after.name);
    SameProfilePool(v, node, c, w, InPool(name));
    if k: nat :| k < |c.groups| && c.groups[k].profile == name {
      GroupKeeps(v, node, c, w, k, before);
      var own := Own(node, c.groups[k]);
      assert d.profiles[own] == Some(before) && Carries(d, own, name);
    }
    if h :| h in d.profiles && Carries(d, h, name) && (h == InShared || SpecialReserved(node, h)) && d.profiles[h] != Some(after) {
      OnlyGroupsCarry(v, node, c, w, name, h);
    }
  }

  /** The pool of a group that names the profile carries it and is a special one. */
  lemma GroupKeeps(v: View, node: string, c: Config, w: View, k: nat, p: Profile)
    requires ConfigResult(v, node, c, w) && k < |c.groups| && c.groups[k].profile == p.name && p.name != ""
    requires InPool(p.name) in v.profiles && v.profiles[InPool(p.name)] == Some(p) && !IsPseudo(node, InPool(p.name))
    ensures var own := Own(node, c.groups[k]);
            own in w.profiles && w.profiles[own] == Some(p) && SpecialReserved(node, own) && own != InPool(p.name)
  {
    var own := Own(node, c.groups[k]);
    OwnIsPseudo(node, c.groups[k]);
    PrefixIsContained(own.name, Prefix(node));
    assert OwnPool(v, node, c.groups, k, own);
  }

  /** Beyond the shared pool and its own, a profile is carried by groups' pools only. */
  lemma OnlyGroupsCarry(v: View, node: string, c: Config, w: View, name: string, h: Home)
    requires GoodConfig(v, node, c) && ConfigResult(v, node, c, w) && Namesakes(v, node)
    requires Carries(w, h, name) && h.InPool? && h != InPool(name)
    ensures GroupNames(c, name)
  {
    if !(h in v.profiles && !IsPseudo(node, h)) {
      var k: nat :| OwnPool(v, node, c.groups, k, h);
      assert IsProfilePool(node, InPool(c.groups[k].profile));
      assert c.groups[k].profile == name;
    }
  }

  lemma PrefixIsContained(s: string, prefix: string)
    requires HasPrefix(s, prefix)
    ensures Contains(s, prefix)
  {
    assert s[0..|prefix|] == prefix;
  }

  /** What an update would reach if special pools were told by the prefix of their name. */
  function FanOutByPrefix(v: View, node: string, name: string): (r: set<Home>) {
    set h | h in v.profiles && (h == InPool(name) || (Carries(v, h, name) && (h == InShared || IsPseudo(node, h))))
  }

  /** The code looks for the text anywhere in the name. Exactly when that reaches more
      pools: when a pool named otherwise contains the text and carries the profile. It
      never does while such pools carry the profile they are named after, which is how
      the controllers create them. */
  lemma ContainsReachesSameIff(v: View, node: string, name: string)
    ensures FanOutByPrefix(v, node, name) <= FanOut(v, node, name)
    ensures FanOut(v, node, name) == FanOutByPrefix(v, node, name) <==>
            !exists h | h in v.profiles :: SpecialReserved(node, h) && !IsPseudo(node, h) && h != InPool(name) && Carries(v, h, name)
    ensures (forall h | h in v.profiles && h.InPool? && !IsPseudo(node, h) && v.profiles[h].Some? :: v.profiles[h].value.name == h.name)
            ==> FanOut(v, node, name) == FanOutByPrefix(v, node, name)
  {
    forall h | h in v.profiles && IsPseudo(node, h)
      ensures SpecialReserved(node, h)
    {
      PrefixIsContained(h.name, Prefix(node));
    }
    if h :| h in v.profiles && SpecialReserved(node, h) && !IsPseudo(node, h) && h != InPool(name) && Carries(v, h, name) {
      assert h in FanOut(v, node, name) && h !in FanOutByPrefix(v, node, name);
    }
  }

  /** Such pools exist: one named with another character before the node's name, and
      carrying a profile it is not named after. */
  lemma ContainsCanReachMore(v: View, node: string, first: char, rest: string, p: Profile)
    requires node != "" && first != node[0]
    requires [first] + Prefix(node) + rest != p.name
    ensures var w := v.SetProfile(InPool([first] + Prefix(node) + rest), Some(p));
            InPool([first] + Prefix(node) + rest) in FanOut(w, node, p.name) - FanOutByPrefix(w, node, p.name)
  {
    var name := [first] + Prefix(node) + rest;
    assert name[1..] == Prefix(node) + rest && HasPrefix(name[1..], Prefix(node));
    DifferentStart(name, Prefix(node));
    assert SpecialReserved(node, InPool(name)) && !IsPseudo(node, InPool(name));
  }

  lemma DifferentStart(s: string, prefix: string)
    requires s != [] && prefix != [] && s[0] != prefix[0]
    ensures !HasPrefix(s, prefix)
  {
    if |prefix| <= |s| {
      assert s[..|prefix|][0] == s[0];
    }
  }

  /** The special reserved pools among the names that use the profile. */
  function SpecialUsers(v: View, node: string, name: string, names: seq<string>): (r: set<Home>) {
    set n | n in names && SpecialReserved(node, InPool(n)) && Carries(v, InPool(n), name) :: InPool(n)
  }

  lemma SpecialOneMore(v: View, node: string, name: string, names: seq<string>, i: nat)
    requires i < |names|
    ensures SpecialUsers(v, node, name, names[..i + 1]) ==
            SpecialUsers(v, node, name, names[..i]) +
            if SpecialReserved(node, InPool(names[i])) && Carries(v, InPool(names[i]), name) then {InPool(names[i])} else {}
  {
    assert forall n :: n in names[..i + 1] <==> n in names[..i] || n == names[i];
  }

  lemma ReachedOneMore(v: View, node: string, name: string, names: seq<string>, i: nat, start: set<Home>)
    requires i < |names|
    ensures start + SpecialUsers(v, node, name, names[..i + 1]) ==
            start + SpecialUsers(v, node, name, names[..i]) +
            if SpecialReserved(node, InPool(names[i])) && Carries(v, InPool(names[i]), name) then {InPool(names[i])} else {}
  {
    SpecialOneMore(v, node, name, names, i);
  }

  lemma AllUsers(v: View, node: string, name: string, names: seq<string>)
    requires InPool(name) in v.profiles && InShared in v.profiles && Registered(names, v)
    ensures FanOut(v, node, name) ==
            {InPool(name)} + (if Carries(v, InShared, name) then {InShared} else {}) + SpecialUsers(v, node, name, names)
  {
  }

  class PowerProfileReconciler {
    const library: Host
    const nodeName: string

    constructor (library: Host, nodeName: string)
      ensures this.library == library && this.nodeName == nodeName
    {
      this.library, this.nodeName := library, nodeName;
    }

    /** Every CPU of the pool is set as the profile prescribes. */
    ghost predicate Applied(pool: Home, p: Profile)
      requires library.Valid()
      reads library, library.exclusives.arr
    {
      forall id | 0 <= id < |library.st.regs| && library.st.view.homes[id] == pool ::
        Settled(library.st.regs[id], library.platform.cpus[id], library.platform, Some(p))
    }

    /** SetPowerProfile, as this controller relies on it: it re-applies the profile
        to the whole pool and leaves the CPUs of other pools as they are. */
    method SetAndApply(pool: Home, p: Profile, ghost others: set<Home>) returns (ok: bool)
      requires library.Valid() && pool in library.st.lists && pool != InReserved
      requires forall h | h in others :: Applied(h, p)
      modifies library`st, library`faults, library`failedWrites
      ensures library.Valid() && old(library.faults) <= library.faults
      ensures library.st.view == old(library.st.view).SetProfile(pool, Some(p))
      ensures ok <==> library.faults == old(library.faults)
      ensures ok ==> Applied(pool, p) && forall h | h in others :: Applied(h, p)
      ensures old(library.failedWrites) <= library.failedWrites
      ensures ok || old(library.failedWrites) < library.failedWrites || !FeasibleEverywhere(library.platform, Some(p))
    {
      ok := library.SetPowerProfile(pool, Some(p));
    }

    /** The create/update branch of Reconcile, once the profile has been accepted. */
    method Propagate(p: Profile) returns (ok: bool)
      requires library.Valid()
      modifies library`st, library`faults, library`failedWrites, library`exclusives, library.exclusives.arr
      ensures library.Valid() && old(library.faults) <= library.faults
      ensures library.st.view.homes == old(library.st.view).homes
      ensures ok <==> library.faults == old(library.faults)
      ensures ok ==> library.st.view == Propagated(old(library.st.view), nodeName, p)
      ensures ok ==> (UpToDate(library.st.view, nodeName, p) <==>
                        InPool(p.name) in old(library.st.view).profiles || !Leftover(old(library.st.view), nodeName, p))
      ensures ok ==> Applied(InPool(p.name), p)
      ensures ok && InPool(p.name) in old(library.st.view).profiles ==>
                forall h | h in FanOut(old(library.st.view), nodeName, p.name) :: Applied(h, p)
      ensures old(library.failedWrites) <= library.failedWrites
      ensures ok || old(library.failedWrites) < library.failedWrites || !FeasibleEverywhere(library.platform, Some(p))
    {
      ghost var v := library.st.view;
      var profileFromLibrary := library.GetExclusivePool(p.name);
      if profileFromLibrary.None? {
        ok := library.AddExclusivePool(p.name);
        ok := SetAndApply(InPool(p.name), p, {});
        assert library.st.view.profiles == v.profiles[InPool(p.name) := Some(p)];
        CreateReachesAllIff(v, nodeName, p);
        return;
      }
      ok := PropagateToUsers(p);
      UpdateReachesAll(v, nodeName, p);
    }

    /** handleProfileDeletion, up to extended resources and the status. A failed removal is
        not made up for: once shared has lost the profile, the retry takes the other
        branch. */
    method HandleProfileDeletion(name: string) returns (ok: bool)
      requires library.Valid()
      modifies library`st, library`faults, library`failedWrites, library`exclusives, library.exclusives.arr
      ensures library.Valid() && old(library.faults) <= library.faults && old(library.failedWrites) <= library.failedWrites
      ensures library.exclusives.arr == old(library.exclusives.arr)
      ensures library.faults == old(library.faults) ==>
                && library.st.view == Deleted(old(library.st.view), name)
                && (ok <==> (Carries(old(library.st.view), InShared, name) ==> InPool(name) in old(library.st.view).profiles))
      ensures ok ==> library.faults == old(library.faults)
      ensures library.faults == old(library.faults) || library.Excuse(old(library.failedWrites), old(library.st.view))
    {
      ghost var v := library.st.view;
      var shared := library.st.view.profiles[InShared];
      if shared.None? || shared.value.name != name {
        return true;
      }
      NoneFeasible(v, library.platform, InShared);
      ok := library.SetPowerProfile(InShared, None);
      if !ok {
        return;
      }
      var pool := library.GetExclusivePool(name);
      if pool.None? {
        return false;
      }
      ghost var done, index;
      ok, done, index := library.RemovePool(pool.value);
    }

    /** The update branch: the profile's own pool, the shared pool if it uses the
        profile, then every special reserved pool that does. */
    method PropagateToUsers(p: Profile) returns (ok: bool)
      requires library.Valid() && InPool(p.name) in library.st.view.profiles
      modifies library`st, library`faults, library`failedWrites
      ensures library.Valid() && old(library.faults) <= library.faults
      ensures library.st.view.homes == old(library.st.view).homes
      ensures ok <==> library.faults == old(library.faults)
      ensures ok ==> library.st.view == Carrying(old(library.st.view), FanOut(old(library.st.view), nodeName, p.name), p)
      ensures ok ==> forall h | h in FanOut(old(library.st.view), nodeName, p.name) :: Applied(h, p)
      ensures old(library.failedWrites) <= library.failedWrites
      ensures ok || old(library.failedWrites) < library.failedWrites || !FeasibleEverywhere(library.platform, Some(p))
    {
      ghost var v := library.st.view;
      assert Carrying(v, {}, p).profiles == v.profiles;
      ok := UpdateOne(p, v, {}, InPool(p.name));
      if !ok {
        return;
      }
      ok := UpdateShared(p, v);
      if !ok {
        return;
      }
      ok := PropagateToSpecial(p, v, {InPool(p.name)} + if Carries(v, InShared, p.name) then {InShared} else {});
    }

    /** The given pools carry the profile and have it applied; all else is as in v. */
    ghost predicate Reached(p: Profile, v: View, pools: set<Home>)
      requires library.Valid()
      reads library, library.exclusives.arr
    {
      library.st.view == Carrying(v, pools, p) && forall h | h in pools :: Applied(h, p)
    }

    /** One more pool. */
    method UpdateOne(p: Profile, ghost v: View, ghost reached: set<Home>, pool: Home) returns (ok: bool)
      requires library.Valid() && pool in library.st.lists && pool != InReserved && Reached(p, v, reached)
      modifies library`st, library`faults, library`failedWrites
      ensures library.Valid() && old(library.faults) <= library.faults
      ensures library.st.view.homes == v.homes
      ensures ok <==> library.faults == old(library.faults)
      ensures ok ==> Reached(p, v, reached + {pool})
      ensures old(library.failedWrites) <= library.failedWrites
      ensures ok || old(library.failedWrites) < library.failedWrites || !FeasibleEverywhere(library.platform, Some(p))
    {
      CarryOneMore(v, reached, p, pool);
      ok := SetAndApply(pool, p, reached);
    }

    /** The shared pool, if it uses the profile. */
    method UpdateShared(p: Profile, ghost v: View) returns (ok: bool)
      requires library.Valid() && InPool(p.name) in v.profiles && Reached(p, v, {InPool(p.name)})
      modifies library`st, library`faults, library`failedWrites
      ensures library.Valid() && old(library.faults) <= library.faults
      ensures library.st.view.homes == v.homes
      ensures ok <==> library.faults == old(library.faults)
      ensures ok ==> Reached(p, v, {InPool(p.name)} + if Carries(v, InShared, p.name) then {InShared} else {})
      ensures old(library.failedWrites) <= library.failedWrites
      ensures ok || old(library.failedWrites) < library.failedWrites || !FeasibleEverywhere(library.platform, Some(p))
    {
      ok := true;
      var sharedProfile := library.st.view.profiles[InShared];
      if sharedProfile.Some? && sharedProfile.value.name == p.name {
        ok := UpdateOne(p, v, {InPool(p.name)}, InShared);
      }
    }

    method PropagateToSpecial(p: Profile, ghost v: View, ghost start: set<Home>) returns (ok: bool)
      requires library.Valid() && InPool(p.name) in v.profiles
      requires start == {InPool(p.name)} + if Carries(v, InShared, p.name) then {InShared} else {}
      requires Reached(p, v, start)
      modifies library`st, library`faults, library`failedWrites
      ensures library.Valid() && old(library.faults) <= library.faults
      ensures library.st.view.homes == v.homes
      ensures ok <==> library.faults == old(library.faults)
      ensures ok ==> library.st.view == Carrying(v, FanOut(v, nodeName, p.name), p)
      ensures ok ==> forall h | h in FanOut(v, nodeName, p.name) :: Applied(h, p)
      ensures old(library.failedWrites) <= library.failedWrites
      ensures ok || old(library.failedWrites) < library.failedWrites || !FeasibleEverywhere(library.platform, Some(p))
    {
      ghost var names := library.exclusives.Elems();
      assert SpecialUsers(v, nodeName, p.name, names[..0]) == {} && start + {} == start;
      for i := 0 to library.exclusives.len
        invariant library.Valid() && library.faults == old(library.faults) && old(library.failedWrites) <= library.failedWrites
        invariant Reached(p, v, start + SpecialUsers(v, nodeName, p.name, names[..i]))
      {
        assert names[i] in names && library.exclusives.arr[i] == names[i];
        ReachedOneMore(v, nodeName, p.name, names, i, start);
        ok := UpdateSpecial(p, v, start + SpecialUsers(v, nodeName, p.name, names[..i]), library.exclusives.arr[i]);
        if !ok {
          return;
        }
      }
      assert names[..library.exclusives.len] == names;
      AllUsers(v, nodeName, p.name, names);
      return true;
    }

    /** One pool of the host's slice: updated if it is special and uses the profile. */
    method UpdateSpecial(p: Profile, ghost v: View, ghost reached: set<Home>, name: string) returns (ok: bool)
      requires library.Valid() && InPool(name) in library.st.lists && Reached(p, v, reached)
      modifies library`st, library`faults, library`failedWrites
      ensures library.Valid() && old(library.faults) <= library.faults
      ensures library.st.view.homes == v.homes
      ensures ok <==> library.faults == old(library.faults)
      ensures ok ==> Reached(p, v, reached + if SpecialReserved(nodeName, InPool(name)) && Carries(v, InPool(name), p.name)
                                             then {InPool(name)} else {})
      ensures old(library.failedWrites) <= library.failedWrites
      ensures ok || old(library.failedWrites) < library.failedWrites || !FeasibleEverywhere(library.platform, Some(p))
    {
      ghost var pool := InPool(name);
      var current := library.st.view.profiles[InPool(name)];
      if Contains(name, nodeName + "-reserved-") && current.Some? && current.value.name == p.name {
        ok := UpdateOne(p, v, reached, InPool(name));
        assert pool in reached ==> reached + {pool} == reached;
      } else {
        ok := true;
        assert reached + {} == reached;
      }
    }
  }
}
