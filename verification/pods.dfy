/** controllers/powerpod_controller.go: moving the exclusive CPUs of pods in and out
    of profile pools, and the record of them kept in the node state. */
module Pods {
  import opened Views
  import opened Pools

  /** A container's entry in the node state: its profile, its CPUs, and whether it
      carries an error from before the pools are looked at. */
  datatype Container = Container(profile: string, cpus: seq<nat>, failed: bool)

  type Record = map<string, seq<Container>>

  // ---- what the controller does, on views

  /** Containers with an error are passed over, and so are those whose profile has no
      pool. They are recorded like the others. */
  predicate Takes(v: View, c: Container) {
    !c.failed && InPool(c.profile) in v.profiles
  }

  /** The CPUs of each container that is not passed over are in its profile's pool. */
  function Placed(v: View, cs: seq<Container>): (w: View)
    ensures |w.homes| == |v.homes| && w.profiles == v.profiles
  {
    if cs == [] then v
    else
      var w, last := Placed(v, cs[..|cs| - 1]), cs[|cs| - 1];
      if Takes(v, last) then w.Move(last.cpus, InPool(last.profile)) else w
  }

  /** Each container's CPUs are shared again. */
  function Released(v: View, cs: seq<Container>): (w: View)
    ensures |w.homes| == |v.homes| && w.profiles == v.profiles
  {
    if cs == [] then v
    else Released(v, cs[..|cs| - 1]).Move(cs[|cs| - 1].cpus, InShared)
  }

  ghost predicate Uses(cs: seq<Container>, k: nat, id: nat) {
    k < |cs| && id in cs[k].cpus
  }

  /** No CPU belongs to two of the containers. */
  ghost predicate Disjoint(cs: seq<Container>) {
    forall k: nat, l: nat, id: nat | Uses(cs, k, id) && Uses(cs, l, id) :: k == l
  }

  ghost predicate UsesAny(cs: seq<Container>, id: nat) {
    exists k: nat :: Uses(cs, k, id)
  }

  /** One of the first n containers that is not passed over uses the CPU. */
  ghost predicate TakenBy(v: View, cs: seq<Container>, n: nat, id: nat) {
    exists k: nat :: k < n && Uses(cs, k, id) && Takes(v, cs[k])
  }

  lemma {:induction false} PlacedHomes(v: View, cs: seq<Container>, n: nat)
    requires n <= |cs| && Disjoint(cs)
    ensures forall k: nat, id: nat | k < n && Uses(cs, k, id) && Takes(v, cs[k]) && id < |v.homes| ::
              Placed(v, cs[..n]).homes[id] == InPool(cs[k].profile)
    ensures forall id: nat | id < |v.homes| && !TakenBy(v, cs, n, id) :: Placed(v, cs[..n]).homes[id] == v.homes[id]
  {
    if n > 0 {
      PlacedHomes(v, cs, n - 1);
      assert cs[..n][..n - 1] == cs[..n - 1];
      var m: nat := n - 1;
      assert forall id: nat :: Uses(cs, m, id) <==> id in cs[m].cpus;
    }
  }

  lemma {:induction false} ReleasedHomes(v: View, cs: seq<Container>, n: nat)
    requires n <= |cs|
    ensures forall k: nat, id: nat | k < n && Uses(cs, k, id) && id < |v.homes| ::
              Released(v, cs[..n]).homes[id] == InShared
    ensures forall id: nat | id < |v.homes| && (forall k: nat | k < n :: !Uses(cs, k, id)) ::
              Released(v, cs[..n]).homes[id] == v.homes[id]
  {
    if n > 0 {
      ReleasedHomes(v, cs, n - 1);
      assert cs[..n][..n - 1] == cs[..n - 1];
      var m: nat := n - 1;
      assert forall id: nat :: Uses(cs, m, id) <==> id in cs[m].cpus;
    }
  }

  lemma ReleasedPlainly(v: View, cs: seq<Container>)
    ensures forall id: nat | id < |v.homes| ::
              Released(v, cs).homes[id] == if exists k :: 0 <= k < |cs| && id in cs[k].cpus then InShared else v.homes[id]
  {
    ReleasedHomes(v, cs, |cs|);
    assert cs[..|cs|] == cs;
    forall id: nat | id < |v.homes|
      ensures Released(v, cs).homes[id] == if exists k :: 0 <= k < |cs| && id in cs[k].cpus then InShared else v.homes[id]
    {
      if k: nat :| k < |cs| && id in cs[k].cpus {
        assert Uses(cs, k, id);
      }
    }
  }

  /** Creating a pod whose CPUs are all shared and deleting it again changes no
      CPU's pool. */
  lemma CreateThenDelete(v: View, cs: seq<Container>)
    requires Disjoint(cs)
    requires forall id: nat | UsesAny(cs, id) && id < |v.homes| :: v.homes[id] == InShared
    ensures Released(Placed(v, cs), cs) == v
  {
    PlacedHomes(v, cs, |cs|);
    ReleasedHomes(Placed(v, cs), cs, |cs|);
    assert cs[..|cs|] == cs;
    var w := Released(Placed(v, cs), cs);
    forall id: nat | id < |v.homes|
      ensures w.homes[id] == v.homes[id]
    {
      assert forall k: nat :: Uses(cs, k, id) ==> UsesAny(cs, id);
    }
    assert w.homes == v.homes;
  }

  // ---- runs of pod creations and deletions

  datatype PodState = PodState(view: View, recorded: Record)

  /** What a reconcile or the handling of a deletion comes to. A reconcile that is cut
      short (Requeue) has got to the first containers only, or has failed to write the
      record; Lost is the deletion of the whole node state. */
  datatype Event =
    | Create(uid: string, containers: seq<Container>)
    | Requeue(uid: string, containers: seq<Container>, tried: nat)
    | Delete(uid: string)
    | Lost

  ghost predicate Owns(r: Record, uid: string, k: nat, id: nat) {
    uid in r && Uses(r[uid], k, id)
  }

  /** The container's CPUs belong in one of the given pools. */
  predicate Counts(c: Container, pools: set<string>) {
    !c.failed && c.profile in pools
  }

  /** The given pools exist, live pods have disjoint CPUs, and a recorded CPU that
      belongs in one of the pools is there. */
  ghost predicate Held(s: PodState, pools: set<string>) {
    && (forall n | n in pools :: InPool(n) in s.view.profiles)
    && (forall u1, u2, k: nat, l: nat, id: nat | Owns(s.recorded, u1, k, id) && Owns(s.recorded, u2, l, id) ::
          u1 == u2 && k == l)
    && (forall u, k: nat, id: nat | Owns(s.recorded, u, k, id) && id < |s.view.homes| && Counts(s.recorded[u][k], pools) ::
          s.view.homes[id] == InPool(s.recorded[u][k].profile))
  }

  ghost predicate RecordedIn(r: Record, id: nat, pool: string) {
    exists u, k: nat :: Owns(r, u, k, id) && !r[u][k].failed && r[u][k].profile == pool
  }

  /** One of the container's CPUs is neither shared nor in the profile's pool yet. */
  ghost predicate Waits(v: View, c: Container) {
    Takes(v, c) && !forall id | id in c.cpus :: id < |v.homes| && (v.homes[id] == InShared || v.homes[id] == InPool(c.profile))
  }

  /** A CPU in a profile pool that no live pod is recorded to use there. */
  ghost predicate IsStray(s: PodState, pools: set<string>, id: nat) {
    && id < |s.view.homes| && s.view.homes[id].InPool? && s.view.homes[id].name in pools
    && !RecordedIn(s.recorded, id, s.view.homes[id].name)
  }

  /** Each profile pool holds exactly the CPUs recorded for live pods with that profile. */
  ghost predicate Accounted(s: PodState, pools: set<string>) {
    Held(s, pools) && forall id: nat :: !IsStray(s, pools, id)
  }

  ghost predicate DisjointFromOthers(r: Record, uid: string, cs: seq<Container>) {
    Disjoint(cs) && forall u, k: nat, id: nat | u != uid && Owns(r, u, k, id) :: !UsesAny(cs, id)
  }

  /** A pod gets CPUs no other live pod has. An attempt that is cut short has met no
      container that has to wait. */
  ghost predicate Admissible(s: PodState, e: Event) {
    match e
    case Create(uid, cs) => DisjointFromOthers(s.recorded, uid, cs)
    case Requeue(uid, cs, n) =>
      DisjointFromOthers(s.recorded, uid, cs) && n <= |cs| && forall k | 0 <= k < n :: !Waits(s.view, cs[k])
    case Delete(_) => true
    case Lost => true
  }

  function After(s: PodState, e: Event): (r: PodState) {
    match e
    case Create(uid, cs) => PodState(Placed(s.view, cs), s.recorded[uid := cs])
    case Requeue(uid, cs, n) => PodState(Placed(s.view, if n <= |cs| then cs[..n] else cs), s.recorded)
    case Delete(uid) =>
      if uid in s.recorded then PodState(Released(s.view, s.recorded[uid]), s.recorded - {uid}) else s
    case Lost => PodState(s.view, map[])
  }

  function AfterAll(s: PodState, events: seq<Event>): (r: PodState) {
    if events == [] then s else After(AfterAll(s, events[..|events| - 1]), events[|events| - 1])
  }

  /** A container among the first n that belongs in one of the pools uses the CPU. */
  ghost predicate PlacedInto(cs: seq<Container>, n: nat, pools: set<string>, id: nat) {
    exists k: nat :: k < n && Uses(cs, k, id) && Counts(cs[k], pools)
  }

  /** The CPU is recorded for the pod and belongs in one of the pools. */
  ghost predicate OnRecord(r: Record, uid: string, pools: set<string>, id: nat) {
    uid in r && PlacedInto(r[uid], |r[uid]|, pools, id)
  }

  /** Which CPUs are stray after an event, given those that were before: an attempt cut
      short adds the CPUs it has placed, unless they are on record already; a completed
      creation takes in what its pod uses and forgets what was on record for the pod; a
      deletion frees what its pod is recorded to use and nothing else (so nothing if the
      pod was never recorded); losing the node state makes every CPU in a profile pool
      stray. */
  ghost predicate StrayNext(was: bool, s: PodState, pools: set<string>, e: Event, id: nat) {
    match e
    case Create(uid, cs) =>
      id < |s.view.homes| && (was || OnRecord(s.recorded, uid, pools, id)) && !TakenBy(s.view, cs, |cs|, id)
    case Requeue(uid, cs, n) =>
      && id < |s.view.homes|
      && ((PlacedInto(cs, n, pools, id) && !OnRecord(s.recorded, uid, pools, id)) || (was && !TakenBy(s.view, cs, n, id)))
    case Delete(uid) => was && !(uid in s.recorded && UsesAny(s.recorded[uid], id))
    case Lost => id < |s.view.homes| && s.view.homes[id].InPool? && s.view.homes[id].name in pools
  }

  ghost predicate StrayAfter(s: PodState, pools: set<string>, e: Event, id: nat) {
    StrayNext(IsStray(s, pools, id), s, pools, e, id)
  }

  lemma CreateStep(s: PodState, uid: string, cs: seq<Container>, pools: set<string>)
    requires Held(s, pools) && Admissible(s, Create(uid, cs))
    ensures Held(After(s, Create(uid, cs)), pools)
    ensures forall id: nat :: IsStray(After(s, Create(uid, cs)), pools, id) <==> StrayAfter(s, pools, Create(uid, cs), id)
  {
    var t := After(s, Create(uid, cs));
    PlacedHomes(s.view, cs, |cs|);
    assert cs[..|cs|] == cs;
    forall u, k: nat, id: nat
      ensures Owns(t.recorded, u, k, id) <==> if u == uid then Uses(cs, k, id) else Owns(s.recorded, u, k, id)
    {
    }
    forall k: nat, id: nat | Uses(cs, k, id)
      ensures UsesAny(cs, id)
    {
    }
    forall id: nat
      ensures IsStray(t, pools, id) <==> StrayAfter(s, pools, Create(uid, cs), id)
    {
      CreateStray(s, uid, cs, pools, id);
    }
  }

  lemma CreateStray(s: PodState, uid: string, cs: seq<Container>, pools: set<string>, id: nat)
    requires Held(s, pools) && Admissible(s, Create(uid, cs))
    ensures IsStray(After(s, Create(uid, cs)), pools, id) <==> StrayAfter(s, pools, Create(uid, cs), id)
  {
    var t := After(s, Create(uid, cs));
    PlacedHomes(s.view, cs, |cs|);
    assert cs[..|cs|] == cs;
    if id < |s.view.homes| {
      if k: nat :| k < |cs| && Uses(cs, k, id) && Takes(s.view, cs[k]) {
        assert Owns(t.recorded, uid, k, id) && RecordedIn(t.recorded, id, cs[k].profile);
      } else if s.view.homes[id].InPool? && s.view.homes[id].name in pools {
        OthersRecord(s, uid, cs, pools, id);
      }
    }
  }

  /** A pod's new record leaves it to the other pods who uses a CPU that the pod does not
      take. */
  lemma OthersRecord(s: PodState, uid: string, cs: seq<Container>, pools: set<string>, id: nat)
    requires Held(s, pools) && id < |s.view.homes| && s.view.homes[id].InPool? && s.view.homes[id].name in pools
    requires !TakenBy(s.view, cs, |cs|, id)
    ensures var pool := s.view.homes[id].name;
            && (RecordedIn(s.recorded[uid := cs], id, pool) ==> RecordedIn(s.recorded, id, pool) && !OnRecord(s.recorded, uid, pools, id))
            && (RecordedIn(s.recorded, id, pool) && !OnRecord(s.recorded, uid, pools, id) ==> RecordedIn(s.recorded[uid := cs], id, pool))
  {
    var r, pool := s.recorded[uid := cs], s.view.homes[id].name;
    if u, k: nat :| Owns(r, u, k, id) && !r[u][k].failed && r[u][k].profile == pool {
      assert u == uid ==> Uses(cs, k, id) && Takes(s.view, cs[k]);
      assert Owns(s.recorded, u, k, id);
      forall l: nat | uid in s.recorded
        ensures !Uses(s.recorded[uid], l, id)
      {
        assert Uses(s.recorded[uid], l, id) ==> Owns(s.recorded, uid, l, id);
      }
    }
    if u, k: nat :| Owns(s.recorded, u, k, id) && !s.recorded[u][k].failed && s.recorded[u][k].profile == pool {
      if u == uid {
        assert PlacedInto(s.recorded[uid], |s.recorded[uid]|, pools, id);
      } else {
        assert Owns(r, u, k, id);
      }
    }
  }

  lemma RequeueStep(s: PodState, uid: string, cs: seq<Container>, n: nat, pools: set<string>)
    requires Held(s, pools) && Admissible(s, Requeue(uid, cs, n))
    ensures Held(After(s, Requeue(uid, cs, n)), pools)
    ensures forall id: nat :: IsStray(After(s, Requeue(uid, cs, n)), pools, id) <==> StrayAfter(s, pools, Requeue(uid, cs, n), id)
  {
    var t := After(s, Requeue(uid, cs, n));
    PlacedHomes(s.view, cs, n);
    forall u, l: nat, id: nat | Owns(s.recorded, u, l, id) && id < |s.view.homes| && Counts(s.recorded[u][l], pools)
      ensures t.view.homes[id] == s.view.homes[id]
    {
      if TakenBy(s.view, cs, n, id) {
        TakenKeeps(s, cs, n, id);
        assert s.view.homes[id] == InPool(s.recorded[u][l].profile);
      }
    }
    forall id: nat | id < |s.view.homes|
      ensures IsStray(t, pools, id) <==> StrayAfter(s, pools, Requeue(uid, cs, n), id)
    {
      if TakenBy(s.view, cs, n, id) {
        RequeueStray(s, uid, cs, n, pools, id);
      } else {
        assert forall k: nat :: k < n && Uses(cs, k, id) ==> !Takes(s.view, cs[k]);
        assert !PlacedInto(cs, n, pools, id);
      }
    }
  }

  /** A CPU that is taken without waiting was shared, or is there already. */
  lemma TakenKeeps(s: PodState, cs: seq<Container>, n: nat, id: nat)
    requires n <= |cs| && Disjoint(cs) && TakenBy(s.view, cs, n, id) && id < |s.view.homes|
    requires forall k | 0 <= k < n :: !Waits(s.view, cs[k])
    ensures s.view.homes[id] == InShared || Placed(s.view, cs[..n]).homes[id] == s.view.homes[id]
  {
    PlacedHomes(s.view, cs, n);
    var k: nat :| k < n && Uses(cs, k, id) && Takes(s.view, cs[k]);
    assert !Waits(s.view, cs[k]);
  }

  lemma RequeueStray(s: PodState, uid: string, cs: seq<Container>, n: nat, pools: set<string>, id: nat)
    requires Held(s, pools) && Admissible(s, Requeue(uid, cs, n))
    requires id < |s.view.homes| && TakenBy(s.view, cs, n, id)
    ensures IsStray(After(s, Requeue(uid, cs, n)), pools, id) <==> StrayAfter(s, pools, Requeue(uid, cs, n), id)
  {
    PlacedHomes(s.view, cs, n);
    TakenKeeps(s, cs, n, id);
    var k: nat :| k < n && Uses(cs, k, id) && Takes(s.view, cs[k]);
    assert UsesAny(cs, id);
    assert PlacedInto(cs, n, pools, id) <==> Counts(cs[k], pools);
    if OnRecord(s.recorded, uid, pools, id) {
      var l: nat :| Uses(s.recorded[uid], l, id) && Counts(s.recorded[uid][l], pools);
      assert Owns(s.recorded, uid, l, id) && RecordedIn(s.recorded, id, s.recorded[uid][l].profile);
    } else {
      forall u, l: nat | Owns(s.recorded, u, l, id)
        ensures u == uid && !Counts(s.recorded[u][l], pools)
      {
        assert u == uid ==> Uses(s.recorded[uid], l, id);
      }
    }
  }

  lemma DeleteStep(s: PodState, uid: string, pools: set<string>)
    requires Held(s, pools)
    ensures Held(After(s, Delete(uid)), pools)
    ensures forall id: nat :: IsStray(After(s, Delete(uid)), pools, id) <==> StrayAfter(s, pools, Delete(uid), id)
  {
    if uid in s.recorded {
      var t, cs := After(s, Delete(uid)), s.recorded[uid];
      ReleasedHomes(s.view, cs, |cs|);
      assert cs[..|cs|] == cs;
      forall u, k: nat, id: nat
        ensures Owns(t.recorded, u, k, id) <==> u != uid && Owns(s.recorded, u, k, id)
      {
      }
      forall u, k: nat, id: nat | Owns(t.recorded, u, k, id) && id < |t.view.homes|
        ensures t.view.homes[id] == s.view.homes[id]
      {
        forall l: nat
          ensures !Uses(cs, l, id)
        {
          assert Owns(s.recorded, uid, l, id) ==> u == uid;
        }
      }
      forall id: nat | id < |s.view.homes|
        ensures IsStray(t, pools, id) <==> StrayAfter(s, pools, Delete(uid), id)
      {
        DeleteStray(s, uid, pools, id);
      }
    }
  }

  lemma DeleteStray(s: PodState, uid: string, pools: set<string>, id: nat)
    requires Held(s, pools) && uid in s.recorded && id < |s.view.homes|
    ensures IsStray(After(s, Delete(uid)), pools, id) <==> StrayAfter(s, pools, Delete(uid), id)
  {
    var t, cs := After(s, Delete(uid)), s.recorded[uid];
    ReleasedHomes(s.view, cs, |cs|);
    assert cs[..|cs|] == cs;
    if l: nat :| Uses(cs, l, id) {
      assert UsesAny(cs, id) && t.view.homes[id] == InShared;
    } else {
      forall u, k: nat
        ensures Owns(t.recorded, u, k, id) <==> Owns(s.recorded, u, k, id)
      {
        assert Owns(s.recorded, uid, k, id) ==> Uses(cs, k, id);
      }
      assert forall pool :: RecordedIn(t.recorded, id, pool) <==> RecordedIn(s.recorded, id, pool);
    }
  }

  lemma Step(s: PodState, e: Event, pools: set<string>)
    requires Held(s, pools) && Admissible(s, e)
    ensures Held(After(s, e), pools)
    ensures forall id: nat :: IsStray(After(s, e), pools, id) <==> StrayAfter(s, pools, e, id)
  {
    match e
    case Create(uid, cs) => CreateStep(s, uid, cs, pools);
    case Requeue(uid, cs, n) => RequeueStep(s, uid, cs, n, pools);
    case Delete(uid) => DeleteStep(s, uid, pools);
    case Lost =>
  }

  ghost predicate AllAdmissible(s: PodState, events: seq<Event>) {
    forall k | 0 <= k < |events| :: Admissible(AfterAll(s, events[..k]), events[k])
  }

  lemma AdmissiblePrefix(s: PodState, events: seq<Event>)
    requires AllAdmissible(s, events) && events != []
    ensures AllAdmissible(s, events[..|events| - 1])
    ensures Admissible(AfterAll(s, events[..|events| - 1]), events[|events| - 1])
  {
    var init := events[..|events| - 1];
    forall k | 0 <= k < |init|
      ensures Admissible(AfterAll(s, init[..k]), init[k])
    {
      assert init[..k] == events[..k];
    }
  }

  /** The stray CPUs after a run, computed from those before it event by event. */
  ghost predicate StrayAfterAll(s: PodState, pools: set<string>, events: seq<Event>, id: nat)
    decreases |events|
  {
    if events == [] then IsStray(s, pools, id)
    else
      var init := events[..|events| - 1];
      StrayNext(StrayAfterAll(s, pools, init, id), AfterAll(s, init), pools, events[|events| - 1], id)
  }

  /** Over any interleaving of creations, attempts cut short and deletions, recorded CPUs
      sit in their profiles' pools, and the CPUs a pool holds beyond its record are
      exactly those that such attempts have placed and nobody has taken in or freed
      since. */
  lemma {:induction false} StraysExact(s: PodState, events: seq<Event>, pools: set<string>)
    requires Held(s, pools) && AllAdmissible(s, events)
    ensures Held(AfterAll(s, events), pools)
    ensures forall id: nat :: IsStray(AfterAll(s, events), pools, id) <==> StrayAfterAll(s, pools, events, id)
  {
    if events != [] {
      AdmissiblePrefix(s, events);
      StraysExact(s, events[..|events| - 1], pools);
      Step(AfterAll(s, events[..|events| - 1]), events[|events| - 1], pools);
    }
  }

  /** A pod is recorded anew without a CPU that was on record for it. */
  ghost predicate Forgets(s: PodState, pools: set<string>, e: Event, id: nat) {
    e.Create? && id < |s.view.homes| && OnRecord(s.recorded, e.uid, pools, id) && !TakenBy(s.view, e.containers, |e.containers|, id)
  }

  /** A pod whose container comes back with an error, or with other CPUs, is recorded
      without the CPUs it had; exactly these stay behind in the pools. */
  lemma CreateAgainForgets(s: PodState, uid: string, cs: seq<Container>, pools: set<string>)
    requires Accounted(s, pools) && Admissible(s, Create(uid, cs))
    ensures forall id: nat :: IsStray(After(s, Create(uid, cs)), pools, id) <==> Forgets(s, pools, Create(uid, cs), id)
    ensures Accounted(After(s, Create(uid, cs)), pools) <==> !exists id: nat :: Forgets(s, pools, Create(uid, cs), id)
  {
    CreateStep(s, uid, cs, pools);
  }

  /** Over any interleaving of completed creations and deletions that forget no CPU, every
      profile pool holds exactly the CPUs recorded for live pods with its profile. */
  lemma {:induction false} AlwaysAccounted(s: PodState, events: seq<Event>, pools: set<string>)
    requires Accounted(s, pools) && AllAdmissible(s, events)
    requires forall e | e in events :: e.Create? || e.Delete?
    requires forall k, id: nat | 0 <= k < |events| :: !Forgets(AfterAll(s, events[..k]), pools, events[k], id)
    ensures Accounted(AfterAll(s, events), pools)
  {
    if events != [] {
      var init, last := events[..|events| - 1], events[|events| - 1];
      AdmissiblePrefix(s, events);
      assert last in events;
      forall k, id: nat | 0 <= k < |init|
        ensures !Forgets(AfterAll(s, init[..k]), pools, init[k], id)
      {
        assert init[..k] == events[..k];
      }
      AlwaysAccounted(s, init, pools);
      Step(AfterAll(s, init), last, pools);
      if last.Create? {
        CreateAgainForgets(AfterAll(s, init), last.uid, last.containers, pools);
      }
    }
  }

  /** An attempt cut short that completes later leaves no trace, if it forgets no CPU. */
  lemma RetryRestores(s: PodState, uid: string, cs: seq<Container>, n: nat, pools: set<string>)
    requires Accounted(s, pools) && Admissible(s, Requeue(uid, cs, n))
    requires forall id: nat :: !Forgets(s, pools, Create(uid, cs), id)
    ensures Accounted(After(After(s, Requeue(uid, cs, n)), Create(uid, cs)), pools)
  {
    var t := After(s, Requeue(uid, cs, n));
    RequeueStep(s, uid, cs, n, pools);
    CreateStep(t, uid, cs, pools);
    forall id: nat
      ensures !IsStray(After(t, Create(uid, cs)), pools, id)
    {
      assert !Forgets(s, pools, Create(uid, cs), id);
      assert TakenBy(t.view, cs, |cs|, id) <==> TakenBy(s.view, cs, |cs|, id);
      if k: nat :| k < n && Uses(cs, k, id) && Counts(cs[k], pools) {
        assert Takes(t.view, cs[k]);
      }
    }
  }

  /** A pod whose creation was cut short and that is deleted instead leaves behind exactly
      the CPUs the attempt had placed and that are not on record from before: nothing
      leads back to them. */
  lemma DeletionAfterRequeueLeaks(s: PodState, uid: string, cs: seq<Container>, n: nat, pools: set<string>)
    requires Accounted(s, pools) && Admissible(s, Requeue(uid, cs, n))
    ensures forall id: nat :: IsStray(After(After(s, Requeue(uid, cs, n)), Delete(uid)), pools, id) <==>
                              && id < |s.view.homes| && PlacedInto(cs, n, pools, id)
                              && !(uid in s.recorded && UsesAny(s.recorded[uid], id))
  {
    RequeueStep(s, uid, cs, n, pools);
    DeleteStep(After(s, Requeue(uid, cs, n)), uid, pools);
  }

  /** A deletion whose status cannot be written has freed the CPUs and kept the entry, so it
      is tried again. By then the CPUs may be another pod's: exactly when the second try
      leaves every other pod its CPUs. */
  lemma RepeatedDeletionIff(s: PodState, uid: string, pools: set<string>)
    requires uid in s.recorded && Held(PodState(s.view, s.recorded - {uid}), pools)
    ensures Held(After(s, Delete(uid)), pools) <==>
            !exists u, id: nat :: u != uid && id < |s.view.homes| && OnRecord(s.recorded, u, pools, id) && UsesAny(s.recorded[uid], id)
  {
    var t, r, cs := After(s, Delete(uid)), s.recorded - {uid}, s.recorded[uid];
    ReleasedHomes(s.view, cs, |cs|);
    assert cs[..|cs|] == cs;
    forall id: nat | id < |s.view.homes|
      ensures t.view.homes[id] == if UsesAny(cs, id) then InShared else s.view.homes[id]
    {
      if k: nat :| Uses(cs, k, id) {
        assert UsesAny(cs, id);
      }
    }
    if u, id: nat :| u != uid && id < |s.view.homes| && OnRecord(s.recorded, u, pools, id) && UsesAny(cs, id) {
      var k: nat :| Uses(s.recorded[u], k, id) && Counts(s.recorded[u][k], pools);
      assert Owns(r, u, k, id);
    } else {
      forall u, k: nat, id: nat | Owns(r, u, k, id) && id < |s.view.homes| && Counts(r[u][k], pools)
        ensures t.view.homes[id] == InPool(r[u][k].profile)
      {
        assert OnRecord(s.recorded, u, pools, id);
      }
    }
  }

  // ---- the controller

  /** Reported: recorded, but some container has an error. Failed: not recorded. */
  datatype Outcome = Completed | Reported | Requeued | Failed

  ghost predicate KnownCpus(v: View, cs: seq<Container>) {
    forall k | 0 <= k < |cs| :: v.Known(cs[k].cpus)
  }

  /** Containers with disjoint CPUs neither keep each other waiting nor let each other go on. */
  lemma WaitsAlone(v: View, cs: seq<Container>, k: nat)
    requires k < |cs| && Disjoint(cs)
    ensures Waits(Placed(v, cs[..k]), cs[k]) <==> Waits(v, cs[k])
  {
    PlacedHomes(v, cs, k);
    forall id | id in cs[k].cpus && id < |v.homes|
      ensures Placed(v, cs[..k]).homes[id] == v.homes[id]
    {
      assert Uses(cs, k, id);
      assert !TakenBy(v, cs, k, id);
    }
  }

  /** The CPU is wanted by a container that carries no error and whose profile has a pool. */
  ghost predicate Wants(v: View, cs: seq<Container>, k: nat, id: nat) {
    k < |cs| && !cs[k].failed && InPool(cs[k].profile) in v.profiles && id in cs[k].cpus
  }

  /** Every CPU that is wanted is shared, or in one more given pool, or where it should be. */
  ghost predicate Ready(v: View, cs: seq<Container>, also: Home) {
    forall k: nat, id: nat | Wants(v, cs, k, id) ::
      id < |v.homes| && (v.homes[id] == InShared || v.homes[id] == also || v.homes[id] == InPool(cs[k].profile))
  }

  /** From v, every CPU that is wanted has come to where it should be, and no other has
      moved. */
  ghost predicate ThereNow(v: View, cs: seq<Container>, homes: seq<Home>) {
    && |homes| == |v.homes|
    && (forall k: nat, id: nat | Wants(v, cs, k, id) :: id < |homes| && homes[id] == InPool(cs[k].profile))
    && (forall id: nat | id < |homes| && (forall k: nat :: !Wants(v, cs, k, id)) :: homes[id] == v.homes[id])
  }

  lemma WantsIsTakes(v: View, cs: seq<Container>)
    ensures forall k: nat, id: nat :: Wants(v, cs, k, id) <==> Uses(cs, k, id) && Takes(v, cs[k])
    ensures Ready(v, cs, InShared) <==> forall k | 0 <= k < |cs| :: !Waits(v, cs[k])
  {
    forall k: nat | k < |cs|
      ensures Waits(v, cs[k]) <==>
              exists id: nat :: Wants(v, cs, k, id) && !(id < |v.homes| && (v.homes[id] == InShared || v.homes[id] == InPool(cs[k].profile)))
    {
      if Waits(v, cs[k]) {
        var id: nat :| id in cs[k].cpus && !(id < |v.homes| && (v.homes[id] == InShared || v.homes[id] == InPool(cs[k].profile)));
        assert Wants(v, cs, k, id);
      }
    }
  }

  lemma PlacedThere(v: View, cs: seq<Container>)
    requires Disjoint(cs)
    ensures Ready(v, cs, InShared) <==> forall k | 0 <= k < |cs| :: !Waits(v, cs[k])
    ensures Ready(v, cs, InShared) ==> ThereNow(v, cs, Placed(v, cs).homes)
  {
    WantsIsTakes(v, cs);
    PlacedHomes(v, cs, |cs|);
    assert cs[..|cs|] == cs;
    forall id: nat | id < |v.homes| && (forall k: nat :: !Wants(v, cs, k, id))
      ensures Placed(v, cs).homes[id] == v.homes[id]
    {
      assert !TakenBy(v, cs, |cs|, id);
    }
  }

  /** No container is reported for want of a pool. */
  ghost predicate AllHavePools(v: View, cs: seq<Container>) {
    forall k | 0 <= k < |cs| :: cs[k].failed || InPool(cs[k].profile) in v.profiles
  }

  lemma PlacedMore(v: View, cs: seq<Container>, n: nat)
    requires n < |cs|
    ensures Placed(v, cs[..n + 1]) ==
            if Takes(v, cs[n]) then Placed(v, cs[..n]).Move(cs[n].cpus, InPool(cs[n].profile)) else Placed(v, cs[..n])
  {
    assert cs[..n + 1][..n] == cs[..n];
  }

  lemma HavePoolsMore(v: View, cs: seq<Container>, n: nat)
    requires n < |cs|
    ensures AllHavePools(v, cs[..n + 1]) <==> AllHavePools(v, cs[..n]) && (cs[n].failed || InPool(cs[n].profile) in v.profiles)
  {
    assert forall k | 0 <= k < n :: cs[..n + 1][k] == cs[..n][k];
    assert cs[..n + 1][n] == cs[n];
  }

  /** Moving the CPUs that are not in the pool yet is moving all of them. */
  lemma MoveMissing(v: View, cpus: seq<nat>, missing: seq<nat>, to: Home)
    requires forall id | id in missing :: id in cpus
    requires forall id | id in cpus && id !in missing :: id < |v.homes| && v.homes[id] == to
    ensures v.Move(missing, to) == v.Move(cpus, to)
    ensures v.Known(missing) && v.CanMoveAll(missing, to) ==> v.Known(cpus) && v.CanMoveAll(cpus, to)
  {
    assert v.Move(missing, to).homes == v.Move(cpus, to).homes;
    if v.Known(missing) && v.CanMoveAll(missing, to) {
      forall k | 0 <= k < |cpus|
        ensures cpus[k] < |v.homes| && v.CanMove(cpus[k], to)
      {
        assert cpus[k] in cpus;
        if cpus[k] in missing {
          var j :| 0 <= j < |missing| && missing[j] == cpus[k];
        }
      }
    }
  }

  /** detectCoresAdded: the desired cores that the pool lacks, in order. */
  method DetectCoresAdded(original: seq<nat>, updated: seq<nat>) returns (added: seq<nat>)
    ensures forall id :: id in added <==> id in updated && id !in original
  {
    added := [];
    for i := 0 to |updated|
      invariant forall id :: id in added <==> id in updated[..i] && id !in original
    {
      if updated[i] !in original {
        added := added + [updated[i]];
      }
    }
    assert updated[..|updated|] == updated;
  }

  class PowerPodReconciler {
    const library: Host
    /** The exclusive entries of the node state, by pod. */
    var recorded: Record

    constructor (library: Host)
      ensures this.library == library && recorded == map[]
    {
      this.library, recorded := library, map[];
    }

    method AreCPUsInSharedPool(cpuIDs: seq<nat>) returns (all: bool)
      requires library.Valid()
      ensures all <==> forall id | id in cpuIDs :: id in library.st.lists[InShared]
    {
      for i := 0 to |cpuIDs|
        invariant forall id | id in cpuIDs[..i] :: id in library.st.lists[InShared]
      {
        if cpuIDs[i] !in library.st.lists[InShared] {
          return false;
        }
      }
      assert cpuIDs[..|cpuIDs|] == cpuIDs;
      return true;
    }

    /** One container of the pool loop of Reconcile that carries no error. CPUs come from
        the shared pool only; if one is still elsewhere the whole reconcile waits. */
    method PlaceContainer(c: Container) returns (outcome: Outcome)
      requires library.Valid() && !c.failed
      modifies library`st, library`faults, library`failedWrites
      ensures library.Valid() && old(library.faults) <= library.faults && outcome != Failed
      ensures |library.st.view.homes| == |old(library.st.view).homes| && library.st.view.profiles == old(library.st.view).profiles
      ensures outcome == Requeued <==> Waits(old(library.st.view), c)
      // It waits exactly for a CPU that is neither shared nor in the profile's pool.
      ensures outcome == Requeued <==>
                && InPool(c.profile) in old(library.st.view).profiles
                && exists id :: id in c.cpus && !(id < |old(library.st.view).homes|
                     && (old(library.st.view).homes[id] == InShared || old(library.st.view).homes[id] == InPool(c.profile)))
      ensures outcome == Requeued ==> library.st == old(library.st) && library.faults == old(library.faults)
      ensures outcome == Completed <==> && library.faults == old(library.faults) && Takes(old(library.st.view), c)
                                        && !Waits(old(library.st.view), c)
      ensures outcome == Completed ==> library.st.view == old(library.st.view).Move(c.cpus, InPool(c.profile))
      ensures outcome == Reported && library.faults == old(library.faults) ==>
                InPool(c.profile) !in old(library.st.view).profiles && library.st == old(library.st)
      ensures old(library.failedWrites) <= library.failedWrites
      ensures library.faults == old(library.faults) || library.Excuse(old(library.failedWrites), old(library.st.view))
    {
      var exclusivePool := library.GetExclusivePool(c.profile);
      if exclusivePool.None? {
        return Reported;
      }
      var pool := exclusivePool.value;
      var coresToAdd := DetectCoresAdded(library.st.lists[pool], c.cpus);
      if 0 < |coresToAdd| {
        var inShared := AreCPUsInSharedPool(coresToAdd);
        if !inShared {
          return Requeued;
        }
      }
      MoveMissing(library.st.view, c.cpus, coresToAdd, pool);
      MoveNone(library.st.view, pool);
      if 0 < |coresToAdd| {
        assert forall k | 0 <= k < |coresToAdd| :: coresToAdd[k] in coresToAdd && coresToAdd[k] in library.st.lists[InShared];
        ghost var done;
        var ok;
        ok, done := library.MoveCPUIDs(pool, coresToAdd);
        if !ok {
          return Reported;
        }
      }
      return Completed;
    }

    /** Where the host stands once n containers have been tried, starting from v with
        the given counts; `clean` if none of them was reported. */
    ghost predicate Tried(v: View, faults: nat, writes: nat, cs: seq<Container>, n: nat, clean: bool)
      requires n <= |cs|
      reads library
    {
      && faults <= library.faults && writes <= library.failedWrites
      && library.st.view.profiles == v.profiles
      && (library.faults == faults || library.Excuse(writes, v))
      && (library.faults == faults ==>
            && library.st.view == Placed(v, cs[..n])
            && (clean <==> AllHavePools(v, cs[..n]))
            && (Disjoint(cs) ==> forall k | 0 <= k < n :: !Waits(v, cs[k])))
      && (clean ==> library.faults == faults)
    }

    /** The next container. `still` tells whether the loop is clean so far; Failed is the
        outcome if its profile cannot be read again. */
    method TryContainer(ghost v: View, ghost faults: nat, ghost writes: nat, cs: seq<Container>, n: nat, clean: bool, unreadable: nat)
      returns (outcome: Outcome, still: bool)
      requires library.Valid() && n < |cs| && Tried(v, faults, writes, cs, n, clean)
      modifies library`st, library`faults, library`failedWrites
      ensures library.Valid() && old(library.faults) <= library.faults
      ensures Tried(v, faults, writes, cs, if outcome == Requeued then n else n + 1, still)
      ensures outcome == Requeued ==> library.st == old(library.st)
      ensures outcome == Requeued && library.faults == faults ==>
                Waits(Placed(v, cs[..n]), cs[n]) && (Disjoint(cs) ==> Waits(v, cs[n]))
      ensures outcome == Failed ==> unreadable == n
      ensures (outcome == Completed || outcome == Reported) && n == unreadable && library.faults == faults ==> !Takes(v, cs[n])
    {
      PlacedMore(v, cs, n);
      HavePoolsMore(v, cs, n);
      if Disjoint(cs) {
        WaitsAlone(v, cs, n);
      }
      if cs[n].failed {
        return Completed, clean;
      }
      outcome := PlaceContainer(cs[n]);
      still := clean && (outcome == Completed || outcome == Requeued);
      if outcome == Completed && n == unreadable {
        return Failed, still;
      }
    }

    /** The pool loop of Reconcile. It stops at a container that has to wait, and behind
        the one whose profile cannot be read again, if there is such a container. */
    method TryContainers(cs: seq<Container>, unreadable: nat) returns (outcome: Outcome, clean: bool, ghost tried: nat)
      requires library.Valid()
      modifies library`st, library`faults, library`failedWrites
      ensures library.Valid() && tried <= |cs|
      ensures Tried(old(library.st.view), old(library.faults), old(library.failedWrites), cs, tried, clean)
      ensures outcome == Requeued && library.faults == old(library.faults) && Disjoint(cs) ==>
                tried < |cs| && Waits(old(library.st.view), cs[tried])
      ensures outcome == Failed ==> unreadable < |cs|
      ensures outcome == Completed || outcome == Reported ==> tried == |cs|
      ensures (outcome == Completed || outcome == Reported) && library.faults == old(library.faults) && unreadable < |cs| ==>
                !Takes(old(library.st.view), cs[unreadable])
    {
      ghost var v, faults, writes := library.st.view, library.faults, library.failedWrites;
      clean, tried := true, 0;
      for i := 0 to |cs|
        invariant library.Valid() && tried == i && Tried(v, faults, writes, cs, i, clean)
        invariant library.faults == faults && unreadable < i ==> !Takes(v, cs[unreadable])
      {
        outcome, clean := TryContainer(v, faults, writes, cs, i, clean, unreadable);
        tried := if outcome == Requeued then i else i + 1;
        if outcome == Requeued || outcome == Failed {
          return;
        }
      }
      return Completed, clean, |cs|;
    }

    /** Reconcile of a running pod. Inputs are what does not concern the pools: whether
        errors are reported there, the container whose profile cannot be read again, if
        any, and whether the status can be written. `tried` is how many containers it has
        got to. */
    method ReconcilePod(uid: string, containers: seq<Container>, otherErrors: bool, unreadable: nat, statusOk: bool)
      returns (outcome: Outcome, ghost tried: nat)
      requires library.Valid()
      modifies library`st, library`faults, library`failedWrites, this`recorded
      ensures library.Valid() && old(library.faults) <= library.faults && tried <= |containers|
      ensures library.faults == old(library.faults) ==>
                PodState(library.st.view, recorded) == After(PodState(old(library.st.view), old(recorded)), EventOf(outcome, uid, containers, tried))
      // When it waits: for the first container that has to, if the containers are disjoint.
      ensures library.faults == old(library.faults) && Disjoint(containers) ==>
                && (forall k | 0 <= k < tried :: !Waits(old(library.st.view), containers[k]))
                && (outcome == Requeued ==> tried < |containers| && Waits(old(library.st.view), containers[tried]))
      // It goes through if every CPU that is wanted is shared or where it should be, and then all are there.
      ensures library.faults == old(library.faults) && Disjoint(containers) && statusOk && |containers| <= unreadable &&
              Ready(old(library.st.view), containers, InShared) ==>
                outcome == Completed || outcome == Reported
      ensures library.faults == old(library.faults) && Disjoint(containers) && (outcome == Completed || outcome == Reported) ==>
                ThereNow(old(library.st.view), containers, library.st.view.homes)
      ensures outcome == Failed ==> !statusOk || unreadable < |containers|
      // One whose profile cannot be read again ends it, unless there was nothing to place.
      ensures library.faults == old(library.faults) && unreadable < |containers| && (outcome == Completed || outcome == Reported) ==>
                containers[unreadable].failed || InPool(containers[unreadable].profile) !in old(library.st.view).profiles
      ensures outcome == Completed || outcome == Reported ==> statusOk && tried == |containers|
      ensures outcome == Completed ==> library.faults == old(library.faults)
      ensures library.faults == old(library.faults) && (outcome == Completed || outcome == Reported) ==>
                (outcome == Completed <==> !otherErrors && AllHavePools(old(library.st.view), containers))
      ensures recorded == if outcome == Completed || outcome == Reported then old(recorded)[uid := containers] else old(recorded)
      ensures old(library.failedWrites) <= library.failedWrites && library.st.view.profiles == old(library.st.view).profiles
      ensures library.faults == old(library.faults) || library.Excuse(old(library.failedWrites), old(library.st.view))
    {
      var clean;
      if Disjoint(containers) {
        PlacedThere(library.st.view, containers);
      }
      outcome, clean, tried := TryContainers(containers, unreadable);
      assert containers[..|containers|] == containers;
      if outcome == Requeued || outcome == Failed {
        return;
      }
      if !statusOk {
        return Failed, tried;
      }
      recorded := recorded[uid := containers];
      outcome := if clean && !otherErrors then Completed else Reported;
    }

    /** The moves of handlePodDeletion: each container's CPUs go back to shared. */
    method ReleaseContainers(containers: seq<Container>) returns (ok: bool)
      requires library.Valid()
      modifies library`st, library`faults, library`failedWrites
      ensures library.Valid()
      ensures ok ==> library.faults == old(library.faults) && library.st.view == Released(old(library.st.view), containers)
      ensures library.faults == old(library.faults) && KnownCpus(old(library.st.view), containers) ==> ok
      ensures old(library.failedWrites) <= library.failedWrites && library.st.view.profiles == old(library.st.view).profiles
      ensures library.faults == old(library.faults) || library.Excuse(old(library.failedWrites), old(library.st.view))
      ensures old(library.faults) <= library.faults
    {
      ghost var v := library.st.view;
      for i := 0 to |containers|
        invariant library.Valid() && library.faults == old(library.faults) && old(library.failedWrites) <= library.failedWrites
        invariant library.st.view == Released(v, containers[..i])
      {
        assert containers[..i + 1][..i] == containers[..i];
        ghost var done;
        ok, done := library.MoveCPUIDs(InShared, containers[i].cpus);
        if !ok {
          return;
        }
      }
      assert containers[..|containers|] == containers;
      return true;
    }

    /** handlePodDeletion: the recorded CPUs go back, then the entry is removed. A node
        state that is missing holds no entry, so nothing moves then either. */
    method HandlePodDeletion(uid: string, statusOk: bool) returns (outcome: Outcome)
      requires library.Valid()
      modifies library`st, library`faults, library`failedWrites, this`recorded
      ensures library.Valid()
      ensures outcome == Completed ==>
                && library.faults == old(library.faults)
                && PodState(library.st.view, recorded) == After(PodState(old(library.st.view), old(recorded)), Delete(uid))
      ensures outcome != Completed ==> outcome == Failed && recorded == old(recorded)
      ensures outcome == Completed ==> statusOk
      // CPU by CPU: what is on record for the pod is shared, and no other CPU has moved.
      ensures outcome == Completed ==>
                && recorded == old(recorded) - {uid} && |library.st.view.homes| == |old(library.st.view).homes|
                && forall id: nat | id < |library.st.view.homes| ::
                     library.st.view.homes[id] ==
                     if uid in old(recorded) && exists k :: 0 <= k < |old(recorded)[uid]| && id in old(recorded)[uid][k].cpus
                     then InShared else old(library.st.view).homes[id]
      // The CPUs go back even if the status cannot be written.
      ensures library.faults == old(library.faults) && (uid in old(recorded) ==> KnownCpus(old(library.st.view), old(recorded)[uid])) ==>
                library.st.view == After(PodState(old(library.st.view), old(recorded)), Delete(uid)).view
      ensures old(library.faults) <= library.faults && old(library.failedWrites) <= library.failedWrites
      ensures library.faults == old(library.faults) || library.Excuse(old(library.failedWrites), old(library.st.view))
      ensures library.st.view.profiles == old(library.st.view).profiles
      ensures recorded == old(recorded) || recorded == old(recorded) - {uid}
      ensures statusOk && library.faults == old(library.faults) ==>
                (outcome == Completed <== (uid in old(recorded) ==> KnownCpus(old(library.st.view), old(recorded)[uid])))
    {
      if uid in recorded {
        ReleasedPlainly(library.st.view, recorded[uid]);
        var ok := ReleaseContainers(recorded[uid]);
        if !ok {
          return Failed;
        }
      }
      if !statusOk {
        return Failed;
      }
      recorded := recorded - {uid};
      return Completed;
    }

    /** The node state is deleted from outside, and with it every entry. */
    method LoseNodeState()
      modifies this`recorded
      ensures recorded == map[]
    {
      recorded := map[];
    }
  }

  // ---- runs of the controller

  datatype Request =
    | Reconcile(uid: string, containers: seq<Container>, otherErrors: bool, unreadable: nat, statusOk: bool)
    | Deletion(uid: string)
    | StateLoss

  function CpusOf(cs: seq<Container>): (r: set<nat>) {
    set c, id | c in cs && id in c.cpus :: id
  }

  lemma InCpusOf(cs: seq<Container>, id: nat)
    ensures id in CpusOf(cs) <==> UsesAny(cs, id)
  {
    if id in CpusOf(cs) {
      var c :| c in cs && id in c.cpus;
      var k: nat :| k < |cs| && cs[k] == c;
      assert Uses(cs, k, id);
    }
  }

  /** The pods that have been started and not deleted again, with the CPUs they were
      given since. */
  function Live(requests: seq<Request>): (r: map<string, set<nat>>) {
    if requests == [] then map[] else LiveNext(Live(requests[..|requests| - 1]), requests[|requests| - 1])
  }

  function LiveNext(live: map<string, set<nat>>, q: Request): (r: map<string, set<nat>>) {
    match q
    case Reconcile(uid, cs, _, _, _) => live[uid := CpusOf(cs) + if uid in live then live[uid] else {}]
    case Deletion(uid) => live - {uid}
    case StateLoss => live
  }

  /** What the kubelet hands out: CPUs that exist, none to two containers, and none that
      another live pod was given. */
  ghost predicate Allotted(v: View, live: map<string, set<nat>>, q: Request) {
    q.Reconcile? ==>
      && KnownCpus(v, q.containers) && Disjoint(q.containers)
      && forall u | u in live && u != q.uid :: live[u] !! CpusOf(q.containers)
  }

  ghost predicate AllAllotted(v: View, requests: seq<Request>) {
    forall k | 0 <= k < |requests| :: Allotted(v, Live(requests[..k]), requests[k])
  }

  /** Every pod on record is live and was given the CPUs recorded for it. */
  ghost predicate Backed(v: View, r: Record, live: map<string, set<nat>>) {
    forall u | u in r :: u in live && CpusOf(r[u]) <= live[u] && KnownCpus(v, r[u])
  }

  lemma AllottedAdmissible(s: PodState, live: map<string, set<nat>>, q: Request, n: nat)
    requires Backed(s.view, s.recorded, live) && q.Reconcile? && Allotted(s.view, live, q) && n <= |q.containers|
    ensures Admissible(s, Create(q.uid, q.containers))
    ensures (forall k | 0 <= k < n :: !Waits(s.view, q.containers[k])) ==> Admissible(s, Requeue(q.uid, q.containers, n))
  {
    forall u, k: nat, id: nat | u != q.uid && Owns(s.recorded, u, k, id)
      ensures !UsesAny(q.containers, id)
    {
      assert UsesAny(s.recorded[u], id);
      InCpusOf(s.recorded[u], id);
      InCpusOf(q.containers, id);
    }
  }

  lemma LogMore(s: PodState, log: seq<Event>, e: Event)
    requires AllAdmissible(s, log) && Admissible(AfterAll(s, log), e)
    ensures AllAdmissible(s, log + [e]) && AfterAll(s, log + [e]) == After(AfterAll(s, log), e)
  {
    assert (log + [e])[..|log|] == log;
    forall k | 0 <= k < |log + [e]|
      ensures Admissible(AfterAll(s, (log + [e])[..k]), (log + [e])[k])
    {
      assert k < |log| ==> (log + [e])[..k] == log[..k];
    }
  }

  /** The run so far is the logged one. */
  ghost predicate Logged(s: PodState, log: seq<Event>, pools: set<string>, t: PodState) {
    AllAdmissible(s, log) && t == AfterAll(s, log) && Held(t, pools)
  }

  lemma LoggedMore(s: PodState, log: seq<Event>, pools: set<string>, t: PodState, e: Event)
    requires Logged(s, log, pools, t) && Admissible(t, e)
    ensures Logged(s, log + [e], pools, After(t, e))
  {
    LogMore(s, log, e);
    Step(t, e, pools);
  }

  function EventOf(outcome: Outcome, uid: string, cs: seq<Container>, tried: nat): (e: Event) {
    if outcome == Completed || outcome == Reported then Create(uid, cs) else Requeue(uid, cs, tried)
  }

  ghost predicate Answers(e: Event, q: Request) {
    match q
    case Reconcile(uid, cs, _, _, _) => (e.Create? || e.Requeue?) && e.uid == uid && e.containers == cs
    case Deletion(uid) => e == Delete(uid)
    case StateLoss => e == Lost
  }

  /** One request, and the event it comes to. The status of a deletion can be written. */
  method Serve(r: PowerPodReconciler, q: Request, ghost live: map<string, set<nat>>) returns (ghost e: Event)
    requires r.library.Valid()
    modifies r.library`st, r.library`faults, r.library`failedWrites, r`recorded
    ensures r.library.Valid() && old(r.library.faults) <= r.library.faults
    ensures r.library.st.view.profiles == old(r.library.st.view).profiles
    ensures r.library.faults == old(r.library.faults) && Allotted(old(r.library.st.view), live, q) &&
            Backed(old(r.library.st.view), old(r.recorded), live) ==>
              && Admissible(PodState(old(r.library.st.view), old(r.recorded)), e)
              && PodState(r.library.st.view, r.recorded) == After(PodState(old(r.library.st.view), old(r.recorded)), e)
    ensures Answers(e, q)
    ensures old(r.library.failedWrites) <= r.library.failedWrites
    ensures r.library.faults == old(r.library.faults) || r.library.Excuse(old(r.library.failedWrites), old(r.library.st.view))
  {
    ghost var s := PodState(r.library.st.view, r.recorded);
    match q {
      case Reconcile(uid, containers, otherErrors, unreadable, statusOk) =>
        var outcome;
        ghost var tried;
        outcome, tried := r.ReconcilePod(uid, containers, otherErrors, unreadable, statusOk);
        e := EventOf(outcome, uid, containers, tried);
        if Allotted(s.view, live, q) && Backed(s.view, s.recorded, live) {
          AllottedAdmissible(s, live, q, tried);
        }
      case Deletion(uid) =>
        var outcome := r.HandlePodDeletion(uid, true);
        e := Delete(uid);
      case StateLoss =>
        r.LoseNodeState();
        e := Lost;
    }
  }

  /** What is on record after a request is backed by the pods that are live then. */
  lemma BackedNext(s: PodState, live: map<string, set<nat>>, q: Request, e: Event)
    requires Backed(s.view, s.recorded, live) && Allotted(s.view, live, q) && Answers(e, q)
    ensures |After(s, e).view.homes| == |s.view.homes|
    ensures Backed(After(s, e).view, After(s, e).recorded, LiveNext(live, q))
  {
  }

  /** A pod that has been recorded is not made to wait by a second reconcile with the same
      containers, which changes nothing. */
  method ReconcileTwice(r: PowerPodReconciler, uid: string, cs: seq<Container>, otherErrors: bool, unreadable: nat, statusOk: bool)
    returns (first: Outcome, second: Outcome, ghost between: PodState)
    requires r.library.Valid()
    modifies r.library`st, r.library`faults, r.library`failedWrites, r`recorded
    ensures r.library.Valid()
    ensures r.library.faults == old(r.library.faults) && Disjoint(cs) && (first == Completed || first == Reported) ==>
              && second == first
              && uid in r.recorded && r.recorded[uid] == cs
              && PodState(r.library.st.view, r.recorded) == between
  {
    ghost var v, tried := r.library.st.view, 0;
    first, tried := r.ReconcilePod(uid, cs, otherErrors, unreadable, statusOk);
    ghost var w := r.library.st.view;
    between := PodState(w, r.recorded);
    if ThereNow(v, cs, w.homes) && w.profiles == v.profiles {
      ThereStays(v, w, cs);
    }
    second, tried := r.ReconcilePod(uid, cs, otherErrors, |cs|, true);
    if r.library.faults == old(r.library.faults) && Disjoint(cs) && (first == Completed || first == Reported) {
      SameHomes(v, w, cs, r.library.st.view.homes);
    }
  }

  /** What is there is ready to be reconciled again. */
  lemma ThereStays(v: View, w: View, cs: seq<Container>)
    requires ThereNow(v, cs, w.homes) && w.profiles == v.profiles
    ensures Ready(w, cs, InShared)
  {
    assert forall k: nat, id: nat :: Wants(w, cs, k, id) <==> Wants(v, cs, k, id);
  }

  lemma SameHomes(v: View, w: View, cs: seq<Container>, homes: seq<Home>)
    requires ThereNow(v, cs, w.homes) && w.profiles == v.profiles && ThereNow(w, cs, homes)
    ensures homes == w.homes
  {
    forall id: nat | id < |homes|
      ensures homes[id] == w.homes[id]
    {
      if k: nat :| Wants(v, cs, k, id) {
        assert Wants(w, cs, k, id);
      } else {
        assert forall k: nat :: Wants(w, cs, k, id) <==> Wants(v, cs, k, id);
      }
    }
  }

  /** A reconcile that waits for CPUs in the reserved pool goes through once that has been
      drained into the shared pool, as configuring the shared pool does. */
  method RetryAfterSharing(r: PowerPodReconciler, uid: string, cs: seq<Container>, otherErrors: bool, unreadable: nat, statusOk: bool)
    returns (first: Outcome, second: Outcome)
    requires r.library.Valid()
    modifies r.library`st, r.library`faults, r.library`failedWrites, r`recorded
    ensures r.library.Valid()
    ensures r.library.faults == old(r.library.faults) && Disjoint(cs) && Ready(old(r.library.st.view), cs, InReserved) ==>
              && (second == Completed || second == Reported)
              && uid in r.recorded && r.recorded[uid] == cs
              && forall k: nat, id: nat | Wants(old(r.library.st.view), cs, k, id) ::
                   id < |r.library.st.view.homes| && r.library.st.view.homes[id] == InPool(cs[k].profile)
  {
    ghost var v, tried, done := r.library.st.view, 0, 0;
    var ok;
    first, tried := r.ReconcilePod(uid, cs, otherErrors, unreadable, statusOk);
    ok, done := r.library.SetCPUIDs(InReserved, []);
    ghost var x, clean := r.library.st.view, r.library.faults == old(r.library.faults);
    if clean && Disjoint(cs) && Ready(v, cs, InReserved) {
      ReadyOnceShared(v, cs, tried, first);
    }
    second, tried := r.ReconcilePod(uid, cs, otherErrors, |cs|, true);
    if ThereNow(x, cs, r.library.st.view.homes) && x.profiles == v.profiles {
      ThereFor(v, x, cs, r.library.st.view.homes);
    }
  }

  lemma ThereFor(v: View, x: View, cs: seq<Container>, homes: seq<Home>)
    requires ThereNow(x, cs, homes) && x.profiles == v.profiles
    ensures forall k: nat, id: nat | Wants(v, cs, k, id) :: id < |homes| && homes[id] == InPool(cs[k].profile)
  {
    assert forall k: nat, id: nat | Wants(v, cs, k, id) :: Wants(x, cs, k, id);
  }

  /** After a first attempt, however far it got, and once reserved is empty, nothing is left
      to wait for. */
  lemma ReadyOnceShared(v: View, cs: seq<Container>, n: nat, outcome: Outcome)
    requires Disjoint(cs) && Ready(v, cs, InReserved) && n <= |cs|
    ensures var w := if outcome == Completed || outcome == Reported then Placed(v, cs) else Placed(v, cs[..n]);
            Ready(w.SetMembers([], InReserved), cs, InShared)
  {
    var m := if outcome == Completed || outcome == Reported then |cs| else n;
    var w := Placed(v, cs[..m]);
    assert cs[..|cs|] == cs;
    PlacedHomes(v, cs, m);
    var x := w.SetMembers([], InReserved);
    forall k: nat, id: nat | Wants(x, cs, k, id)
      ensures id < |x.homes| && (x.homes[id] == InShared || x.homes[id] == InPool(cs[k].profile))
    {
      assert Wants(v, cs, k, id) && Uses(cs, k, id) && Takes(v, cs[k]);
      TakenOrNot(v, cs, m, k, id);
    }
  }

  lemma TakenOrNot(v: View, cs: seq<Container>, n: nat, k: nat, id: nat)
    requires Disjoint(cs) && n <= |cs| && Uses(cs, k, id) && Takes(v, cs[k]) && id < |v.homes|
    ensures Placed(v, cs[..n]).homes[id] == if k < n then InPool(cs[k].profile) else v.homes[id]
  {
    PlacedHomes(v, cs, n);
    if n <= k {
      assert !TakenBy(v, cs, n, id);
    }
  }

  /** The run so far is the logged one, and its record is backed. */
  ghost predicate Served(s: PodState, log: seq<Event>, requests: seq<Request>, pools: set<string>, t: PodState) {
    && Logged(s, log, pools, t) && |t.view.homes| == |s.view.homes| && Backed(t.view, t.recorded, Live(requests))
  }

  lemma ServedMore(s: PodState, log: seq<Event>, requests: seq<Request>, n: nat, pools: set<string>, t: PodState, e: Event)
    requires n < |requests| && Served(s, log, requests[..n], pools, t) && AllAllotted(s.view, requests)
    requires Answers(e, requests[n]) && Admissible(t, e)
    ensures Served(s, log + [e], requests[..n + 1], pools, After(t, e))
  {
    assert requests[..n + 1][..n] == requests[..n];
    LoggedMore(s, log, pools, t, e);
    SameSize(s.view, t.view, Live(requests[..n]), requests[n]);
    BackedNext(t, Live(requests[..n]), requests[n], e);
  }

  lemma SameSize(v: View, w: View, live: map<string, set<nat>>, q: Request)
    requires |v.homes| == |w.homes| && Allotted(v, live, q)
    ensures Allotted(w, live, q)
  {
  }

  ghost predicate Answered(log: seq<Event>, requests: seq<Request>, n: nat)
    requires n <= |requests|
  {
    |log| == n && forall k | 0 <= k < n :: Answers(log[k], requests[k])
  }

  /** Where a run stands after n requests, from the given state and counts. */
  ghost predicate Running(r: PowerPodReconciler, s: PodState, faults: nat, writes: nat, requests: seq<Request>, n: nat,
                          log: seq<Event>, pools: set<string>)
    requires n <= |requests|
    reads r, r.library
  {
    && Answered(log, requests, n)
    && faults <= r.library.faults && writes <= r.library.failedWrites
    && (r.library.faults == faults || r.library.Excuse(writes, s.view))
    && r.library.st.view.profiles == s.view.profiles
    && (r.library.faults == faults ==> Served(s, log, requests[..n], pools, PodState(r.library.st.view, r.recorded)))
  }

  /** The next request. */
  method ServeNext(r: PowerPodReconciler, ghost s: PodState, ghost faults: nat, ghost writes: nat, requests: seq<Request>, n: nat,
                   ghost log: seq<Event>, ghost pools: set<string>) returns (ghost more: seq<Event>)
    requires r.library.Valid() && n < |requests| && AllAllotted(s.view, requests)
    requires Running(r, s, faults, writes, requests, n, log, pools)
    modifies r.library`st, r.library`faults, r.library`failedWrites, r`recorded
    ensures r.library.Valid() && Running(r, s, faults, writes, requests, n + 1, more, pools)
  {
    ghost var t, live := PodState(r.library.st.view, r.recorded), Live(requests[..n]);
    if r.library.faults == faults {
      SameSize(s.view, t.view, live, requests[n]);
    }
    ghost var e := Serve(r, requests[n], live);
    more := log + [e];
    if r.library.faults == faults {
      ServedMore(s, log, requests, n, pools, t, e);
    }
  }

  /** Any run of reconciles and deletions of pods with disjoint CPUs, in which no write
      fails and every profile can be met, is a run of the events above: recorded CPUs sit
      in their pools, and the CPUs that pools hold beyond the record are exactly the
      strays of that run. CPUs may be handed out again once their pod is deleted,
      containers may change, have errors or name profiles without a pool, and a reconcile
      may be cut short anywhere. */
  method ServeAll(r: PowerPodReconciler, requests: seq<Request>, ghost pools: set<string>)
    returns (ghost log: seq<Event>)
    requires r.library.Valid() && r.recorded == map[] && AllAllotted(r.library.st.view, requests)
    requires forall n | n in pools :: InPool(n) in r.library.st.view.profiles
    modifies r.library`st, r.library`faults, r.library`failedWrites, r`recorded
    ensures r.library.Valid() && |log| == |requests| && forall k | 0 <= k < |log| :: Answers(log[k], requests[k])
    ensures r.library.failedWrites == old(r.library.failedWrites) && AllFeasible(old(r.library.st.view).profiles, r.library.platform) ==>
              r.library.faults == old(r.library.faults)
    ensures r.library.faults == old(r.library.faults) ==>
              var s := PodState(old(r.library.st.view), map[]);
              && Logged(s, log, pools, PodState(r.library.st.view, r.recorded))
              && forall id: nat :: IsStray(PodState(r.library.st.view, r.recorded), pools, id) <==> StrayAfterAll(s, pools, log, id)
  {
    ghost var s, faults, writes := PodState(r.library.st.view, r.recorded), r.library.faults, r.library.failedWrites;
    log := [];
    for i := 0 to |requests|
      invariant r.library.Valid() && Running(r, s, faults, writes, requests, i, log, pools)
    {
      log := ServeNext(r, s, faults, writes, requests, i, log, pools);
    }
    if r.library.faults == faults {
      StraysExact(s, log, pools);
    }
  }
}
