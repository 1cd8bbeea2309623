/** Who is where: the pool of every CPU, and the profile of every registered
    pool. Each pool operation is a function on views. */
module Views {
  import opened Text
  import opened Settings

  /** A registered pool. Exclusive pool names are unique, so a name identifies one. */
  datatype Home = InReserved | InShared | InPool(name: string)

  /** Where evicted CPUs go: to shared, except that shared evicts to reserved. */
  function Neighbour(pool: Home): (r: Home) {
    if pool == InShared then InReserved else InShared
  }

  datatype View = View(homes: seq<Home>, profiles: map<Home, Option<Profile>>)
  {
    ghost predicate Ok() {
      && InReserved in profiles && profiles[InReserved] == None && InShared in profiles
      && forall i | 0 <= i < |homes| :: homes[i] in profiles
    }

    predicate Known(ids: seq<nat>) {
      forall k | 0 <= k < |ids| :: ids[k] < |homes|
    }

    /** Moves are reserved <-> shared <-> exclusive only. */
    predicate CanMove(id: nat, to: Home)
      requires id < |homes|
    {
      homes[id] == to || to == InShared || homes[id] == InShared
    }

    predicate CanMoveAll(ids: seq<nat>, to: Home)
      requires Known(ids)
    {
      forall k | 0 <= k < |ids| :: CanMove(ids[k], to)
    }

    /** No CPU went from one pool to another with neither of them shared. */
    ghost predicate Reaches(w: View) {
      && |w.homes| == |homes|
      && forall i | 0 <= i < |homes| :: w.homes[i] == homes[i] || w.homes[i] == InShared || homes[i] == InShared
    }

    /** Every listed CPU is put into one pool. */
    function Move(ids: seq<nat>, to: Home): (r: View) {
      this.(homes := seq(|homes|, id requires 0 <= id < |homes| => if id in ids then to else homes[id]))
    }

    /** The membership of one pool becomes the listed CPUs: they come in, the
        others leave to the pool next to it. Only CPUs below `done` are processed. */
    function Replace(ids: seq<nat>, pool: Home, done: nat): (r: View) {
      this.(homes := seq(|homes|, id requires 0 <= id < |homes| =>
        if done <= id then homes[id]
        else if id in ids then pool
        else if homes[id] == pool then Neighbour(pool)
        else homes[id]))
    }

    function SetMembers(ids: seq<nat>, pool: Home): (r: View) {
      Replace(ids, pool, |homes|)
    }

    function SetProfile(pool: Home, profile: Option<Profile>): (r: View) {
      this.(profiles := profiles[pool := profile])
    }

    function Drop(pool: Home): (r: View) {
      this.(profiles := profiles - {pool})
    }
  }

  /** A pool's membership becomes exactly the listed CPUs; evicted CPUs go next door,
      and no other CPU moves. */
  lemma SetMembersExact(v: View, ids: seq<nat>, pool: Home)
    ensures var w := v.SetMembers(ids, pool);
            && |w.homes| == |v.homes| && w.profiles == v.profiles
            && (forall id: nat | id < |v.homes| :: w.homes[id] == pool <==> id in ids)
            && (forall id: nat | id < |v.homes| && id !in ids :: w.homes[id] == if v.homes[id] == pool then Neighbour(pool) else v.homes[id])
  {
  }

  /** A drained pool is empty and can go without anyone moving again. */
  lemma Drained(v: View, pool: Home)
    requires pool.InPool?
    ensures forall id | 0 <= id < |v.homes| :: v.SetMembers([], pool).homes[id] != pool
    ensures v.Reaches(v.SetMembers([], pool).Drop(pool))
    ensures v.CanMoveAll([], pool)
  {
  }

  lemma MoveOneMore(v: View, ids: seq<nat>, k: nat, to: Home)
    requires k < |ids|
    ensures v.Move(ids[..k], to).Move([ids[k]], to) == v.Move(ids[..k + 1], to)
  {
    var a, b := v.Move(ids[..k], to).Move([ids[k]], to).homes, v.Move(ids[..k + 1], to).homes;
    forall i | 0 <= i < |a|
      ensures a[i] == b[i]
    {
      assert i in ids[..k + 1] <==> i in ids[..k] || i == ids[k];
    }
  }

  lemma MoveNone(v: View, to: Home)
    ensures v.Move([], to) == v
  {
    assert v.Move([], to).homes == v.homes;
  }

  lemma ReplaceNone(v: View, ids: seq<nat>, pool: Home)
    ensures v.Replace(ids, pool, 0) == v
  {
    assert v.Replace(ids, pool, 0).homes == v.homes;
  }

  /** Processing one more CPU: bring it in, evict it, or leave it alone. */
  lemma ReplaceOneMore(v: View, ids: seq<nat>, pool: Home, k: nat)
    requires k < |v.homes|
    ensures var before := v.Replace(ids, pool, k);
            && before.homes[k] == v.homes[k]
            && v.Replace(ids, pool, k + 1) ==
                 if k in ids then before.Move([k], pool)
                 else if v.homes[k] == pool then before.Move([k], Neighbour(pool))
                 else before
  {
    var before, after := v.Replace(ids, pool, k), v.Replace(ids, pool, k + 1);
    assert k in ids ==> after.homes == before.Move([k], pool).homes;
    assert k !in ids && v.homes[k] == pool ==> after.homes == before.Move([k], Neighbour(pool)).homes;
    assert k !in ids && v.homes[k] != pool ==> after.homes == before.homes;
  }

  lemma MoveReaches(v: View, ids: seq<nat>, to: Home)
    requires forall k | 0 <= k < |ids| && ids[k] < |v.homes| :: v.CanMove(ids[k], to)
    ensures v.Reaches(v.Move(ids, to))
  {
  }

  ghost predicate CanMovePrefix(v: View, ids: seq<nat>, n: nat, to: Home)
    requires v.Known(ids)
  {
    forall k | 0 <= k < n <= |ids| :: v.CanMove(ids[k], to)
  }

  /** A prefix of the CPUs moves, if each of them may. */
  lemma PrefixReaches(v: View, ids: seq<nat>, n: nat, to: Home)
    requires v.Known(ids) && n <= |ids| && CanMovePrefix(v, ids, n, to)
    ensures v.Reaches(v.Move(ids[..n], to))
    ensures n == |ids| ==> v.CanMoveAll(ids, to) && ids[..n] == ids
  {
    MoveReaches(v, ids[..n], to);
  }

  ghost predicate CanMoveBelow(v: View, ids: seq<nat>, n: nat, to: Home)
    requires v.Known(ids)
  {
    forall k | 0 <= k < |ids| && ids[k] < n :: v.CanMove(ids[k], to)
  }

  /** The listed CPUs below n are replaced, if each of them may move. */
  lemma BelowReaches(v: View, ids: seq<nat>, n: nat, to: Home)
    requires v.Known(ids) && n <= |v.homes| && CanMoveBelow(v, ids, n, to)
    ensures v.Reaches(v.Replace(ids, to, n))
    ensures n == |v.homes| ==> v.CanMoveAll(ids, to)
    ensures n < |v.homes| ==> (CanMoveBelow(v, ids, n + 1, to) <==> (n in ids ==> v.CanMove(n, to)))
    ensures n < |v.homes| && n in ids && !v.CanMove(n, to) ==> !v.CanMoveAll(ids, to)
  {
    ReplaceReaches(v, ids, to, n);
  }

  lemma ReplaceReaches(v: View, ids: seq<nat>, pool: Home, done: nat)
    requires forall k | k in ids && k < done && k < |v.homes| :: v.CanMove(k, pool)
    ensures v.Reaches(v.Replace(ids, pool, done))
  {
  }

  /** Every profile some pool carries can be met on every CPU of the machine. */
  ghost predicate AllFeasible(profiles: map<Home, Option<Profile>>, platform: Platform) {
    forall h | h in profiles :: FeasibleEverywhere(platform, profiles[h])
  }

  lemma FeasiblePool(profiles: map<Home, Option<Profile>>, platform: Platform, pool: Home)
    requires pool in profiles
    ensures AllFeasible(profiles, platform) ==> FeasibleEverywhere(platform, profiles[pool])
  {
  }

  lemma FewerFeasible(before: map<Home, Option<Profile>>, after: map<Home, Option<Profile>>, platform: Platform)
    requires forall h | h in after :: h in before && after[h] == before[h]
    ensures AllFeasible(before, platform) ==> AllFeasible(after, platform)
  {
  }

  /** A pool that takes another pool's profile brings nothing new. */
  lemma CopiedFeasible(profiles: map<Home, Option<Profile>>, platform: Platform, pool: Home, source: Home)
    requires source in profiles
    ensures AllFeasible(profiles, platform) ==> AllFeasible(profiles[pool := profiles[source]], platform)
  {
    FeasiblePool(profiles, platform, source);
  }

  /** Nor does one without a profile, since the reserved pool has none. */
  lemma NoneFeasible(v: View, platform: Platform, pool: Home)
    requires v.Ok()
    ensures AllFeasible(v.profiles, platform) ==> AllFeasible(v.profiles[pool := None], platform)
  {
    CopiedFeasible(v.profiles, platform, pool, InReserved);
  }
}
