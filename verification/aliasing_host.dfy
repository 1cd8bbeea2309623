/** The replay of the cleanup on real slices, applied to the lists of a host: what it
    needs is what a valid host provides, and what it leaves is what the host's lists are
    after the cleanup. */
module AliasingHost {
  import opened Aliasing
  import opened NodeConfigViews
  import opened Pools
  import opened Slices
  import opened Views

  /** The CPUs of a pool in the order in which draining it visits them. */
  function DrainOrder(homes: seq<Home>, pool: Home, n: nat): (r: seq<nat>)
    requires n <= |homes|
  {
    if n == 0 then []
    else if homes[n - 1] == pool then DrainOrder(homes, pool, n - 1) + [n - 1]
    else DrainOrder(homes, pool, n - 1)
  }

  lemma {:induction false} DrainOrderBelow(homes: seq<Home>, pool: Home, n: nat)
    requires n <= |homes|
    ensures NoDup(DrainOrder(homes, pool, n))
    ensures forall c :: c in DrainOrder(homes, pool, n) <==> 0 <= c < n && homes[c] == pool
  {
    if n > 0 {
      DrainOrderBelow(homes, pool, n - 1);
      NoDupSnoc<nat>(DrainOrder(homes, pool, n - 1), n - 1);
    }
  }

  /** Two lists of one pool hold the same CPUs in some order. */
  lemma ListsPermute(a: seq<nat>, b: seq<nat>, homes: seq<Home>, pool: Home)
    requires ListOf(a, homes, pool) && ListOf(b, homes, pool)
    ensures multiset(a) == multiset(b)
  {
    AtMostOnce(a);
    AtMostOnce(b);
    forall x
      ensures multiset(a)[x] == multiset(b)[x]
    {
      assert x in a <==> x in multiset(a);
      assert x in b <==> x in multiset(b);
    }
  }

  /** The lists of the chosen pools among the first n names, as they stand. */
  function ChosenLists(chosen: set<Home>, names: seq<string>, n: nat, lists: map<Home, seq<nat>>): (r: seq<seq<nat>>)
    requires n <= |names| && forall m | m in names :: InPool(m) in lists
  {
    if n == 0 then []
    else
      var init := ChosenLists(chosen, names, n - 1, lists);
      if InPool(names[n - 1]) in chosen then init + [lists[InPool(names[n - 1])]] else init
  }

  /** The same pools, as draining visits their CPUs. */
  function ChosenDrained(chosen: set<Home>, names: seq<string>, n: nat, homes: seq<Home>): (r: seq<seq<nat>>)
    requires n <= |names|
  {
    if n == 0 then []
    else
      var init := ChosenDrained(chosen, names, n - 1, homes);
      if InPool(names[n - 1]) in chosen then init + [DrainOrder(homes, InPool(names[n - 1]), |homes|)] else init
  }

  lemma {:induction false} ChosenListsPermute(v: View, lists: map<Home, seq<nat>>, chosen: set<Home>, names: seq<string>, n: nat)
    requires Partitioned(v, lists) && Registered(names, v) && n <= |names|
    ensures var (p, d) := (ChosenLists(chosen, names, n, lists), ChosenDrained(chosen, names, n, v.homes));
            |p| == |d| && forall k | 0 <= k < |p| :: multiset(p[k]) == multiset(d[k])
  {
    if n > 0 {
      ChosenListsPermute(v, lists, chosen, names, n - 1);
      var pool := InPool(names[n - 1]);
      assert names[n - 1] in names && pool in lists;
      DrainOrderBelow(v.homes, pool, |v.homes|);
      ListsPermute(lists[pool], DrainOrder(v.homes, pool, |v.homes|), v.homes, pool);
    }
  }

  lemma ConcatSnoc(parts: seq<seq<nat>>, part: seq<nat>)
    ensures Concat(parts + [part]) == Concat(parts) + part
  {
    assert (parts + [part])[..|parts|] == parts;
  }

  /** Draining one more pool makes its CPUs shared. */
  lemma DrainedIsShared(v: View, gone: set<Home>, pool: Home, before: seq<nat>)
    requires ListOf(before, Evicted(v, gone).homes, InShared) && pool !in gone && pool != InShared
    ensures ListOf(before + DrainOrder(v.homes, pool, |v.homes|), Evicted(v, gone + {pool}).homes, InShared)
  {
    var part := DrainOrder(v.homes, pool, |v.homes|);
    DrainOrderBelow(v.homes, pool, |v.homes|);
    NoDupAppend(before, part);
    var homes := Evicted(v, gone + {pool}).homes;
    forall c
      ensures c in before + part <==> 0 <= c < |homes| && homes[c] == InShared
    {
      assert c in before + part <==> c in before || c in part;
    }
  }

  function ChosenAmong(chosen: set<Home>, names: seq<string>): (r: set<Home>) {
    set h | h in chosen && h.InPool? && h.name in names
  }

  /** The shared CPUs and those of the chosen pools among the first n names: each once,
      and exactly those that are shared once these pools are gone. */
  ghost predicate GatheredOnce(v: View, shared: seq<nat>, chosen: set<Home>, names: seq<string>, n: nat)
    requires n <= |names|
  {
    ListOf(shared + Concat(ChosenDrained(chosen, names, n, v.homes)), Evicted(v, ChosenAmong(chosen, names[..n])).homes, InShared)
  }

  lemma NoneDrained(v: View, shared: seq<nat>, chosen: set<Home>, names: seq<string>)
    requires ListOf(shared, v.homes, InShared)
    ensures GatheredOnce(v, shared, chosen, names, 0)
  {
    EvictNone(v);
    assert ChosenAmong(chosen, names[..0]) == {};
    assert shared + Concat(ChosenDrained(chosen, names, 0, v.homes)) == shared;
  }

  lemma NextDrained(v: View, shared: seq<nat>, chosen: set<Home>, names: seq<string>, n: nat)
    requires NoDup(names) && n < |names| && GatheredOnce(v, shared, chosen, names, n)
    ensures GatheredOnce(v, shared, chosen, names, n + 1)
  {
    var pool, init := InPool(names[n]), ChosenDrained(chosen, names, n, v.homes);
    NoDupAt(names, n);
    assert forall m :: m in names[..n + 1] <==> m in names[..n] || m == names[n];
    assert ChosenAmong(chosen, names[..n + 1]) == ChosenAmong(chosen, names[..n]) + if pool in chosen then {pool} else {};
    if pool in chosen {
      DrainedIsShared(v, ChosenAmong(chosen, names[..n]), pool, shared + Concat(init));
      ConcatSnoc(init, DrainOrder(v.homes, pool, |v.homes|));
      assert (shared + Concat(init)) + DrainOrder(v.homes, pool, |v.homes|) ==
             shared + (Concat(init) + DrainOrder(v.homes, pool, |v.homes|));
    }
  }

  lemma MovedOnce(v: View, shared: seq<nat>, chosen: set<Home>, names: seq<string>, n: nat)
    requires ListOf(shared, v.homes, InShared) && NoDup(names) && n <= |names|
    ensures GatheredOnce(v, shared, chosen, names, n)
  {
    NoneDrained(v, shared, chosen, names);
    for i := 0 to n
      invariant GatheredOnce(v, shared, chosen, names, i)
    {
      NextDrained(v, shared, chosen, names, i);
    }
  }

  /** The cleanup on the slices of a valid host, whatever their capacities: the two lists
      it leaves are those of the cleaned-up view. */
  method CleanupOfHost(v: View, lists: map<Home, seq<nat>>, names: seq<string>, node: string, shared: Slice<nat>, reserved: Slice<nat>)
    returns (shared': Slice<nat>, reserved': Slice<nat>)
    requires Partitioned(v, lists) && Registered(names, v)
    requires shared.Ok() && reserved.Ok() && shared.arr != reserved.arr
    requires shared.Elems() == lists[InShared] && reserved.Elems() == lists[InReserved]
    modifies shared.arr, reserved.arr
    ensures shared'.Ok() && reserved'.Ok()
    ensures ListOf(shared'.Elems(), CleanedUp(v, node).homes, InShared)
    ensures ListOf(reserved'.Elems(), CleanedUp(v, node).homes, InReserved)
  {
    var chosen := PseudoPools(node, v);
    var pools := ChosenLists(chosen, names, |names|, lists);
    var drained := ChosenDrained(chosen, names, |names|, v.homes);
    ghost var all := lists[InShared] + Concat(drained);
    ChosenListsPermute(v, lists, chosen, names, |names|);
    MovedOnce(v, lists[InShared], chosen, names, |names|);
    assert names[..|names|] == names && ChosenAmong(chosen, names) == chosen;
    shared', reserved' := CleanupLists(shared, reserved, pools, drained);
    ReservedGains(v, node, lists[InReserved], all, reserved'.Elems());
  }

  lemma ReservedGains(v: View, node: string, reserved: seq<nat>, moved: seq<nat>, after: seq<nat>)
    requires v.Ok() && ListOf(reserved, v.homes, InReserved)
    requires ListOf(moved, Evicted(v, PseudoPools(node, v)).homes, InShared)
    requires multiset(after) == multiset(reserved) + multiset(moved)
    ensures ListOf(after, CleanedUp(v, node).homes, InReserved)
  {
    assert forall x | x in reserved :: x !in moved;
    NoDupAppend(reserved, moved);
    assert multiset(reserved + moved) == multiset(after);
    SameMembers(reserved + moved, after);
  }
}
