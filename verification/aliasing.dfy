/** The CPU lists as the slices they are. Loops in the source range over slice
    headers captured before the loop, while the body removes from, or appends to, a
    list in the same backing array. These methods replay that on real arrays and
    justify reading such a range as the elements the header had at the start. */
module Aliasing {
  import opened Slices

  /** A move on its way: the first i of the CPUs to move have left their list and
      joined the target's, and no slot ahead of the loop has been written. */
  ghost predicate OnTheWay(before: seq<nat>, all: seq<nat>, start: seq<nat>, left: Slice<nat>, joined: Slice<nat>, header: Slice<nat>, i: nat)
    requires i <= |all|
    reads left.arr, joined.arr, header.arr
  {
    && left.Ok() && Rest(left.Elems(), before, all[..i])
    && header.Ok() && header.len == |all| && (forall k | i <= k < |all| :: header.arr[k] == all[k])
    && joined.Ok() && joined.arr != left.arr && joined.arr != header.arr
    && joined.Elems() == start + all[..i]
  }

  /** One round of moveCpus: the CPU just read leaves its list and joins the target's. */
  method MoveNext(ghost before: seq<nat>, ghost all: seq<nat>, ghost start: seq<nat>,
                  left: Slice<nat>, joined: Slice<nat>, header: Slice<nat>, i: nat)
    returns (left': Slice<nat>, joined': Slice<nat>)
    requires i < |all| && NoDup(all) && all[i] in before && OnTheWay(before, all, start, left, joined, header, i)
    modifies left.arr, joined.arr
    ensures left'.arr == left.arr && (joined'.arr == joined.arr || fresh(joined'.arr))
    ensures OnTheWay(before, all, start, left', joined', header, i + 1)
  {
    var cpu := header.arr[i];
    assert all[..i + 1] == all[..i] + [cpu];
    ghost var list := left.Elems();
    NotYet(list, before, all, i);
    var removed;
    ghost var index;
    removed, left', index := Remove(left, cpu);
    RestShrinks(list, before, all, i, index);
    joined' := Append(joined, [cpu]);
  }

  /** The CPU whose new profile fails goes back to the end of its list. */
  method PutBack(ghost before: seq<nat>, ghost gone: seq<nat>, left: Slice<nat>, cpu: nat) returns (left': Slice<nat>)
    requires left.Ok() && Rest(left.Elems(), before, gone) && cpu in left.Elems()
    modifies left.arr
    ensures left'.Ok() && left'.arr == left.arr && Rest(left'.Elems(), before, gone)
    ensures left'.len > 0 && left'.Elems()[left'.len - 1] == cpu
  {
    ghost var list := left.Elems();
    var removed;
    ghost var index;
    removed, left', index := Remove(left, cpu);
    SwapRemovedElements(list, index);
    NoDupSnoc(left'.Elems(), cpu);
    left' := Append(left', [cpu]);
  }

  /** moveCpus (reserved.MoveCpus(*shared.Cpus()) and the like). The captured header may
      be the source list itself. The slot a removal overwrites never lies ahead of the
      loop, so every original element is read once. `stop` is the position of the first
      CPU whose profile cannot be applied, or the header's length. */
  method MoveRange(source: Slice<nat>, target: Slice<nat>, header: Slice<nat>, stop: nat)
    returns (left: Slice<nat>, joined: Slice<nat>)
    requires source.Ok() && target.Ok() && header.Ok() && stop <= header.len
    requires target.arr != source.arr && target.arr != header.arr
    requires NoDup(source.Elems()) && NoDup(header.Elems())
    requires forall x | x in header.Elems() :: x in source.Elems()
    modifies source.arr, target.arr
    ensures left.Ok() && left.arr == source.arr && Rest(left.Elems(), old(source.Elems()), old(header.Elems())[..stop])
    ensures joined.Ok() && joined.Elems() == old(target.Elems()) + old(header.Elems())[..stop]
    // The CPU it stopped at stands last now.
    ensures stop < header.len ==> left.len > 0 && left.Elems()[left.len - 1] == old(header.Elems())[stop]
  {
    left, joined := source, target;
    ghost var before, all, start := source.Elems(), header.Elems(), target.Elems();
    for i := 0 to stop
      invariant left.arr == source.arr && (joined.arr == target.arr || fresh(joined.arr))
      invariant OnTheWay(before, all, start, left, joined, header, i)
    {
      left, joined := MoveNext(before, all, start, left, joined, header, i);
    }
    if stop < header.len {
      var cpu := header.arr[stop];
      NotYet(left.Elems(), before, all, stop);
      left := PutBack(before, all[..stop], left, cpu);
    }
  }

  /** What is left of a list once some CPUs have gone. */
  ghost predicate Rest(list: seq<nat>, before: seq<nat>, gone: seq<nat>) {
    NoDup(list) && forall x :: x in list <==> x in before && x !in gone
  }

  lemma NotYet(list: seq<nat>, before: seq<nat>, all: seq<nat>, i: nat)
    requires i < |all| && NoDup(all) && all[i] in before && Rest(list, before, all[..i])
    ensures all[i] in list
  {
    NoDupAt(all, i);
  }

  lemma RestShrinks(list: seq<nat>, before: seq<nat>, all: seq<nat>, i: nat, index: nat)
    requires i < |all| && Rest(list, before, all[..i]) && index < |list| && list[index] == all[i]
    ensures Rest(SwapRemoved(list, index), before, all[..i + 1])
  {
    SwapRemovedElements(list, index);
    assert forall x :: x in all[..i + 1] <==> x in all[..i] || x == all[i];
  }

  /** The list of cores to move and the shared pool's list hold the same CPUs; they
      may or may not be the same slice. */
  ghost predicate InStep(moved: Slice<nat>, shared: Slice<nat>)
    reads moved.arr, shared.arr
  {
    && moved.Ok() && shared.Ok() && moved.len == shared.len
    && multiset(moved.Elems()) == multiset(shared.Elems())
  }

  /** Appending CPUs one at a time, as draining a pool does. */
  method AppendEach(s: Slice<nat>, cpus: seq<nat>) returns (r: Slice<nat>)
    requires s.Ok()
    modifies s.arr
    ensures r.Ok() && r.Elems() == old(s.Elems()) + cpus
    ensures s.len + |cpus| <= s.arr.Length ==> r.arr == s.arr
    ensures r.arr == s.arr || fresh(r.arr)
  {
    r := s;
    for i := 0 to |cpus|
      invariant r.Ok() && r.Elems() == old(s.Elems()) + cpus[..i]
      invariant s.len + |cpus| <= s.arr.Length ==> r.arr == s.arr
      invariant r.arr == s.arr || fresh(r.arr)
    {
      assert cpus[..i + 1] == cpus[..i] + [cpus[i]];
      r := Append(r, [cpus[i]]);
    }
    assert cpus[..|cpus|] == cpus;
  }

  /** One round of the cleanup loop: movedCores = append(movedCores, pool...), then
      the pool drains into shared in the host's order. While movedCores still is the
      shared slice, both write the same spare slots of one array; what movedCores
      then reads is what draining wrote last, the same CPUs in another order. */
  method AbsorbPool(moved: Slice<nat>, shared: Slice<nat>, pool: seq<nat>, drained: seq<nat>)
    returns (moved': Slice<nat>, shared': Slice<nat>)
    requires InStep(moved, shared) && multiset(pool) == multiset(drained)
    modifies moved.arr, shared.arr
    ensures InStep(moved', shared')
    ensures shared'.Elems() == old(shared.Elems()) + drained
    ensures shared'.arr == shared.arr || fresh(shared'.arr)
    ensures moved'.arr == moved.arr || fresh(moved'.arr)
  {
    SameLength(pool, drained);
    ghost var m, s := multiset(moved.Elems()), shared.Elems();
    moved' := Append(moved, pool);
    assert shared.Elems() == s;
    assert multiset(moved'.Elems()) == m + multiset(pool);
    shared' := AppendEach(shared, drained);
    assert multiset(shared'.Elems()) == multiset(s) + multiset(drained);
  }

  lemma SameLength(a: seq<nat>, b: seq<nat>)
    requires multiset(a) == multiset(b)
    ensures |a| == |b|
  {
    assert |multiset(a)| == |a| && |multiset(b)| == |b|;
  }

  function Concat(parts: seq<seq<nat>>): (r: seq<nat>) {
    if parts == [] then [] else Concat(parts[..|parts| - 1]) + parts[|parts| - 1]
  }

  lemma ConcatMore(s: seq<nat>, parts: seq<seq<nat>>, i: nat)
    requires i < |parts|
    ensures s + Concat(parts[..i + 1]) == s + Concat(parts[..i]) + parts[i]
  {
    assert parts[..i + 1][..i] == parts[..i];
  }

  lemma {:induction false} AtMostOnce(s: seq<nat>)
    ensures NoDup(s) <==> forall x :: multiset(s)[x] <= 1
  {
    if s != [] {
      var init, last := s[..|s| - 1], s[|s| - 1];
      AtMostOnce(init);
      NoDupSnoc(init, last);
      assert s == init + [last];
      assert forall x :: multiset(s)[x] == multiset(init)[x] + if x == last then 1 else 0;
      assert last in init <==> last in multiset(init);
    }
  }

  lemma SameMembers(a: seq<nat>, b: seq<nat>)
    requires multiset(a) == multiset(b) && NoDup(a)
    ensures NoDup(b) && forall x :: x in a <==> x in b
  {
    AtMostOnce(a);
    AtMostOnce(b);
    assert forall x :: x in a <==> x in multiset(a);
    assert forall x :: x in b <==> x in multiset(b);
  }

  /** The whole cleanup loop, starting from the captured shared list itself. */
  method AbsorbPools(shared: Slice<nat>, pools: seq<seq<nat>>, drained: seq<seq<nat>>)
    returns (movedCores: Slice<nat>, shared': Slice<nat>)
    requires shared.Ok()
    requires |pools| == |drained| && forall k | 0 <= k < |pools| :: multiset(pools[k]) == multiset(drained[k])
    modifies shared.arr
    ensures InStep(movedCores, shared') && shared'.Elems() == old(shared.Elems()) + Concat(drained)
    ensures shared'.arr == shared.arr || fresh(shared'.arr)
    ensures movedCores.arr == shared.arr || fresh(movedCores.arr)
  {
    movedCores, shared' := shared, shared;
    for i := 0 to |pools|
      invariant InStep(movedCores, shared') && shared'.Elems() == old(shared.Elems()) + Concat(drained[..i])
      invariant shared'.arr == shared.arr || fresh(shared'.arr)
      invariant movedCores.arr == shared.arr || fresh(movedCores.arr)
    {
      ConcatMore(old(shared.Elems()), drained, i);
      movedCores, shared' := AbsorbPool(movedCores, shared', pools[i], drained[i]);
    }
    assert drained[..|drained|] == drained;
  }

  /** cleanupPowerNodeConfigPools on the slices themselves, for every capacity the
      arrays may have: the shared list ends empty and the reserved list has gained
      the shared CPUs and those of each removed pool, once each. */
  method CleanupLists(shared: Slice<nat>, reserved: Slice<nat>, pools: seq<seq<nat>>, drained: seq<seq<nat>>)
    returns (shared': Slice<nat>, reserved': Slice<nat>)
    requires shared.Ok() && reserved.Ok() && shared.arr != reserved.arr
    requires |pools| == |drained| && forall k | 0 <= k < |pools| :: multiset(pools[k]) == multiset(drained[k])
    requires NoDup(shared.Elems() + Concat(drained))
    modifies shared.arr, reserved.arr
    ensures shared'.Ok() && shared'.len == 0
    ensures reserved'.Ok()
    ensures multiset(reserved'.Elems()) ==
              multiset(old(reserved.Elems())) + multiset(old(shared.Elems()) + Concat(drained))
  {
    var movedCores;
    movedCores, shared' := AbsorbPools(shared, pools, drained);
    ghost var s, m := shared'.Elems(), movedCores.Elems();
    SameMembers(s, m);
    shared', reserved' := MoveRange(shared', reserved, movedCores, movedCores.len);
    assert m[..|m|] == m;
    NothingLeft(shared'.Elems(), s, m);
  }

  lemma NothingLeft(list: seq<nat>, before: seq<nat>, gone: seq<nat>)
    requires Rest(list, before, gone) && forall x :: x in before <==> x in gone
    ensures list == []
  {
    EmptyOrHead(list);
  }
}
