/** Go slices: a header (backing array, length) whose capacity is the length of
    the backing array. Copying the header does not copy the elements, so a loop
    that ranges over a captured header reads whatever its body writes into the
    shared array. */
module Slices {

  datatype Slice<T> = Slice(arr: array<T>, len: nat)
  {
    predicate Ok() {
      len <= arr.Length
    }

    function Elems(): (s: seq<T>)
      requires Ok()
      reads arr
      ensures |s| == len
    {
      arr[..len]
    }
  }

  ghost predicate Repeats<T>(s: seq<T>, i: nat, j: nat) {
    i < j < |s| && s[i] == s[j]
  }

  /** No element occurs twice. */
  ghost predicate NoDup<T>(s: seq<T>) {
    forall i: nat, j: nat :: !Repeats(s, i, j)
  }

  lemma NoDupSnoc<T>(s: seq<T>, x: T)
    ensures NoDup(s + [x]) <==> NoDup(s) && x !in s
  {
    var t := s + [x];
    forall i: nat, j: nat
      ensures Repeats(t, i, j) <==> Repeats(s, i, j) || (i < j == |s| && s[i] == x)
    {
    }
    if x in s {
      var k: nat :| k < |s| && s[k] == x;
      assert Repeats(t, k, |s|);
    }
    if !NoDup(s) {
      var i: nat, j: nat :| Repeats(s, i, j);
      assert Repeats(t, i, j);
    }
  }

  lemma NoDupAppend<T>(a: seq<T>, b: seq<T>)
    ensures NoDup(a + b) <==> NoDup(a) && NoDup(b) && forall x | x in a :: x !in b
  {
    var s := a + b;
    if NoDup(s) {
      forall i: nat, j: nat
        ensures !Repeats(a, i, j) && !Repeats(b, i, j)
      {
        assert !Repeats(s, i, j) && !Repeats(s, |a| + i, |a| + j);
      }
      forall x | x in a
        ensures x !in b
      {
        var i: nat :| i < |a| && a[i] == x;
        assert forall j: nat | j < |b| :: !Repeats(s, i, |a| + j) && s[|a| + j] == b[j];
      }
    }
    if NoDup(a) && NoDup(b) && forall x | x in a :: x !in b {
      forall i: nat, j: nat
        ensures !Repeats(s, i, j)
      {
        if j < |a| {
          assert !Repeats(a, i, j);
        } else if |a| <= i < j < |s| {
          var k: nat, l: nat := i - |a|, j - |a|;
          assert !Repeats(b, k, l) && s[i] == b[k] && s[j] == b[l];
        } else if i < |a| <= j < |s| {
          assert s[i] == a[i] && s[i] in a && s[j] == b[j - |a|] && s[j] in b;
        }
      }
    }
  }

  lemma NoDupAt<T>(s: seq<T>, i: nat)
    requires NoDup(s) && i < |s|
    ensures s[i] !in s[..i] && s[i] !in s[i + 1..]
  {
    forall k: nat | k < |s| && k != i
      ensures s[k] != s[i]
    {
      assert !Repeats(s, k, i) && !Repeats(s, i, k);
    }
  }

  lemma EmptyOrHead<T>(s: seq<T>)
    ensures s == [] || (s[0] in s && s[0] in multiset(s))
  {
  }

  /** What removal does to the elements: the last one takes the removed place. */
  function SwapRemoved<T>(s: seq<T>, i: nat): (r: seq<T>)
    requires i < |s|
  {
    s[i := s[|s| - 1]][..|s| - 1]
  }

  /** In a list without repetition, removal by swapping drops exactly the element
      at i: every other element stays, none is repeated, nothing is added. */
  lemma SwapRemovedElements<T>(s: seq<T>, i: nat)
    requires i < |s| && NoDup(s)
    ensures NoDup(SwapRemoved(s, i))
    ensures forall x :: x in SwapRemoved(s, i) <==> x in s && x != s[i]
  {
    var r, last := SwapRemoved(s, i), |s| - 1;
    forall a: nat, b: nat
      ensures !Repeats(r, a, b)
    {
      assert !Repeats(s, a, b) && !Repeats(s, a, last) && !Repeats(s, b, last);
    }
    forall x | x in s && x != s[i]
      ensures x in r
    {
      var k :| 0 <= k < |s| && s[k] == x;
      assert k == last ==> r[i] == x;
      assert k < last ==> r[k] == x;
    }
    forall k | 0 <= k < |r|
      ensures r[k] in s && r[k] != s[i]
    {
      assert !Repeats(s, k, i) && !Repeats(s, i, k) && !Repeats(s, i, last);
    }
  }

  /** The first index holding x, or -1. */
  method IndexOf<T(==)>(s: Slice<T>, x: T) returns (index: int)
    requires s.Ok()
    ensures index < 0 ==> x !in s.Elems()
    ensures 0 <= index ==> index < s.len && s.arr[index] == x && x !in s.arr[..index]
  {
    for i := 0 to s.len
      invariant x !in s.arr[..i]
    {
      if s.arr[i] == x {
        return i;
      }
    }
    return -1;
  }

  /** Remove by swapping with the last element and shrinking the header. The slot
      written is the first one that holds x; the slot behind the new end keeps
      its content. */
  method Remove<T(==)>(s: Slice<T>, x: T) returns (removed: bool, r: Slice<T>, ghost index: nat)
    requires s.Ok()
    modifies s.arr
    ensures removed <==> x in old(s.Elems())
    ensures !removed ==> r == s && s.arr[..] == old(s.arr[..])
    ensures removed ==>
              && index < s.len && old(s.arr[index]) == x && x !in old(s.arr[..index])
              && r == Slice(s.arr, s.len - 1)
              && s.arr[..] == old(s.arr[..])[index := old(s.arr[s.len - 1])]
              && r.Elems() == SwapRemoved(old(s.Elems()), index)
  {
    var i := IndexOf(s, x);
    if i < 0 {
      return false, s, 0;
    }
    var size := s.len - 1;
    s.arr[i] := s.arr[size];
    return true, Slice(s.arr, size), i;
  }

  /** append(s, t...): in place while there is spare capacity, else into a new
      backing array of some larger capacity. */
  method Append<T>(s: Slice<T>, t: seq<T>) returns (r: Slice<T>)
    requires s.Ok()
    modifies s.arr
    ensures r.Ok() && r.Elems() == old(s.Elems()) + t
    ensures s.len + |t| <= s.arr.Length ==>
              && r.arr == s.arr
              && forall k | 0 <= k < s.arr.Length && !(s.len <= k < s.len + |t|) :: s.arr[k] == old(s.arr[k])
    ensures s.arr.Length < s.len + |t| ==> fresh(r.arr) && s.arr[..] == old(s.arr[..])
  {
    if s.len + |t| <= s.arr.Length {
      forall i | 0 <= i < |t| {
        s.arr[s.len + i] := t[i];
      }
      return Slice(s.arr, s.len + |t|);
    }
    var capacity :| s.len + |t| <= capacity;
    var elems := s.arr[..s.len] + t;
    var grown := new T[capacity](i => if 0 <= i < |elems| then elems[i] else elems[0]);
    r := Slice(grown, |elems|);
  }
}
