/** The two printers and two parsers of the Linux CPU list format ("List format"
    in the FORMATS section of cpuset(7)): prettifyCoreList and getCleanCoreList of
    the controllers, String and Parse of pkg/cpuset. */
module CpuLists {
  import opened Text

  // ---- what both printers print

  datatype Range = Range(lo: nat, hi: nat)

  /** Put a number in front of a list of ranges, growing the first one if it can. */
  function Prepend(x: nat, rest: seq<Range>): (r: seq<Range>) {
    if rest != [] && rest[0].lo == x + 1 then [Range(x, rest[0].hi)] + rest[1..]
    else [Range(x, x)] + rest
  }

  /** The maximal runs of consecutive numbers, left to right. */
  function Ranges(s: seq<nat>): (r: seq<Range>)
    ensures s != [] ==> r != [] && r[0].lo == s[0]
  {
    if s == [] then [] else Prepend(s[0], Ranges(s[1..]))
  }

  function Item(r: Range): (result: string) {
    if r.lo == r.hi then Itoa(r.lo) else Itoa(r.lo) + "-" + Itoa(r.hi)
  }

  function Items(rs: seq<Range>): (items: seq<string>)
    ensures |items| == |rs|
  {
    if rs == [] then [] else [Item(rs[0])] + Items(rs[1..])
  }

  /** The text for a sorted list. */
  function Render(s: seq<nat>): (r: string) {
    Join(Items(Ranges(s)), ',')
  }

  // ---- sorting (the library sort is known by what it returns)

  predicate IsSorted(s: seq<nat>) {
    forall i, j | 0 <= i < j < |s| :: s[i] <= s[j]
  }

  function Insert(x: nat, s: seq<nat>): (r: seq<nat>) {
    if s == [] || x <= s[0] then [x] + s else [s[0]] + Insert(x, s[1..])
  }

  function Sort(s: seq<nat>): (r: seq<nat>) {
    if s == [] then [] else Insert(s[0], Sort(s[1..]))
  }

  lemma SortedTail(s: seq<nat>)
    requires IsSorted(s) && s != []
    ensures IsSorted(s[1..])
  {
  }

  lemma SortedCons(x: nat, s: seq<nat>)
    requires IsSorted(s) && (s != [] ==> x <= s[0])
    ensures IsSorted([x] + s)
  {
  }

  lemma {:induction false} InsertSorted(x: nat, s: seq<nat>)
    requires IsSorted(s)
    ensures IsSorted(Insert(x, s)) && multiset(Insert(x, s)) == multiset(s) + multiset{x}
    ensures Insert(x, s) != [] && (Insert(x, s)[0] == x || (s != [] && Insert(x, s)[0] == s[0]))
  {
    if s == [] || x <= s[0] {
      SortedCons(x, s);
    } else {
      SortedTail(s);
      InsertSorted(x, s[1..]);
      SortedCons(s[0], Insert(x, s[1..]));
      assert s == [s[0]] + s[1..];
    }
  }

  /** Sort returns a sorted permutation. */
  lemma {:induction false} SortCorrect(s: seq<nat>)
    ensures IsSorted(Sort(s)) && multiset(Sort(s)) == multiset(s)
  {
    if s != [] {
      SortCorrect(s[1..]);
      InsertSorted(s[0], Sort(s[1..]));
      assert s == [s[0]] + s[1..];
    }
  }

  lemma SortedHead(a: seq<nat>, b: seq<nat>)
    requires IsSorted(a) && b != [] && multiset(a) == multiset(b)
    ensures a != [] && a[0] <= b[0]
  {
    assert b[0] in multiset(a);
    var k :| 0 <= k < |a| && a[k] == b[0];
  }

  lemma SameTails(x: nat, s: seq<nat>, t: seq<nat>)
    requires multiset([x] + s) == multiset([x] + t)
    ensures multiset(s) == multiset(t)
  {
    assert multiset(s) == multiset([x] + s) - multiset{x};
    assert multiset(t) == multiset([x] + t) - multiset{x};
  }

  /** There is only one sorted permutation. */
  lemma {:induction false} SortedUnique(a: seq<nat>, b: seq<nat>)
    requires IsSorted(a) && IsSorted(b) && multiset(a) == multiset(b)
    ensures a == b
  {
    if a != [] {
      SortedHead(b, a);
      SortedHead(a, b);
      assert a == [a[0]] + a[1..] && b == [b[0]] + b[1..];
      SameTails(a[0], a[1..], b[1..]);
      SortedTail(a);
      SortedTail(b);
      SortedUnique(a[1..], b[1..]);
    } else if b != [] {
      SortedHead(a, b);
    }
  }

  // ---- runs

  ghost predicate Consecutive(s: seq<nat>) {
    forall i | 0 <= i < |s| :: s[i] == s[0] + i
  }

  /** A maximal run at the front becomes the first range. */
  lemma {:induction false} FirstRun(s: seq<nat>, k: nat)
    requires k < |s| && Consecutive(s[..k + 1])
    requires k + 1 < |s| ==> s[k + 1] != s[k] + 1
    ensures Ranges(s) == [Range(s[0], s[k])] + Ranges(s[k + 1..])
  {
    if k > 0 {
      var t := s[1..];
      assert forall i | 0 <= i < k :: t[..k][i] == s[..k + 1][i + 1];
      FirstRun(t, k - 1);
      assert t[k..] == s[k + 1..];
      assert s[..k + 1][1] == s[1] && s[..k + 1][k] == s[k];
    }
  }

  /** Give the last range a new upper end. */
  function Extend(rs: seq<Range>, x: nat): (r: seq<Range>)
    requires rs != []
  {
    rs[|rs| - 1 := rs[|rs| - 1].(hi := x)]
  }

  lemma PrependLast(x: nat, rs: seq<Range>, y: nat)
    requires rs != []
    ensures Prepend(x, Extend(rs, y)) == Extend(Prepend(x, rs), y)
    ensures Prepend(x, rs + [Range(y, y)]) == Prepend(x, rs) + [Range(y, y)]
    ensures Prepend(x, rs)[|Prepend(x, rs)| - 1].hi == rs[|rs| - 1].hi
  {
  }

  lemma TwoRuns(a: nat, x: nat)
    ensures Ranges([a]) == [Range(a, a)]
    ensures Ranges([a] + [x]) == if x == a + 1 then [Range(a, x)] else [Range(a, a), Range(x, x)]
  {
    RangesCons(a, []);
    RangesCons(x, []);
    RangesCons(a, [x]);
    assert [a] + [] == [a] && [x] + [] == [x];
  }

  lemma RangesCons(x: nat, s: seq<nat>)
    ensures Ranges([x] + s) == Prepend(x, Ranges(s))
  {
    assert ([x] + s)[1..] == s;
  }

  /** Appending a number extends the last range or starts a new one. */
  ghost predicate RunGrows(s: seq<nat>, x: nat)
    requires s != []
  {
    var rs := Ranges(s);
    && rs != [] && rs[|rs| - 1].hi == s[|s| - 1]
    && Ranges(s + [x]) == if x == s[|s| - 1] + 1 then Extend(rs, x) else rs + [Range(x, x)]
  }

  lemma RunGrowsCons(a: nat, t: seq<nat>, x: nat)
    requires t != [] && RunGrows(t, x)
    ensures RunGrows([a] + t, x)
  {
    RangesCons(a, t);
    RangesCons(a, t + [x]);
    assert [a] + (t + [x]) == ([a] + t) + [x];
    PrependLast(a, Ranges(t), x);
  }

  lemma {:induction false} LastRun(s: seq<nat>, x: nat)
    requires s != []
    ensures RunGrows(s, x)
  {
    if |s| == 1 {
      TwoRuns(s[0], x);
      assert s == [s[0]];
    } else {
      LastRun(s[1..], x);
      RunGrowsCons(s[0], s[1..], x);
      assert [s[0]] + s[1..] == s;
    }
  }

  lemma RenderCons(s: seq<nat>, k: nat)
    requires k < |s| && Consecutive(s[..k + 1])
    requires k + 1 < |s| ==> s[k + 1] != s[k] + 1
    ensures Render(s) == Item(Range(s[0], s[k])) + if k + 1 < |s| then "," + Render(s[k + 1..]) else ""
  {
    FirstRun(s, k);
    var rest := Ranges(s[k + 1..]);
    assert ([Range(s[0], s[k])] + rest)[1..] == rest;
    assert ([Item(Range(s[0], s[k]))] + Items(rest))[1..] == Items(rest);
  }

  // ---- controllers/common.go: prettifyCoreList scans ahead for each run

  function RunItem(s: seq<nat>, start: nat, end: nat): (r: string)
    requires start <= end < |s|
  {
    if end > start then Itoa(s[start]) + "-" + Itoa(s[end]) else Itoa(s[start])
  }

  /** A maximal run of consecutive numbers. */
  ghost predicate IsRun(s: seq<nat>, start: nat, end: nat) {
    && start <= end < |s|
    && (forall k | start <= k <= end :: s[k] == s[start] + (k - start))
    && (end + 1 < |s| ==> s[end + 1] != s[end] + 1)
  }

  lemma RunText(s: seq<nat>, start: nat, end: nat)
    requires IsRun(s, start, end)
    ensures Render(s[start..]) == RunItem(s, start, end) + (if end + 1 < |s| then "," + Render(s[end + 1..]) else "")
  {
    var t, n := s[start..], end - start;
    assert t[n + 1..] == s[end + 1..];
    var u := t[..n + 1];
    forall i | 0 <= i < |u|
      ensures u[i] == u[0] + i
    {
      assert u[i] == s[start + i];
    }
    RenderCons(t, n);
  }

  lemma Associates(a: string, b: string, c: string)
    ensures a + (b + c) == a + b + c
  {
  }

  /** What is printed once one more run is. */
  ghost predicate Printed(s: seq<nat>, n: nat, text: string)
    requires n <= |s|
  {
    Render(s) == if n < |s| then text + Render(s[n..]) else text
  }

  lemma PrintedMore(s: seq<nat>, start: nat, end: nat, before: string)
    requires IsRun(s, start, end) && Printed(s, start, before)
    ensures Printed(s, end + 1, before + RunItem(s, start, end) + if end + 1 < |s| then "," else "")
  {
    RunText(s, start, end);
    var item := RunItem(s, start, end);
    if end + 1 < |s| {
      var rest := Render(s[end + 1..]);
      Associates(before, item, "," + rest);
      Associates(before + item, ",", rest);
    } else {
      assert item + "" == item && before + item + "" == before + item;
    }
  }

  method ScanRun(sorted: seq<nat>, start: nat) returns (end: nat)
    requires start < |sorted|
    ensures IsRun(sorted, start, end)
  {
    end := start;
    while end < |sorted| - 1 && sorted[end + 1] == sorted[end] + 1
      invariant start <= end < |sorted|
      invariant forall k | start <= k <= end :: sorted[k] == sorted[start] + (k - start)
    {
      end := end + 1;
    }
  }

  /** One round of prettifyCoreList: scan to the end of the run, print it. */
  method PrintRun(sorted: seq<nat>, start: nat, before: string) returns (end: nat, prettified: string)
    requires start < |sorted| && Printed(sorted, start, before)
    ensures start <= end < |sorted| && Printed(sorted, end + 1, prettified)
  {
    end := ScanRun(sorted, start);
    PrintedMore(sorted, start, end, before);
    if end - start > 0 {
      prettified := before + (Itoa(sorted[start]) + "-" + Itoa(sorted[end]));
    } else {
      prettified := before + Itoa(sorted[start]);
    }
    assert prettified == before + RunItem(sorted, start, end);
    if end < |sorted| - 1 {
      prettified := prettified + ",";
    } else {
      assert prettified + "" == prettified;
    }
  }

  method PrettifyCoreList(cores: seq<nat>) returns (prettified: string)
    ensures prettified == Render(Sort(cores))
  {
    var sorted := Sort(cores);
    prettified := "";
    var i := 0;
    assert sorted[0..] == sorted && "" + Render(sorted) == Render(sorted);
    while i < |sorted|
      invariant 0 <= i <= |sorted| && Printed(sorted, i, prettified)
    {
      i, prettified := PrintRun(sorted, i, prettified);
      i := i + 1;
    }
  }

  // ---- pkg/cpuset: ToSlice, String

  /** The map is visited in no particular order, then sorted. */
  method ToSlice(elems: set<nat>) returns (r: seq<nat>)
    ensures IsSorted(r) && multiset(r) == multiset(elems)
  {
    r := [];
    var left := elems;
    while left != {}
      invariant left <= elems && multiset(r) == multiset(elems - left)
    {
      var cpu :| cpu in left;
      r := r + [cpu];
      assert elems - (left - {cpu}) == (elems - left) + {cpu};
      left := left - {cpu};
    }
    assert elems - left == elems;
    SortCorrect(r);
    r := Sort(r);
  }

  /** Every item followed by a comma; String trims the last one. */
  function WithCommas(items: seq<string>): (r: string) {
    if items == [] then "" else items[0] + "," + WithCommas(items[1..])
  }

  function TrimRight(s: string, c: char): (r: string) {
    if s != [] && s[|s| - 1] == c then TrimRight(s[..|s| - 1], c) else s
  }

  lemma {:induction false} WithCommasAppend(a: seq<string>, x: string)
    ensures WithCommas(a + [x]) == WithCommas(a) + x + ","
  {
    if a == [] {
      assert ([x])[1..] == [];
    } else {
      WithCommasAppend(a[1..], x);
      assert (a + [x])[1..] == a[1..] + [x];
    }
  }

  lemma {:induction false} WithCommasJoin(items: seq<string>)
    requires items != []
    ensures WithCommas(items) == Join(items, ',') + ","
  {
    if |items| > 1 {
      WithCommasJoin(items[1..]);
    } else {
      assert items[1..] == [];
    }
  }

  lemma {:induction false} JoinLast(items: seq<string>)
    requires items != [] && items[|items| - 1] != []
    ensures var t := Join(items, ',');
            t != [] && t[|t| - 1] == items[|items| - 1][|items[|items| - 1]| - 1]
  {
    if |items| > 1 {
      JoinLast(items[1..]);
    }
  }

  lemma {:induction false} ItemsAppend(rs: seq<Range>, r: Range)
    ensures Items(rs + [r]) == Items(rs) + [Item(r)]
  {
    if rs == [] {
      assert ([r])[1..] == [];
    } else {
      ItemsAppend(rs[1..], r);
      assert (rs + [r])[1..] == rs[1..] + [r];
    }
  }

  lemma {:induction false} ItemsAt(rs: seq<Range>, k: nat)
    requires k < |rs|
    ensures Items(rs)[k] == Item(rs[k])
  {
    if k > 0 {
      ItemsAt(rs[1..], k - 1);
    }
  }

  /** An item consists of digits and at most one inner hyphen. */
  lemma ItemShape(r: Range)
    ensures ',' !in Item(r) && Item(r) != [] && Item(r)[|Item(r)| - 1] != ','
  {
  }

  lemma NextRange(s: seq<nat>, i: nat)
    requires 0 < i < |s|
    ensures var rs := Ranges(s[..i]);
            && rs != [] && rs[|rs| - 1].hi == s[i - 1]
            && Ranges(s[..i + 1]) == if s[i] == s[i - 1] + 1 then Extend(rs, s[i]) else rs + [Range(s[i], s[i])]
  {
    LastRun(s[..i], s[i]);
    assert s[..i + 1] == s[..i] + [s[i]];
  }

  /** The ranges of a sorted list, found by extending the last range in place. */
  method CollapseRanges(sorted: seq<nat>) returns (ranges: seq<Range>)
    requires sorted != []
    ensures ranges == Ranges(sorted)
  {
    ranges := [Range(sorted[0], sorted[0])];
    assert sorted[..1] == [sorted[0]];
    for i := 1 to |sorted|
      invariant ranges == Ranges(sorted[..i])
    {
      NextRange(sorted, i);
      var last := ranges[|ranges| - 1];
      if sorted[i] == last.hi + 1 {
        ranges := Extend(ranges, sorted[i]);
      } else {
        ranges := ranges + [Range(sorted[i], sorted[i])];
      }
    }
    assert sorted[..|sorted|] == sorted;
  }

  method WriteRanges(ranges: seq<Range>) returns (result: string)
    ensures result == WithCommas(Items(ranges))
  {
    result := "";
    for k := 0 to |ranges|
      invariant result == WithCommas(Items(ranges[..k]))
    {
      assert ranges[..k + 1] == ranges[..k] + [ranges[k]];
      ItemsAppend(ranges[..k], ranges[k]);
      WithCommasAppend(Items(ranges[..k]), Item(ranges[k]));
      result := result + (if ranges[k].lo == ranges[k].hi then Itoa(ranges[k].lo)
                          else Itoa(ranges[k].lo) + "-" + Itoa(ranges[k].hi));
      result := result + ",";
    }
    assert ranges[..|ranges|] == ranges;
  }

  /** CPUSet.String: the ranges of the sorted elements, without the last comma. */
  method CpuSetString(elems: set<nat>) returns (text: string)
    ensures forall s: seq<nat> | IsSorted(s) && multiset(s) == multiset(elems) :: text == Render(s)
  {
    var sorted := ToSlice(elems);
    assert |sorted| == |multiset(sorted)| == |multiset(elems)| == |elems|;
    if elems == {} {
      text := "";
    } else {
      var ranges := CollapseRanges(sorted);
      var result := WriteRanges(ranges);
      text := TrimRight(result, ',');
      TrimsOneComma(ranges);
    }
    assert text == Render(sorted);
    forall s: seq<nat> | IsSorted(s) && multiset(s) == multiset(elems)
      ensures s == sorted
    {
      SortedUnique(s, sorted);
    }
  }

  lemma TrimsOneComma(ranges: seq<Range>)
    requires ranges != []
    ensures TrimRight(WithCommas(Items(ranges)), ',') == Join(Items(ranges), ',')
  {
    var items := Items(ranges);
    WithCommasJoin(items);
    ItemsAt(ranges, |ranges| - 1);
    ItemShape(ranges[|ranges| - 1]);
    JoinLast(items);
    var t := WithCommas(items);
    assert t[..|t| - 1] == Join(items, ',');
  }

  // ---- what both parsers read

  /** lo, lo + 1, ..., hi (nothing if hi < lo). */
  function Span(lo: int, hi: int): (s: seq<int>)
    ensures |s| == if lo <= hi then hi - lo + 1 else 0
    ensures forall i | 0 <= i < |s| :: s[i] == lo + i
  {
    seq(if lo <= hi then hi - lo + 1 else 0, i => lo + i)
  }

  lemma SpanGrows(lo: int, hi: int)
    requires lo <= hi + 1
    ensures Span(lo, hi + 1) == Span(lo, hi) + [hi + 1]
  {
  }

  /** Read item after item, giving up at the first malformed one. */
  function Collect(acc: seq<int>, items: seq<string>, read: string -> Option<seq<int>>): (r: Option<seq<int>>)
    decreases |items|
  {
    if items == [] then Some(acc)
    else
      match read(items[0])
      case None => None
      case Some(ids) => Collect(acc + ids, items[1..], read)
  }

  /** cpuset.Parse: an item with two or more hyphens adds nothing. */
  function ParseItem(item: string): (r: Option<seq<int>>) {
    var boundaries := Split(item, '-');
    if |boundaries| == 1 then
      match Atoi(boundaries[0])
      case None => None
      case Some(x) => Some([x])
    else if |boundaries| == 2 then
      match (Atoi(boundaries[0]), Atoi(boundaries[1]))
      case (Some(lo), Some(hi)) => Some(Span(lo, hi))
      case _ => None
    else Some([])
  }

  /** getCleanCoreList: with hyphens, the first and the last part count. */
  function CleanItem(item: string): (r: Option<seq<int>>) {
    var parts := Split(item, '-');
    if |parts| == 1 then
      match ParseUint32(parts[0])
      case None => None
      case Some(x) => Some([x])
    else
      match (Atoi(parts[0]), Atoi(parts[|parts| - 1]))
      case (Some(lo), Some(hi)) => Some(Span(lo, hi))
      case _ => None
  }

  function AsSet(s: seq<int>): (r: set<int>) {
    set x | x in s
  }

  function ParseSpec(s: string): (r: Option<set<int>>) {
    if s == "" then Some({})
    else
      match Collect([], Split(s, ','), ParseItem)
      case None => None
      case Some(ids) => Some(AsSet(ids))
  }

  /** Any malformed item makes the whole list empty. */
  function CleanSpec(coreIDs: string): (r: seq<int>) {
    match Collect([], Split(coreIDs, ','), CleanItem)
    case None => []
    case Some(ids) => ids
  }

  // ---- pkg/cpuset: Parse

  /** The ids lo..hi are added one by one. */
  method AddSpan(elems: set<int>, lo: int, hi: int) returns (r: set<int>)
    ensures r == elems + AsSet(Span(lo, hi))
  {
    r := elems;
    for e := lo to (if lo <= hi then hi + 1 else lo)
      invariant r == elems + AsSet(Span(lo, e - 1))
    {
      SpanGrows(lo, e - 1);
      r := r + {e};
    }
  }

  /** One comma-separated item of Parse. */
  method AddItem(elems: set<int>, item: string) returns (ok: bool, r: set<int>)
    ensures ok <==> ParseItem(item).Some?
    ensures ok ==> r == elems + AsSet(ParseItem(item).value)
  {
    ok, r := true, elems;
    var boundaries := Split(item, '-');
    if |boundaries| == 1 {
      var elem := Atoi(boundaries[0]);
      if elem.None? {
        return false, {};
      }
      r := elems + {elem.value};
    } else if |boundaries| == 2 {
      var start := Atoi(boundaries[0]);
      if start.None? {
        return false, {};
      }
      var end := Atoi(boundaries[1]);
      if end.None? {
        return false, {};
      }
      r := AddSpan(elems, start.value, end.value);
    }
  }

  method Parse(s: string) returns (r: Option<set<int>>)
    ensures r == ParseSpec(s)
  {
    if s == "" {
      return Some({});
    }
    var ranges := Split(s, ',');
    var elems: set<int> := {};
    ghost var added: seq<int> := [];
    assert ranges[0..] == ranges;
    for i := 0 to |ranges|
      invariant elems == AsSet(added)
      invariant Collect([], ranges, ParseItem) == Collect(added, ranges[i..], ParseItem)
    {
      assert ranges[i..][0] == ranges[i] && ranges[i..][1..] == ranges[i + 1..];
      var ok;
      ok, elems := AddItem(elems, ranges[i]);
      if !ok {
        return None;
      }
      added := added + ParseItem(ranges[i]).value;
    }
    return Some(elems);
  }

  // ---- controllers/powerpod_controller.go: getCleanCoreList

  /** The ids lo..hi are appended one by one. */
  method AppendSpan(ids: seq<int>, lo: int, hi: int) returns (r: seq<int>)
    ensures r == ids + Span(lo, hi)
  {
    r := ids;
    for k := lo to (if lo <= hi then hi + 1 else lo)
      invariant r == ids + Span(lo, k - 1)
    {
      SpanGrows(lo, k - 1);
      r := r + [k];
    }
  }

  /** One comma-separated item of getCleanCoreList. */
  method AppendItem(ids: seq<int>, item: string) returns (ok: bool, r: seq<int>)
    ensures ok <==> CleanItem(item).Some?
    ensures ok ==> r == ids + CleanItem(item).value
  {
    var hyphenSeparated := Split(item, '-');
    if |hyphenSeparated| == 1 {
      var core := ParseUint32(hyphenSeparated[0]);
      if core.None? {
        return false, [];
      }
      return true, ids + [core.value];
    }
    var startCore := Atoi(hyphenSeparated[0]);
    if startCore.None? {
      return false, [];
    }
    var endCore := Atoi(hyphenSeparated[|hyphenSeparated| - 1]);
    if endCore.None? {
      return false, [];
    }
    ok := true;
    r := AppendSpan(ids, startCore.value, endCore.value);
  }

  method GetCleanCoreList(coreIDs: string) returns (cleanCores: seq<int>)
    ensures cleanCores == CleanSpec(coreIDs)
  {
    cleanCores := [];
    var commaSeparated := Split(coreIDs, ',');
    assert commaSeparated[0..] == commaSeparated;
    for i := 0 to |commaSeparated|
      invariant Collect([], commaSeparated, CleanItem) == Collect(cleanCores, commaSeparated[i..], CleanItem)
    {
      assert commaSeparated[i..][0] == commaSeparated[i] && commaSeparated[i..][1..] == commaSeparated[i + 1..];
      var ok;
      ok, cleanCores := AppendItem(cleanCores, commaSeparated[i]);
      if !ok {
        return [];
      }
    }
  }

  // ---- the printers and the parsers undo each other

  /** What a list of ranges stands for. */
  function Expand(rs: seq<Range>): (r: seq<int>) {
    if rs == [] then [] else Span(rs[0].lo, rs[0].hi) + Expand(rs[1..])
  }

  ghost predicate RangesOk(rs: seq<Range>, bound: nat) {
    forall k | 0 <= k < |rs| :: rs[k].lo <= rs[k].hi <= bound
  }

  lemma PrependExpands(x: nat, rest: seq<Range>, bound: nat)
    requires RangesOk(rest, bound) && x <= bound
    ensures Expand(Prepend(x, rest)) == [x] + Expand(rest) && RangesOk(Prepend(x, rest), bound)
  {
    var r := Prepend(x, rest);
    if rest != [] && rest[0].lo == x + 1 {
      assert r[1..] == rest[1..];
      assert Span(x, rest[0].hi) == [x] + Span(x + 1, rest[0].hi);
    } else {
      assert r[1..] == rest;
      assert Span(x, x) == [x];
    }
  }

  lemma {:induction false} RangesExpand(s: seq<nat>, bound: nat)
    requires forall k | 0 <= k < |s| :: s[k] <= bound
    ensures Expand(Ranges(s)) == s && RangesOk(Ranges(s), bound)
  {
    if s != [] {
      RangesExpand(s[1..], bound);
      PrependExpands(s[0], Ranges(s[1..]), bound);
    }
  }

  /** No two neighbours could be one range. */
  lemma {:induction false} RangesApart(s: seq<nat>)
    ensures forall k | 0 < k < |Ranges(s)| :: Ranges(s)[k - 1].hi + 1 != Ranges(s)[k].lo
  {
    if s != [] {
      RangesApart(s[1..]);
    }
  }

  /** A run is printed by its ends, a number on its own as it is, and a comma stands between
      what is printed. */
  lemma RenderInLetters(s: seq<nat>, k: nat)
    requires k < |s| && (forall i | 0 <= i <= k :: s[i] == s[0] + i) && (k + 1 < |s| ==> s[k + 1] != s[k] + 1)
    ensures Render(s) == (if k == 0 then Itoa(s[0]) else Itoa(s[0]) + "-" + Itoa(s[k])) +
                         (if k + 1 < |s| then "," + Render(s[k + 1..]) else "")
    ensures Render([]) == ""
  {
    RunText(s, 0, k);
    assert s[0..] == s;
  }

  lemma ItemParts(r: Range)
    ensures Split(Item(r), '-') == if r.lo == r.hi then [Itoa(r.lo)] else [Itoa(r.lo), Itoa(r.hi)]
  {
    if r.lo == r.hi {
      SplitNoSeparator(Itoa(r.lo), '-');
    } else {
      SplitNoSeparator(Itoa(r.hi), '-');
      SplitFirst(Itoa(r.lo), Itoa(r.hi), '-');
      assert Item(r) == Itoa(r.lo) + ['-'] + Itoa(r.hi);
    }
  }

  /** Both parsers read an item as its range. */
  lemma ItemRead(r: Range)
    requires r.lo <= r.hi
    ensures r.hi <= MAX_INT ==> ParseItem(Item(r)) == Some(Span(r.lo, r.hi))
    ensures r.hi <= MAX_UINT32 ==> CleanItem(Item(r)) == Some(Span(r.lo, r.hi))
  {
    ItemParts(r);
    ItoaRoundTrip(r.lo);
    ItoaRoundTrip(r.hi);
    assert Span(r.lo, r.lo) == [r.lo as int];
  }

  ghost predicate Reads(read: string -> Option<seq<int>>, r: Range) {
    read(Item(r)) == Some(Span(r.lo, r.hi))
  }

  /** What the two parsers make of an item, by its hyphens: x, x-y, and x-y-z, of which one
      parser ignores all and the other the middle. */
  lemma ItemsInLetters(x: string, y: string, z: string)
    requires '-' !in x && '-' !in y && '-' !in z
    ensures ParseItem(x) == if Atoi(x).Some? then Some([Atoi(x).value]) else None
    ensures CleanItem(x) == if ParseUint32(x).Some? then Some([ParseUint32(x).value]) else None
    ensures ParseItem(x + "-" + y) == CleanItem(x + "-" + y) ==
            if Atoi(x).Some? && Atoi(y).Some? then Some(Span(Atoi(x).value, Atoi(y).value)) else None
    ensures ParseItem(x + "-" + y + "-" + z) == Some([])
    ensures CleanItem(x + "-" + y + "-" + z) ==
            if Atoi(x).Some? && Atoi(z).Some? then Some(Span(Atoi(x).value, Atoi(z).value)) else None
  {
    SplitNoSeparator(x, '-');
    SplitNoSeparator(y, '-');
    SplitNoSeparator(z, '-');
    SplitFirst(x, y, '-');
    SplitFirst(y, z, '-');
    SplitFirst(x, y + "-" + z, '-');
    assert x + "-" + y + "-" + z == x + ['-'] + (y + "-" + z) && y + "-" + z == y + ['-'] + z;
  }

  /** A list is malformed exactly if one of its items is, and stands for what its items
      stand for, in order. */
  lemma {:induction false} CollectMeans(acc: seq<int>, items: seq<string>, read: string -> Option<seq<int>>)
    ensures Collect(acc, items, read).None? <==> exists k :: 0 <= k < |items| && read(items[k]).None?
    ensures Collect(acc, items, read).Some? ==>
              forall x :: x in Collect(acc, items, read).value <==>
                x in acc || exists k :: 0 <= k < |items| && read(items[k]).Some? && x in read(items[k]).value
    ensures Collect(acc, items, read).Some? ==>
              |Collect(acc, items, read).value| >= |acc| && Collect(acc, items, read).value[..|acc|] == acc
    decreases |items|
  {
    if items != [] {
      var first := read(items[0]);
      if first.Some? {
        CollectMeans(acc + first.value, items[1..], read);
        assert forall k | 0 < k < |items| :: items[k] == items[1..][k - 1];
        var all := Collect(acc, items, read);
        if all.Some? {
          assert all.value[..|acc|] == all.value[..|acc + first.value|][..|acc|];
        }
      }
    }
  }

  /** So the two parsers accept a joined list exactly if each item is well formed. */
  lemma JoinedListsRead(items: seq<string>)
    requires items != [] && forall k | 0 <= k < |items| :: ',' !in items[k] && items[k] != ""
    ensures ParseSpec(Join(items, ',')).None? <==> exists k :: 0 <= k < |items| && ParseItem(items[k]).None?
    ensures ParseSpec(Join(items, ',')).Some? ==>
              forall x :: x in ParseSpec(Join(items, ',')).value <==>
                exists k :: 0 <= k < |items| && ParseItem(items[k]).Some? && x in ParseItem(items[k]).value
    ensures (exists k :: 0 <= k < |items| && CleanItem(items[k]).None?) ==> CleanSpec(Join(items, ',')) == []
    ensures (forall k | 0 <= k < |items| :: CleanItem(items[k]).Some?) ==>
              forall x :: x in CleanSpec(Join(items, ',')) <==> exists k :: 0 <= k < |items| && x in CleanItem(items[k]).value
    ensures ParseSpec("") == Some({}) && CleanSpec("") == []
  {
    SplitJoin(items, ',');
    CollectMeans([], items, ParseItem);
    CollectMeans([], items, CleanItem);
    assert Split("", ',') == [""] && CleanItem("").None?;
    assert Join(items, ',') != "" by {
      assert items[0] != "";
    }
  }

  lemma CollectStep(acc: seq<int>, item: string, rest: seq<string>, read: string -> Option<seq<int>>)
    requires read(item).Some?
    ensures Collect(acc, [item] + rest, read) == Collect(acc + read(item).value, rest, read)
  {
    assert ([item] + rest)[1..] == rest;
  }

  lemma {:induction false} CollectItems(acc: seq<int>, rs: seq<Range>, read: string -> Option<seq<int>>)
    requires forall k | 0 <= k < |rs| :: Reads(read, rs[k])
    ensures Collect(acc, Items(rs), read) == Some(acc + Expand(rs))
    decreases |rs|
  {
    if rs == [] {
      assert acc + [] == acc;
    } else {
      var r, tail, ids := rs[0], rs[1..], Span(rs[0].lo, rs[0].hi);
      assert Reads(read, r);
      CollectStep(acc, Item(r), Items(tail), read);
      CollectItems(acc + ids, tail, read);
      assert (acc + ids) + Expand(tail) == acc + (ids + Expand(tail));
    }
  }

  lemma SplitRender(s: seq<nat>)
    requires s != []
    ensures Split(Render(s), ',') == Items(Ranges(s)) && Render(s) != ""
  {
    var rs := Ranges(s);
    forall k | 0 <= k < |rs|
      ensures ',' !in Items(rs)[k] && Items(rs)[k] != []
    {
      ItemsAt(rs, k);
      ItemShape(rs[k]);
    }
    SplitJoin(Items(rs), ',');
  }

  /** Reading back what was printed, for a reader that understands every item. */
  lemma ReadBack(s: seq<nat>, bound: nat, read: string -> Option<seq<int>>)
    requires s != [] && forall k | 0 <= k < |s| :: s[k] <= bound
    requires forall r: Range | r.lo <= r.hi <= bound :: Reads(read, r)
    ensures Collect([], Split(Render(s), ','), read) == Some(s)
  {
    SplitRender(s);
    RangesExpand(s, bound);
    CollectItems([], Ranges(s), read);
    assert [] + Expand(Ranges(s)) == s;
  }

  /** Printing a core list and cleaning the text is sorting: nothing is lost, no
      duplicate is dropped, and the empty list stays empty. */
  lemma PrettifyThenCleanIsSort(cores: seq<nat>)
    requires forall k | 0 <= k < |cores| :: cores[k] <= MAX_UINT32
    ensures CleanSpec(Render(Sort(cores))) == Sort(cores)
    ensures IsSorted(Sort(cores)) && multiset(Sort(cores)) == multiset(cores)
  {
    var s := Sort(cores);
    SortCorrect(cores);
    if s == [] {
      assert Split("", ',') == [""] && CleanItem("").None?;
    } else {
      forall k | 0 <= k < |s|
        ensures s[k] <= MAX_UINT32
      {
        assert s[k] in multiset(cores);
      }
      forall r: Range | r.lo <= r.hi <= MAX_UINT32
        ensures Reads(CleanItem, r)
      {
        ItemRead(r);
      }
      ReadBack(s, MAX_UINT32, CleanItem);
    }
  }

  /** Parsing what String prints gives the set back. */
  lemma StringThenParseIsIdentity(elems: set<nat>, s: seq<nat>)
    requires forall x | x in elems :: x <= MAX_INT
    requires multiset(s) == multiset(elems)
    ensures ParseSpec(Render(s)) == Some(set x: int | x in elems)
  {
    assert forall x :: x in s <==> x in multiset(elems);
    if s != [] {
      assert forall k | 0 <= k < |s| :: s[k] in s;
      forall r: Range | r.lo <= r.hi <= MAX_INT
        ensures Reads(ParseItem, r)
      {
        ItemRead(r);
      }
      SplitRender(s);
      ReadBack(s, MAX_INT, ParseItem);
      assert AsSet(s) == set x: int | x in elems;
    } else {
      assert (set x: int | x in elems) == {};
    }
  }

  /** Both printers give the same text for the same ids, in whatever order the
      list comes, as long as it names no id twice. */
  lemma PrintersAgree(cores: seq<nat>, elems: set<nat>, s: seq<nat>)
    requires multiset(cores) == multiset(elems)
    requires IsSorted(s) && multiset(s) == multiset(elems)
    ensures Render(Sort(cores)) == Render(s)
  {
    SortCorrect(cores);
    SortedUnique(Sort(cores), s);
  }
}
