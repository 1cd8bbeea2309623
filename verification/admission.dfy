/** api/v1alpha1/webhook_helpers.go, powernodeconfig_webhook.go, and the selection
    helpers of controllers/common.go: which configuration applies to which node. */
module Admission {
  import opened Text

  type Labels = map<string, string>

  datatype Operator = In | NotIn | Exists | DoesNotExist | Other(name: string)

  datatype Requirement = Requirement(key: string, op: Operator, values: seq<string>)

  /** A Kubernetes label selector. */
  datatype Selector = Selector(matchLabels: Labels, matchExpressions: seq<Requirement>)
  {
    /** LabelSelectorAsSelector succeeds. */
    predicate Valid() {
      forall r | r in matchExpressions ::
        match r.op
        case In => r.values != []
        case NotIn => r.values != []
        case Exists => r.values == []
        case DoesNotExist => r.values == []
        case Other(_) => false
    }

    predicate Matches(labels: Labels) {
      && (forall k | k in matchLabels :: k in labels && labels[k] == matchLabels[k])
      && forall r | r in matchExpressions ::
           match r.op
           case In => r.key in labels && labels[r.key] in r.values
           case NotIn => r.key !in labels || labels[r.key] !in r.values
           case Exists => r.key in labels
           case DoesNotExist => r.key !in labels
           case Other(_) => false
    }
  }

  /** What single requirements mean, and when they are well formed. */
  lemma RequirementMeans(key: string, values: seq<string>, labels: Labels)
    ensures Selector(map[], [Requirement(key, In, values)]).Matches(labels) <==>
            exists i :: 0 <= i < |values| && key in labels && labels[key] == values[i]
    ensures Selector(map[], [Requirement(key, NotIn, values)]).Matches(labels) <==>
            forall i | 0 <= i < |values| :: key in labels ==> labels[key] != values[i]
    ensures Selector(map[], [Requirement(key, Exists, values)]).Matches(labels) <==> key in labels
    ensures Selector(map[], [Requirement(key, DoesNotExist, values)]).Matches(labels) <==> key !in labels
    ensures Selector(map[], [Requirement(key, In, values)]).Valid() <==> |values| > 0
    ensures Selector(map[], [Requirement(key, NotIn, values)]).Valid() <==> |values| > 0
    ensures Selector(map[], [Requirement(key, Exists, values)]).Valid() <==> |values| == 0
    ensures Selector(map[], [Requirement(key, DoesNotExist, values)]).Valid() <==> |values| == 0
    ensures forall other :: !Selector(map[], [Requirement(key, Other(other), values)]).Valid()
  {
    forall op
      ensures [Requirement(key, op, values)][0] in [Requirement(key, op, values)]
    {
    }
  }

  /** Requirements are combined by "and", a label is a requirement of its own, and the
      empty selector matches everything. */
  lemma RequirementsCombine(s: Selector, r: Requirement, key: string, value: string, labels: Labels)
    ensures Selector(map[], []).Matches(labels) && Selector(map[], []).Valid()
    ensures s.(matchExpressions := s.matchExpressions + [r]).Matches(labels) <==>
            s.Matches(labels) && Selector(map[], [r]).Matches(labels)
    ensures s.(matchExpressions := s.matchExpressions + [r]).Valid() <==> s.Valid() && Selector(map[], [r]).Valid()
    ensures key !in s.matchLabels ==>
              (s.(matchLabels := s.matchLabels[key := value]).Matches(labels) <==>
                 s.Matches(labels) && key in labels && labels[key] == value)
    ensures s.(matchLabels := s.matchLabels[key := value]).Valid() <==> s.Valid()
  {
    var t := s.(matchExpressions := s.matchExpressions + [r]);
    assert forall q :: q in t.matchExpressions <==> q in s.matchExpressions || q == r;
    assert forall q :: q in [r] <==> q == r;
    var u := s.(matchLabels := s.matchLabels[key := value]);
    assert key in u.matchLabels && u.matchLabels[key] == value;
    assert forall k | k in s.matchLabels && k != key :: k in u.matchLabels && u.matchLabels[k] == s.matchLabels[k];
  }

  // ---- findNodeSelectorConflicts

  /** Node names and their labels. */
  type Nodes = map<string, Labels>

  datatype Conflict = Identical(peer: string) | BothSelect(peer: string, nodes: set<string>)

  datatype Verdict = Admitted | BadSelector | InternalError | Conflicts(found: seq<Conflict>)

  ghost function BothSelected(nodes: Nodes, a: Selector, b: Selector): (r: set<string>) {
    set n | n in nodes && a.Matches(nodes[n]) && b.Matches(nodes[n])
  }

  /** The peer has the same selector, or selects a node that self selects too. */
  ghost predicate Clashes(nodes: Nodes, self: Selector, peer: Selector) {
    self == peer || BothSelected(nodes, self, peer) != {}
  }

  lemma ClashesMeans(nodes: Nodes, self: Selector, peer: Selector)
    ensures Clashes(nodes, self, peer) <==>
            self == peer || exists n :: n in nodes && self.Matches(nodes[n]) && peer.Matches(nodes[n])
  {
    if n :| n in nodes && self.Matches(nodes[n]) && peer.Matches(nodes[n]) {
      assert n in BothSelected(nodes, self, peer);
    }
  }

  lemma NoneClashes(nodes: Nodes, self: Selector, peers: map<string, Selector>)
    ensures (forall p | p in peers :: !Clashes(nodes, self, peers[p]) && peers[p].Valid()) <==>
            forall p | p in peers ::
              peers[p] != self && peers[p].Valid() && forall n | n in nodes :: !(self.Matches(nodes[n]) && peers[p].Matches(nodes[n]))
  {
    forall p | p in peers {
      ClashesMeans(nodes, self, peers[p]);
    }
  }

  ghost predicate Describes(c: Conflict, nodes: Nodes, self: Selector, peers: map<string, Selector>) {
    && c.peer in peers
    && match c
       case Identical(p) => peers[p] == self
       case BothSelect(p, ns) => peers[p] != self && ns == BothSelected(nodes, self, peers[p]) && ns != {}
  }

  /** The nodes among `listed` that the peer selects. */
  method MatchingNodes(nodes: Nodes, listed: set<string>, peer: Selector) returns (matching: set<string>)
    requires listed <= nodes.Keys
    ensures matching == set n | n in listed && peer.Matches(nodes[n])
  {
    matching := {};
    var left := listed;
    while left != {}
      invariant left <= listed
      invariant matching == set n | n in listed - left && peer.Matches(nodes[n])
    {
      var n :| n in left;
      left := left - {n};
      if peer.Matches(nodes[n]) {
        matching := matching + {n};
      }
    }
  }

  /** The peers with an identical selector, and the rest, in no particular order. */
  method CompareSelectors(self: Selector, peers: map<string, Selector>) returns (conflicts: seq<Conflict>, needNodeCheck: seq<string>)
    ensures forall p :: Identical(p) in conflicts <==> p in peers && peers[p] == self
    ensures forall c | c in conflicts :: c.Identical?
    ensures forall p :: p in needNodeCheck <==> p in peers && peers[p] != self
  {
    conflicts, needNodeCheck := [], [];
    var left := peers.Keys;
    while left != {}
      invariant left <= peers.Keys
      invariant forall p :: Identical(p) in conflicts <==> p in peers && p !in left && peers[p] == self
      invariant forall c | c in conflicts :: c.Identical?
      invariant forall p :: p in needNodeCheck <==> p in peers && p !in left && peers[p] != self
    {
      var p :| p in left;
      left := left - {p};
      if peers[p] == self {
        conflicts := conflicts + [Identical(p)];
      } else {
        needNodeCheck := needNodeCheck + [p];
      }
    }
  }

  /** The peers in `names` that select a node which self selects; fails on a peer whose
      selector is invalid. */
  method CheckNodes(nodes: Nodes, self: Selector, peers: map<string, Selector>, names: seq<string>)
    returns (ok: bool, conflicts: seq<Conflict>)
    requires forall p | p in names :: p in peers
    ensures ok <==> forall p | p in names :: peers[p].Valid()
    ensures ok ==> forall p, ns :: BothSelect(p, ns) in conflicts <==>
                     p in names && ns == BothSelected(nodes, self, peers[p]) && ns != {}
    ensures forall c | c in conflicts :: c.BothSelect?
  {
    conflicts := [];
    var listed := set n | n in nodes && self.Matches(nodes[n]);
    for i := 0 to |names|
      invariant forall p | p in names[..i] :: peers[p].Valid()
      invariant forall p, ns :: BothSelect(p, ns) in conflicts <==>
                  p in names[..i] && ns == BothSelected(nodes, self, peers[p]) && ns != {}
      invariant forall c | c in conflicts :: c.BothSelect?
    {
      var p := names[i];
      if !peers[p].Valid() {
        return false, [];
      }
      var matching := MatchingNodes(nodes, listed, peers[p]);
      assert matching == BothSelected(nodes, self, peers[p]);
      if matching != {} {
        conflicts := conflicts + [BothSelect(p, matching)];
      }
    }
    return true, conflicts;
  }

  /** findNodeSelectorConflicts: `listing` is whether the nodes can be listed. */
  method FindNodeSelectorConflicts(nodes: Nodes, listing: bool, self: Selector, peers: map<string, Selector>) returns (v: Verdict)
    ensures v.BadSelector? <==> !self.Valid()
    ensures v.Admitted? <==>
              && self.Valid() && (listing || peers == map[])
              && forall p | p in peers :: !Clashes(nodes, self, peers[p]) && peers[p].Valid()
    ensures v.Admitted? && listing <==>
              && self.Valid() && listing
              && forall p | p in peers ::
                   peers[p] != self && peers[p].Valid() && forall n | n in nodes :: !(self.Matches(nodes[n]) && peers[p].Matches(nodes[n]))
    ensures v.InternalError? ==> !listing || exists p :: p in peers && peers[p] != self && !peers[p].Valid()
    ensures v.Conflicts? ==> v.found != [] && forall c | c in v.found :: Describes(c, nodes, self, peers)
    ensures v.Conflicts? ==> forall p | p in peers && Clashes(nodes, self, peers[p]) ::
                               Identical(p) in v.found || BothSelect(p, BothSelected(nodes, self, peers[p])) in v.found
  {
    NoneClashes(nodes, self, peers);
    if !self.Valid() {
      return BadSelector;
    }
    var conflicts, needNodeCheck := CompareSelectors(self, peers);
    var more, ok := [], true;
    if needNodeCheck != [] {
      assert needNodeCheck[0] in needNodeCheck;
      if !listing {
        return InternalError;
      }
      ok, more := CheckNodes(nodes, self, peers, needNodeCheck);
      if !ok {
        return InternalError;
      }
    }
    conflicts := conflicts + more;
    if conflicts != [] {
      assert conflicts[0] in conflicts && conflicts[0].peer in peers;
      return Conflicts(conflicts);
    }
    assert forall p | p in peers :: Identical(p) !in conflicts && BothSelect(p, BothSelected(nodes, self, peers[p])) !in conflicts;
    assert peers != map[] ==> exists p :: p in peers;
    return Admitted;
  }

  // ---- Runs of admissions

  /** The configurations in the cluster: name to node selector. */
  type Store = map<string, Selector>

  /** No node is selected by two configurations, and every selector is valid. */
  ghost predicate AtMostOnePerNode(store: Store, nodes: Nodes) {
    && (forall a | a in store :: store[a].Valid())
    && forall a, b, n | a in store && b in store && a != b && n in nodes :: !(store[a].Matches(nodes[n]) && store[b].Matches(nodes[n]))
  }

  /** A request; `otherwiseOk` is what the checks on reserved CPUs and profiles say. */
  datatype Request =
    | CreateOrUpdate(name: string, selector: Selector, otherwiseOk: bool, listing: bool)
    | Delete(name: string)

  /** The store after one request. */
  ghost function After(store: Store, nodes: Nodes, r: Request): (result: Store) {
    match r
    case Delete(name) => store - {name}
    case CreateOrUpdate(name, s, otherwiseOk, listing) =>
      if otherwiseOk && s.Valid() && (listing || store.Keys <= {name}) && forall p | p in store && p != name :: !Clashes(nodes, s, store[p])
      then store[name := s]
      else store
  }

  ghost function AfterAll(nodes: Nodes, requests: seq<Request>): (r: Store) {
    if requests == [] then map[]
    else After(AfterAll(nodes, requests[..|requests| - 1]), nodes, requests[|requests| - 1])
  }

  class Cluster {
    const nodes: Nodes
    var store: Store

    constructor (nodes: Nodes)
      ensures this.nodes == nodes && store == map[]
    {
      this.nodes, store := nodes, map[];
    }

    /** One request, from validation to storage. */
    method Serve(r: Request)
      requires AtMostOnePerNode(store, nodes)
      modifies this
      ensures AtMostOnePerNode(store, nodes)
      ensures store == After(old(store), nodes, r)
      // Which requests go through.
      ensures r.Delete? ==> store == old(store) - {r.name}
      ensures r.CreateOrUpdate? ==> store == old(store) || store == old(store)[r.name := r.selector]
      ensures r.CreateOrUpdate? && r.listing ==>
                (r.name in store && store[r.name] == r.selector <==>
                   || (r.name in old(store) && old(store)[r.name] == r.selector)
                   || (&& r.otherwiseOk && r.selector.Valid()
                       && forall p | p in old(store) && p != r.name ::
                            old(store)[p] != r.selector && forall n | n in nodes :: !(r.selector.Matches(nodes[n]) && old(store)[p].Matches(nodes[n]))))
    {
      if r.CreateOrUpdate? {
        forall p | p in store {
          ClashesMeans(nodes, r.selector, store[p]);
        }
      }
      match r {
        case Delete(name) =>
          store := store - {name};
        case CreateOrUpdate(name, selector, otherwiseOk, listing) =>
          var peers := store - {name};
          var v := FindNodeSelectorConflicts(nodes, listing, selector, peers);
          assert forall p :: p in peers <==> p in store && p != name;
          assert peers == map[] <==> store.Keys <= {name} by {
            if peers != map[] {
              assert exists p :: p in peers;
            }
          }
          if otherwiseOk && v.Admitted? {
            NoClashKeepsOne(store, nodes, name, selector);
            store := store[name := selector];
          }
      }
    }
  }

  lemma NoClashKeepsOne(store: Store, nodes: Nodes, name: string, s: Selector)
    requires AtMostOnePerNode(store, nodes) && s.Valid()
    requires forall p | p in store && p != name :: !Clashes(nodes, s, store[p])
    ensures AtMostOnePerNode(store[name := s], nodes)
  {
    forall p, n | p in store && p != name && n in nodes
      ensures !(s.Matches(nodes[n]) && store[p].Matches(nodes[n]))
    {
      assert n !in BothSelected(nodes, s, store[p]);
    }
  }

  /** With node labels fixed, any run of creations, updates and deletions keeps at most
      one configuration selecting any node. */
  method ServeAll(nodes: Nodes, requests: seq<Request>) returns (c: Cluster)
    ensures fresh(c) && c.nodes == nodes && c.store == AfterAll(nodes, requests)
    ensures AtMostOnePerNode(c.store, nodes)
  {
    c := new Cluster(nodes);
    for i := 0 to |requests|
      invariant AtMostOnePerNode(c.store, nodes) && c.store == AfterAll(nodes, requests[..i])
    {
      assert requests[..i + 1][..i] == requests[..i];
      c.Serve(requests[i]);
    }
    assert requests[..|requests|] == requests;
  }

  /** Exactly when new labels of a node keep what admission established: when no two
      configurations match them. Whoever relabels can check it beforehand. */
  lemma RelabellingKeepsOneIff(store: Store, nodes: Nodes, n: string, l: Labels)
    requires AtMostOnePerNode(store, nodes)
    ensures AtMostOnePerNode(store, nodes[n := l]) <==>
            forall a, b | a in store && b in store && a != b :: !(store[a].Matches(l) && store[b].Matches(l))
  {
    var after := nodes[n := l];
    assert n in after && after[n] == l;
    assert forall m | m in after && m != n :: m in nodes && after[m] == nodes[m];
  }

  /** Admission cannot see a later change of labels: a label added to a node can make
      two admitted configurations select it. */
  lemma RelabellingCanBreakIt(a: string, b: string, n: string, role: string, zone: string, value: string)
    requires a != b && role != zone
    ensures var store := map[a := Selector(map[role := value], []), b := Selector(map[zone := value], [])];
            && AtMostOnePerNode(store, map[n := map[role := value]])
            && !AtMostOnePerNode(store, map[n := map[role := value, zone := value]])
  {
    var store := map[a := Selector(map[role := value], []), b := Selector(map[zone := value], [])];
    Unmatched(store[b], map[role := value], zone);
    BothMatch(store, map[n := map[role := value, zone := value]], a, b, n);
  }

  lemma Unmatched(s: Selector, labels: Labels, key: string)
    requires key in s.matchLabels && key !in labels
    ensures !s.Matches(labels)
  {
  }

  lemma BothMatch(store: Store, nodes: Nodes, a: string, b: string, n: string)
    requires a in store && b in store && a != b && n in nodes
    requires store[a].Matches(nodes[n]) && store[b].Matches(nodes[n])
    ensures !AtMostOnePerNode(store, nodes)
  {
  }

  // ---- Choosing among the configurations that match a node

  datatype Item = Item(name: string, created: int, selector: Selector)

  /** nodeMatchesSelector; None for an invalid selector. */
  function NodeMatchesSelector(labels: Labels, s: Selector): (r: Option<bool>) {
    if s.matchLabels == map[] && s.matchExpressions == [] then Some(true)
    else if !s.Valid() then None
    else Some(s.Matches(labels))
  }

  /** The items that match, in order. */
  ghost function Matching(items: seq<Item>, labels: Labels): (r: seq<Item>) {
    if items == [] then []
    else
      var init, last := items[..|items| - 1], items[|items| - 1];
      if last.selector.Valid() && last.selector.Matches(labels) then Matching(init, labels) + [last] else Matching(init, labels)
  }

  /** One item after the other, none before its turn. */
  lemma {:induction false} MatchingSplits(a: seq<Item>, b: seq<Item>, labels: Labels)
    ensures Matching(a + b, labels) == Matching(a, labels) + Matching(b, labels)
    decreases |b|
  {
    if b == [] {
      assert a + b == a;
    } else {
      var init, last := b[..|b| - 1], b[|b| - 1];
      MatchingSplits(a, init, labels);
      MatchingOneMore(init, last, labels);
      MatchingOneMore(a + init, last, labels);
      assert b == init + [last] && a + b == a + init + [last];
    }
  }

  lemma MatchingOneMore(init: seq<Item>, last: Item, labels: Labels)
    ensures Matching(init + [last], labels) ==
            Matching(init, labels) + if last.selector.Valid() && last.selector.Matches(labels) then [last] else []
  {
    assert (init + [last])[..|init|] == init;
  }

  method FilterByNodeSelector(items: seq<Item>, labels: Labels) returns (matches: seq<Item>)
    ensures matches == Matching(items, labels)
    ensures forall m :: m in matches <==> m in items && m.selector.Valid() && m.selector.Matches(labels)
  {
    matches := [];
    for i := 0 to |items|
      invariant matches == Matching(items[..i], labels)
      invariant forall m :: m in matches <==> m in items[..i] && m.selector.Valid() && m.selector.Matches(labels)
    {
      assert items[..i + 1][..i] == items[..i];
      var m := NodeMatchesSelector(labels, items[i].selector);
      if m.Some? && m.value {
        matches := matches + [items[i]];
      }
    }
    assert items[..|items|] == items;
  }

  ghost predicate UniqueNames(items: seq<Item>) {
    forall i, j | 0 <= i < j < |items| :: items[i].name != items[j].name
  }

  /** What admission keeps is what selection needs: from admitted configurations, at
      most one matches any node. */
  lemma {:induction false} AdmittedNeverAmbiguous(items: seq<Item>, store: Store, nodes: Nodes, n: string)
    requires UniqueNames(items) && AtMostOnePerNode(store, nodes) && n in nodes
    requires forall i | i in items :: i.name in store && store[i.name] == i.selector
    ensures |Matching(items, nodes[n])| <= 1
    ensures forall m | m in Matching(items, nodes[n]) :: m in items && m.selector.Matches(nodes[n])
  {
    if items != [] {
      var init, last := items[..|items| - 1], items[|items| - 1];
      AdmittedNeverAmbiguous(init, store, nodes, n);
      var rest := Matching(init, nodes[n]);
      if rest != [] {
        assert rest[0] in rest && rest[0] in init && rest[0].name != last.name;
      }
    }
  }

  /** Go's string order. */
  predicate Less(a: string, b: string) {
    b != [] && (a == [] || a[0] < b[0] || (a[0] == b[0] && Less(a[1..], b[1..])))
  }

  lemma {:induction false} LessTotal(a: string, b: string)
    ensures a == b || Less(a, b) || Less(b, a)
  {
    if a != [] && b != [] && a[0] == b[0] {
      LessTotal(a[1..], b[1..]);
      assert a == [a[0]] + a[1..] && b == [b[0]] + b[1..];
    }
  }

  lemma {:induction false} LessTransitive(a: string, b: string, c: string)
    ensures Less(a, b) && Less(b, c) ==> Less(a, c)
    ensures !(Less(a, b) && Less(b, a))
  {
    if a != [] && b != [] && a[0] == b[0] {
      if c != [] {
        LessTransitive(a[1..], b[1..], c[1..]);
      } else {
        LessTransitive(a[1..], b[1..], c);
      }
    }
  }

  /** The first character that differs decides; a name comes before its continuations. */
  lemma {:induction false} LessMeans(a: string, b: string)
    ensures Less(a, b) <==>
            exists k: nat :: k <= |a| && k < |b| && a[..k] == b[..k] && (k == |a| || a[k] < b[k])
  {
    assert forall k: nat | 0 < k <= |a| && k < |b| :: a[..k][0] == a[0] && b[..k][0] == b[0];
    if a != [] && b != [] && a[0] == b[0] {
      LessMeans(a[1..], b[1..]);
      if k: nat :| k <= |a[1..]| && k < |b[1..]| && a[1..][..k] == b[1..][..k] && (k == |a[1..]| || a[1..][k] < b[1..][k]) {
        assert a[..k + 1] == [a[0]] + a[1..][..k] && b[..k + 1] == [b[0]] + b[1..][..k];
      }
      if k: nat :| 0 < k <= |a| && k < |b| && a[..k] == b[..k] && (k == |a| || a[k] < b[k]) {
        assert a[1..][..k - 1] == a[..k][1..] && b[1..][..k - 1] == b[..k][1..];
      }
    } else if b != [] {
      assert a[..0] == b[..0];
    }
  }

  /** a is sorted before b: by creation time, then by name. */
  predicate Older(a: Item, b: Item) {
    a.created < b.created || (a.created == b.created && Less(a.name, b.name))
  }

  lemma OlderIsOrder(a: Item, b: Item, c: Item)
    ensures a.name == b.name || Older(a, b) || Older(b, a)
    ensures !(Older(a, b) && Older(b, a))
    ensures Older(a, b) && Older(b, c) ==> Older(a, c)
    ensures !Older(b, a) && !Older(c, b) ==> !Older(c, a)
  {
    LessTotal(a.name, b.name);
    LessTotal(b.name, c.name);
    LessTransitive(a.name, b.name, c.name);
    LessTransitive(c.name, a.name, b.name);
    LessTransitive(c.name, b.name, a.name);
    LessTransitive(b.name, c.name, a.name);
  }

  /** The rule: the active item if it still matches, else the oldest. */
  ghost predicate Selects(items: seq<Item>, active: string, r: Option<Item>) {
    if items == [] then r.None?
    else
      && r.Some? && r.value in items
      && if active != "" && exists i :: i in items && i.name == active then r.value.name == active
         else forall i | i in items :: !Older(i, r.value)
  }

  method OldestFrom(a: array<Item>, n: nat) returns (m: nat)
    requires n < a.Length
    ensures n <= m < a.Length && forall j | n <= j < a.Length :: !Older(a[j], a[m])
  {
    m := n;
    for k := n to a.Length
      invariant n <= m < a.Length
      invariant forall j | n <= j < k :: !Older(a[j], a[m])
    {
      OlderIsOrder(a[k], a[k], a[k]);
      if Older(a[k], a[m]) {
        forall j | n <= j < k
          ensures !Older(a[j], a[k])
        {
          OlderIsOrder(a[k], a[m], a[j]);
        }
        m := k;
      }
    }
  }

  /** The first n items are in their places: nobody behind them is older. */
  ghost predicate InPlace(items: seq<Item>, n: nat) {
    forall i, j | 0 <= i < n && i < j < |items| :: !Older(items[j], items[i])
  }

  lemma SwapInPlace(items: seq<Item>, n: nat, m: nat)
    requires n <= m < |items| && InPlace(items, n) && forall j | n <= j < |items| :: !Older(items[j], items[m])
    ensures InPlace(items[n := items[m]][m := items[n]], n + 1)
    ensures multiset(items[n := items[m]][m := items[n]]) == multiset(items)
  {
  }

  /** sort.Slice: the matches in order of age. */
  method SortByAge(a: array<Item>)
    modifies a
    ensures multiset(a[..]) == multiset(old(a[..]))
    ensures forall i, j | 0 <= i < j < a.Length :: !Older(a[j], a[i])
  {
    for n := 0 to a.Length
      invariant multiset(a[..]) == multiset(old(a[..])) && InPlace(a[..], n)
    {
      var m := OldestFrom(a, n);
      ghost var before := a[..];
      SwapInPlace(before, n, m);
      a[n], a[m] := a[m], a[n];
      assert a[..] == before[n := before[m]][m := before[n]];
    }
    assert forall i | 0 <= i < a.Length :: a[i] == a[..][i];
  }

  /** selectActiveOrOldest. */
  method SelectActiveOrOldest(matches: array<Item>, active: string) returns (r: Option<Item>)
    modifies matches
    ensures multiset(matches[..]) == multiset(old(matches[..]))
    ensures Selects(old(matches[..]), active, r)
    // The active item while it matches; else none was created before the choice, nor at the
    // same time under a name that comes first.
    ensures r.Some? <==> matches.Length > 0
    ensures r.Some? ==> r.value in old(matches[..])
    ensures active != "" && (exists m :: m in old(matches[..]) && m.name == active) ==> r.value.name == active
    ensures (forall m | m in old(matches[..]) :: m.name != active) || active == "" ==>
              forall m | m in old(matches[..]) ::
                && r.value.created <= m.created
                && (m.created == r.value.created && m.name != r.value.name ==> Less(r.value.name, m.name))
  {
    if matches.Length == 0 {
      return None;
    }
    if active != "" {
      for i := 0 to matches.Length
        invariant forall k | 0 <= k < i :: matches[k].name != active
      {
        if matches[i].name == active {
          assert matches[i] in matches[..];
          return Some(matches[i]);
        }
      }
    }
    ghost var before := matches[..];
    assert forall i | i in before :: active == "" || i.name != active;
    SortByAge(matches);
    SameMembers(before, matches[..]);
    OlderIsOrder(matches[0], matches[0], matches[0]);
    forall m | m in before {
      LessTotal(m.name, matches[0].name);
    }
    return Some(matches[0]);
  }

  lemma SameMembers(a: seq<Item>, b: seq<Item>)
    requires multiset(a) == multiset(b)
    ensures |a| == |b| && forall i :: i in a <==> i in b
  {
    assert |multiset(a)| == |a| && |multiset(b)| == |b|;
    forall i
      ensures i in a <==> i in b
    {
      assert i in a <==> i in multiset(a);
      assert i in b <==> i in multiset(b);
    }
  }

  lemma UniqueNamesInjective(items: seq<Item>, a: Item, b: Item)
    requires UniqueNames(items) && a in items && b in items && a.name == b.name
    ensures a == b
  {
    var i :| 0 <= i < |items| && items[i] == a;
    var j :| 0 <= j < |items| && items[j] == b;
    assert i == j;
  }

  /** The choice does not depend on the order in which the matches are listed. */
  lemma SelectionIgnoresOrder(items: seq<Item>, permuted: seq<Item>, active: string, r: Option<Item>, q: Option<Item>)
    requires UniqueNames(items) && multiset(items) == multiset(permuted)
    requires Selects(items, active, r) && Selects(permuted, active, q)
    ensures r == q
  {
    SameMembers(items, permuted);
    if items != [] {
      OlderIsOrder(r.value, q.value, r.value);
      assert r.value.name == q.value.name;
      UniqueNamesInjective(items, r.value, q.value);
    }
  }

  /** Over a run of selections, each made with the previous choice as the active name,
      a choice is kept for as long as it still matches. */
  lemma {:induction false} ChoiceIsSticky(lists: seq<seq<Item>>, choices: seq<Option<Item>>, name: string)
    requires |lists| == |choices| && |lists| > 0 && name != ""
    requires choices[0].Some? && choices[0].value.name == name
    requires forall k: nat | 0 < k < |lists| :: exists i :: i in lists[k] && i.name == name
    requires forall k: nat | 0 < k < |lists| ::
               Selects(lists[k], if choices[k - 1].Some? then choices[k - 1].value.name else "", choices[k])
    ensures forall k: nat | k < |lists| :: choices[k].Some? && choices[k].value.name == name
  {
    var last := |lists| - 1;
    if last > 0 {
      ChoiceIsSticky(lists[..last], choices[..last], name);
      assert choices[last - 1] == choices[..last][last - 1];
    }
  }
}
