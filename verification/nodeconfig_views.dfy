/** What applying a PowerNodeConfig comes to, on views: the effect of each step of
    controllers/powernodeconfig_controller.go, and the end state of all of them. */
module NodeConfigViews {
  import opened Text
  import opened Settings
  import opened Views
  import opened Slices

  datatype Group = Group(cores: seq<nat>, profile: string)

  datatype Config = Config(sharedProfile: string, groups: seq<Group>)

  // ---- names of pseudo-reserved pools

  function Prefix(node: string): (r: string) {
    node + "-reserved-"
  }

  function Texts(cores: seq<nat>): (r: seq<string>) {
    if cores == [] then [] else [Itoa(cores[0])] + Texts(cores[1..])
  }

  /** The cores, separated by blanks, up to the closing bracket. */
  function CoresText(cores: seq<nat>): (r: string) {
    Join(Texts(cores), ' ') + "]"
  }

  /** fmt.Sprintf("%s-reserved-%v", node, cores). */
  function PoolName(node: string, cores: seq<nat>): (r: string) {
    Prefix(node) + "[" + CoresText(cores)
  }

  ghost function LeadingDigits(s: string): (r: nat) {
    if s == [] || !IsDigit(s[0]) then 0 else 1 + LeadingDigits(s[1..])
  }

  lemma {:induction false} LeadingDigitsOf(x: string, r: string)
    requires AllDigits(x) && r != [] && !IsDigit(r[0])
    ensures LeadingDigits(x + r) == |x|
  {
    if x == [] {
      assert x + r == r;
    } else {
      LeadingDigitsOf(x[1..], r);
      assert (x + r)[1..] == x[1..] + r;
    }
  }

  lemma DigitPrefixUnique(x: string, y: string, r: string, q: string)
    requires AllDigits(x) && AllDigits(y) && r != [] && q != [] && !IsDigit(r[0]) && !IsDigit(q[0])
    requires x + r == y + q
    ensures x == y
  {
    LeadingDigitsOf(x, r);
    LeadingDigitsOf(y, q);
    assert (x + r)[..|x|] == x && (y + q)[..|y|] == y;
  }

  lemma FirstCore(cores: seq<nat>) returns (rest: string)
    requires cores != []
    ensures rest != [] && !IsDigit(rest[0]) && CoresText(cores) == Itoa(cores[0]) + rest
  {
    var first, others := Itoa(cores[0]), Texts(cores[1..]);
    assert Texts(cores) == [first] + others;
    if others == [] {
      rest := "]";
    } else {
      assert ([first] + others)[1..] == others;
      rest := [' '] + Join(others, ' ') + "]";
      assert first + [' '] + Join(others, ' ') + "]" == first + rest;
    }
  }

  /** Groups that start with different cores get different pools. */
  lemma PoolNamesDiffer(node: string, a: seq<nat>, b: seq<nat>)
    requires a != [] && b != [] && a[0] != b[0]
    ensures PoolName(node, a) != PoolName(node, b)
  {
    var r := FirstCore(a);
    var q := FirstCore(b);
    if PoolName(node, a) == PoolName(node, b) {
      var head := Prefix(node) + "[";
      assert (head + CoresText(a))[|head|..] == CoresText(a);
      assert (head + CoresText(b))[|head|..] == CoresText(b);
      DigitPrefixUnique(Itoa(a[0]), Itoa(b[0]), r, q);
      ItoaInjective(a[0], b[0]);
    }
  }

  predicate IsPseudo(node: string, pool: Home) {
    pool.InPool? && HasPrefix(pool.name, Prefix(node))
  }

  // ---- removing pools: what the loops over the host's slice achieve

  /** The given exclusive pools are gone and their CPUs are shared. */
  function Evicted(v: View, gone: set<Home>): (r: View) {
    View(seq(|v.homes|, i requires 0 <= i < |v.homes| => if v.homes[i] in gone then InShared else v.homes[i]),
         v.profiles - gone)
  }

  lemma EvictNone(v: View)
    ensures Evicted(v, {}) == v
  {
    assert Evicted(v, {}).homes == v.homes;
  }

  lemma EvictOneMore(v: View, gone: set<Home>, pool: Home)
    requires pool.InPool? && InShared !in gone
    ensures Evicted(v, gone).SetMembers([], pool).Drop(pool) == Evicted(v, gone + {pool})
  {
    assert Evicted(v, gone).SetMembers([], pool).homes == Evicted(v, gone + {pool}).homes;
    assert v.profiles - gone - {pool} == v.profiles - (gone + {pool});
  }

  function PseudoAmong(node: string, names: seq<string>): (r: set<Home>) {
    set n | n in names && IsPseudo(node, InPool(n)) :: InPool(n)
  }

  function PseudoPools(node: string, v: View): (r: set<Home>) {
    set h | h in v.profiles && IsPseudo(node, h)
  }

  lemma PseudoOneMore(node: string, names: seq<string>, i: nat)
    requires i < |names|
    ensures PseudoAmong(node, names[..i + 1]) ==
            PseudoAmong(node, names[..i]) + if IsPseudo(node, InPool(names[i])) then {InPool(names[i])} else {}
  {
    assert forall n :: n in names[..i + 1] <==> n in names[..i] || n == names[i];
  }

  // ---- what failing calls leave alone

  /** CPUs outside the given cores and the pseudo-reserved pools have not moved, and no
      other pool has come, gone or changed its profile. */
  ghost predicate OnlyTouches(v: View, w: View, node: string, cores: seq<nat>) {
    && |w.homes| == |v.homes|
    && (forall id: nat | id < |v.homes| && id !in cores && !IsPseudo(node, v.homes[id]) :: w.homes[id] == v.homes[id])
    && SameOtherPools(v.profiles, w.profiles, node)
  }

  ghost predicate SameOtherPools(before: map<Home, Option<Profile>>, after: map<Home, Option<Profile>>, node: string) {
    forall h | !IsPseudo(node, h) :: (h in after <==> h in before) && (h in before ==> after[h] == before[h])
  }

  lemma TouchesTransitive(v: View, w: View, u: View, node: string, cores: seq<nat>, more: seq<nat>)
    requires OnlyTouches(v, w, node, cores) && OnlyTouches(w, u, node, more)
    ensures OnlyTouches(v, u, node, cores + more)
  {
    forall id: nat | id < |v.homes| && id !in cores + more && !IsPseudo(node, v.homes[id])
      ensures u.homes[id] == v.homes[id]
    {
      assert id !in cores && id !in more && w.homes[id] == v.homes[id];
    }
  }

  lemma TouchesThen(v: View, w: View, u: View, node: string, cores: seq<nat>)
    requires OnlyTouches(v, w, node, []) && OnlyTouches(w, u, node, cores)
    ensures OnlyTouches(v, u, node, cores)
  {
    TouchesTransitive(v, w, u, node, [], cores);
    assert [] + cores == cores;
  }

  lemma TouchesAgain(v: View, w: View, u: View, node: string, cores: seq<nat>)
    requires OnlyTouches(v, w, node, cores) && OnlyTouches(w, u, node, cores)
    ensures OnlyTouches(v, u, node, cores)
  {
    TouchesTransitive(v, w, u, node, cores, cores);
    assert forall id :: id in cores + cores <==> id in cores;
  }

  lemma TouchesMore(v: View, w: View, node: string, cores: seq<nat>, all: seq<nat>)
    requires OnlyTouches(v, w, node, cores) && cores <= all
    ensures OnlyTouches(v, w, node, all)
  {
    assert forall id | id in cores :: id in all;
  }

  /** Profile pools keep their CPUs outside the given cores, and their profiles. */
  ghost predicate KeepsProfilePools(v: View, w: View, node: string, cores: seq<nat>) {
    && |w.homes| == |v.homes|
    && (forall id: nat | id < |v.homes| && id !in cores && IsProfilePool(node, v.homes[id]) :: w.homes[id] == v.homes[id])
    && (forall h | IsProfilePool(node, h) :: (h in w.profiles <==> h in v.profiles) && (h in v.profiles ==> w.profiles[h] == v.profiles[h]))
  }

  predicate IsProfilePool(node: string, h: Home) {
    h.InPool? && !IsPseudo(node, h)
  }

  lemma TouchesKeeps(v: View, w: View, node: string, cores: seq<nat>)
    requires OnlyTouches(v, w, node, cores)
    ensures KeepsProfilePools(v, w, node, cores)
  {
  }

  lemma KeepsNothing(v: View, node: string)
    ensures KeepsProfilePools(v, v, node, [])
  {
  }

  lemma KeepsMore(v: View, w: View, node: string, cores: seq<nat>)
    requires KeepsProfilePools(v, w, node, [])
    ensures KeepsProfilePools(v, w, node, cores)
  {
  }

  lemma KeepsTransitive(v: View, w: View, u: View, node: string, cores: seq<nat>)
    requires KeepsProfilePools(v, w, node, []) && KeepsProfilePools(w, u, node, cores)
    ensures KeepsProfilePools(v, u, node, cores)
  {
  }

  /** Giving shared another profile and draining reserved, or part of it, into shared. */
  lemma SharedStepsKeep(v: View, node: string, p: Option<Profile>, n: nat)
    ensures KeepsProfilePools(v, v.SetProfile(InShared, p), node, [])
    ensures KeepsProfilePools(v, v.SetProfile(InShared, p).Replace([], InReserved, n), node, [])
  {
  }

  lemma TouchesNothing(v: View, node: string, cores: seq<nat>)
    ensures OnlyTouches(v, v, node, cores)
  {
  }

  lemma MoveTouches(v: View, node: string, cores: seq<nat>, n: nat, to: Home)
    requires n <= |cores|
    ensures OnlyTouches(v, v.Move(cores[..n], to), node, cores)
  {
    assert forall id | id in cores[..n] :: id in cores;
  }

  lemma ReplaceTouches(v: View, node: string, cores: seq<nat>, pool: Home, n: nat)
    requires IsPseudo(node, pool)
    ensures OnlyTouches(v, v.Replace(cores, pool, n), node, cores)
  {
  }

  lemma ProfileTouches(v: View, node: string, pool: Home, p: Option<Profile>)
    requires IsPseudo(node, pool)
    ensures OnlyTouches(v, v.SetProfile(pool, p), node, []) && OnlyTouches(v, v.Drop(pool), node, [])
  {
  }

  /** A removal, complete or cut short while draining. */
  lemma RemovalTouches(v: View, node: string, pool: Home, done: nat)
    requires IsPseudo(node, pool)
    ensures OnlyTouches(v, v.Replace([], pool, done), node, []) && OnlyTouches(v, v.SetMembers([], pool).Drop(pool), node, [])
  {
  }

  /** All pools whose names the host's slice lists, and no others. */
  lemma PseudoAmongAll(v: View, node: string, names: seq<string>)
    requires forall n :: n in names <==> InPool(n) in v.profiles
    ensures PseudoAmong(node, names) == PseudoPools(node, v)
  {
  }

  // ---- one reserved group

  /** A pool can be made for the group: its name is free and the group's profile
      has a pool (the new pool is already registered when that is looked up). */
  predicate CanPlace(v: View, node: string, g: Group) {
    var own := InPool(PoolName(node, g.cores));
    own !in v.profiles && InPool(g.profile) in v.SetProfile(own, None).profiles
  }

  /** The group in a pool of its own, with the profile of its profile's pool. */
  function Placed(v: View, node: string, g: Group): (r: View)
    requires CanPlace(v, node, g)
  {
    var own := InPool(PoolName(node, g.cores));
    var added := v.SetProfile(own, None);
    added.SetProfile(own, added.profiles[InPool(g.profile)]).SetMembers(g.cores, own)
  }

  /** A group that gets no pool of its own goes to the default reserved pool. */
  function AfterGroup(v: View, node: string, g: Group): (r: View) {
    var shared := v.Move(g.cores, InShared);
    if g.profile != "" && CanPlace(shared, node, g) then Placed(shared, node, g)
    else shared.Move(g.cores, InReserved)
  }

  /** Once a group's cores are shared, all of them can be moved anywhere. */
  lemma AllShared(v: View, cores: seq<nat>, to: Home)
    requires v.Known(cores)
    ensures v.CanMoveAll(cores, InShared)
    ensures var shared := v.Move(cores, InShared);
            shared.Known(cores) && shared.CanMoveAll(cores, to) && forall c | c in cores :: shared.homes[c] == InShared
  {
    assert forall k | 0 <= k < |cores| :: cores[k] in cores;
  }

  function AfterGroups(v: View, node: string, groups: seq<Group>): (r: View) {
    if groups == [] then v
    else AfterGroup(AfterGroups(v, node, groups[..|groups| - 1]), node, groups[|groups| - 1])
  }

  lemma SetProfileDrop(v: View, own: Home, p: Option<Profile>)
    requires v.Ok() && own.InPool? && own !in v.profiles
    ensures v.SetProfile(own, p).SetMembers([], own).Drop(own) == v
  {
    assert v.SetProfile(own, p).SetMembers([], own).homes == v.homes;
    assert v.profiles[own := p] - {own} == v.profiles;
  }

  /** What becomes of a new pool once its group's cores are shared. */
  lemma AddedPool(v: View, node: string, g: Group)
    requires v.Ok() && Own(node, g) !in v.profiles
    ensures var (own, added) := (Own(node, g), v.SetProfile(Own(node, g), None));
            && added.SetMembers([], own).Drop(own) == v
            && (CanPlace(v, node, g) <==> InPool(g.profile) in added.profiles)
            && (CanPlace(v, node, g) ==>
                  added.SetProfile(own, added.profiles[InPool(g.profile)]).SetMembers(g.cores, own) == Placed(v, node, g))
            && (v.Known(g.cores) && (forall c | c in g.cores :: v.homes[c] == InShared) ==>
                  added.Known(g.cores) && added.CanMoveAll(g.cores, own))
  {
    SetProfileDrop(v, Own(node, g), None);
    assert forall k | 0 <= k < |g.cores| :: g.cores[k] in g.cores;
  }

  ghost predicate AllKnown(v: View, groups: seq<Group>) {
    forall k | 0 <= k < |groups| :: v.Known(groups[k].cores)
  }

  /** The list holds exactly the CPUs of a pool. */
  ghost predicate Holds(cpus: seq<nat>, homes: seq<Home>, pool: Home) {
    forall c :: c in cpus <==> 0 <= c < |homes| && homes[c] == pool
  }

  function SharedSource(v: View, c: Config): (r: Option<Profile>) {
    if InPool(c.sharedProfile) in v.profiles then v.profiles[InPool(c.sharedProfile)] else None
  }

  function AfterShared(v: View, profile: Option<Profile>): (r: View) {
    v.SetProfile(InShared, profile).SetMembers([], InReserved)
  }

  /** Pseudo-reserved pools are gone; their CPUs and the shared ones are reserved;
      nothing else changed. */
  function CleanedUp(v: View, node: string): (r: View) {
    var gone := PseudoPools(node, v);
    View(seq(|v.homes|, i requires 0 <= i < |v.homes| =>
           if v.homes[i] in gone || v.homes[i] == InShared then InReserved else v.homes[i]),
         v.profiles - gone)
  }

  /** Removing a pool makes its CPUs shared. */
  lemma HoldsMore(cpus: seq<nat>, list: seq<nat>, v: View, pool: Home)
    requires pool.InPool? && Holds(cpus, v.homes, InShared) && Holds(list, v.homes, pool)
    ensures Holds(cpus + list, v.SetMembers([], pool).Drop(pool).homes, InShared)
  {
  }

  /** Moving shared CPUs, or some of them, leaves the profile pools alone. */
  lemma HeldMoveKeeps(v: View, u: View, node: string, cpus: seq<nat>, n: nat)
    requires KeepsProfilePools(v, u, node, []) && Holds(cpus, u.homes, InShared) && n <= |cpus|
    ensures KeepsProfilePools(v, u.Move(cpus[..n], InReserved), node, [])
  {
    assert forall id | id in cpus[..n] :: id in cpus;
  }

  lemma MoveHeld(v: View, cpus: seq<nat>)
    requires Holds(cpus, v.homes, InShared)
    ensures v.Known(cpus) && v.CanMoveAll(cpus, InReserved)
  {
    assert forall k | 0 <= k < |cpus| :: cpus[k] in cpus;
  }

  lemma CleanupIsMove(v: View, node: string, cpus: seq<nat>)
    requires Holds(cpus, Evicted(v, PseudoPools(node, v)).homes, InShared)
    ensures Evicted(v, PseudoPools(node, v)).Move(cpus, InReserved) == CleanedUp(v, node)
  {
    var moved := Evicted(v, PseudoPools(node, v)).Move(cpus, InReserved);
    assert moved.homes == CleanedUp(v, node).homes;
  }

  /** After a cleanup the shared pool is empty, no pseudo-reserved pool is left,
      every profile pool keeps its CPUs and its profile, and all other CPUs are in
      the default reserved pool. */
  lemma CleanupExact(v: View, node: string)
    requires v.Ok()
    ensures var w := CleanedUp(v, node);
            && w.Ok() && |w.homes| == |v.homes|
            && (forall h | h in w.profiles :: !IsPseudo(node, h) && w.profiles[h] == v.profiles[h])
            && (forall h | h in v.profiles && !IsPseudo(node, h) :: h in w.profiles)
            && (forall i | 0 <= i < |v.homes| ::
                  w.homes[i] == if v.homes[i].InPool? && !IsPseudo(node, v.homes[i]) then v.homes[i] else InReserved)
  {
  }

  // ---- what applying a config comes to

  ghost predicate InGroup(groups: seq<Group>, k: nat, id: nat) {
    k < |groups| && id in groups[k].cores
  }

  /** What validation and the CRD ask of the groups: disjoint, not empty. */
  ghost predicate GoodGroups(groups: seq<Group>) {
    && (forall k: nat | k < |groups| :: groups[k].cores != [])
    && (forall k: nat, l: nat, id: nat | k < l && InGroup(groups, k, id) :: !InGroup(groups, l, id))
  }

  predicate HasOwnPool(v: View, g: Group) {
    g.profile != "" && InPool(g.profile) in v.profiles
  }

  function Own(node: string, g: Group): (r: Home) {
    InPool(PoolName(node, g.cores))
  }

  function GroupHome(v: View, node: string, g: Group): (r: Home) {
    if HasOwnPool(v, g) then Own(node, g) else InReserved
  }

  ghost predicate OwnPool(v: View, node: string, groups: seq<Group>, k: nat, h: Home) {
    k < |groups| && HasOwnPool(v, groups[k]) && h == Own(node, groups[k])
  }

  /** Starting from v, the first n groups sit where they should and nothing else
      moved: a group whose profile has a pool is alone in its own pool, which carries
      that profile; the other groups are in the default reserved pool. */
  ghost predicate GroupsPlaced(v: View, node: string, groups: seq<Group>, n: nat, w: View) {
    HomesPlaced(v, node, groups, n, w.homes) && PoolsPlaced(v, node, groups, n, w.profiles)
  }

  ghost predicate HomesPlaced(v: View, node: string, groups: seq<Group>, n: nat, homes: seq<Home>) {
    && |homes| == |v.homes|
    && (forall k: nat, id: nat | k < n && InGroup(groups, k, id) && id < |homes| :: homes[id] == GroupHome(v, node, groups[k]))
    && (forall id: nat | id < |homes| && Ungrouped(groups, n, id) :: homes[id] == v.homes[id])
  }

  ghost predicate PoolsPlaced(v: View, node: string, groups: seq<Group>, n: nat, profiles: map<Home, Option<Profile>>) {
    && (forall h | h in profiles && h !in v.profiles :: exists k: nat :: k < n && OwnPool(v, node, groups, k, h))
    && (forall h | h in v.profiles :: h in profiles && profiles[h] == v.profiles[h])
    && (forall k: nat, h | k < n && OwnPool(v, node, groups, k, h) ::
          h in profiles && profiles[h] == v.profiles[InPool(groups[k].profile)])
  }

  ghost predicate Ungrouped(groups: seq<Group>, n: nat, id: nat) {
    forall k: nat | k < n :: !InGroup(groups, k, id)
  }

  ghost predicate NoPseudo(v: View, node: string, groups: seq<Group>) {
    && (forall h | h in v.profiles :: !IsPseudo(node, h))
    && (forall k: nat | k < |groups| :: !IsPseudo(node, InPool(groups[k].profile)))
  }

  lemma OwnIsPseudo(node: string, g: Group)
    ensures IsPseudo(node, Own(node, g))
  {
    assert PoolName(node, g.cores)[..|Prefix(node)|] == Prefix(node);
  }

  /** Disjoint groups have different pools. */
  lemma OwnPoolsDiffer(node: string, groups: seq<Group>, k: nat, l: nat)
    requires GoodGroups(groups) && k < l < |groups|
    ensures Own(node, groups[k]) != Own(node, groups[l])
  {
    var a, b := groups[k].cores, groups[l].cores;
    assert InGroup(groups, k, a[0]) && InGroup(groups, l, b[0]);
    PoolNamesDiffer(node, a, b);
  }

  lemma {:induction false} AfterGroupsExact(v: View, node: string, groups: seq<Group>, n: nat)
    requires n <= |groups|
    requires v.Ok() && GoodGroups(groups) && NoPseudo(v, node, groups) && AllKnown(v, groups)
    ensures GroupsPlaced(v, node, groups, n, AfterGroups(v, node, groups[..n]))
  {
    if n > 0 {
      AfterGroupsExact(v, node, groups, n - 1);
      assert groups[..n][..n - 1] == groups[..n - 1];
      AfterGroupExact(v, node, groups, n - 1, AfterGroups(v, node, groups[..n - 1]));
    }
  }

  /** The next group's pool is new: no pool has its name and no CPU is in it. */
  lemma OwnIsNew(v: View, node: string, groups: seq<Group>, n: nat, u: View)
    requires n < |groups|
    requires v.Ok() && GoodGroups(groups) && NoPseudo(v, node, groups) && AllKnown(v, groups)
    requires GroupsPlaced(v, node, groups, n, u)
    ensures Own(node, groups[n]) !in u.profiles
    ensures forall id: nat | id < |u.homes| :: u.homes[id] != Own(node, groups[n])
    ensures groups[n].profile != "" && CanPlace(u.Move(groups[n].cores, InShared), node, groups[n]) <==> HasOwnPool(v, groups[n])
  {
    var own := Own(node, groups[n]);
    OwnIsPseudo(node, groups[n]);
    forall k: nat | k < n
      ensures Own(node, groups[k]) != own
    {
      OwnPoolsDiffer(node, groups, k, n);
    }
    if InPool(groups[n].profile) in u.profiles && InPool(groups[n].profile) !in v.profiles {
      var k: nat :| k < n && OwnPool(v, node, groups, k, InPool(groups[n].profile));
      OwnIsPseudo(node, groups[k]);
    }
    forall id: nat | id < |u.homes|
      ensures u.homes[id] != own
    {
      if k: nat :| k < n && InGroup(groups, k, id) {
        assert u.homes[id] == GroupHome(v, node, groups[k]);
      } else {
        assert Ungrouped(groups, n, id) && u.homes[id] == v.homes[id];
      }
    }
  }

  lemma AfterGroupExact(v: View, node: string, groups: seq<Group>, n: nat, u: View)
    requires n < |groups|
    requires v.Ok() && GoodGroups(groups) && NoPseudo(v, node, groups) && AllKnown(v, groups)
    requires GroupsPlaced(v, node, groups, n, u)
    ensures GroupsPlaced(v, node, groups, n + 1, AfterGroup(u, node, groups[n]))
  {
    OwnIsNew(v, node, groups, n, u);
    var g, w := groups[n], AfterGroup(u, node, groups[n]);
    assert forall id: nat | id < |w.homes| ::
        w.homes[id] == if InGroup(groups, n, id) then GroupHome(v, node, g) else u.homes[id];
    HomesGrow(v, node, groups, n, u.homes, w.homes);
    PoolsGrow(v, node, groups, n, u.profiles, w.profiles);
  }

  lemma HomesGrow(v: View, node: string, groups: seq<Group>, n: nat, before: seq<Home>, after: seq<Home>)
    requires n < |groups| && GoodGroups(groups)
    requires HomesPlaced(v, node, groups, n, before) && |after| == |before|
    requires forall id: nat | id < |after| ::
               after[id] == if InGroup(groups, n, id) then GroupHome(v, node, groups[n]) else before[id]
    ensures HomesPlaced(v, node, groups, n + 1, after)
  {
    forall k: nat, id: nat | k < n + 1 && InGroup(groups, k, id) && id < |after|
      ensures after[id] == GroupHome(v, node, groups[k])
    {
      assert k < n ==> !InGroup(groups, n, id);
    }
    forall id: nat | id < |after| && Ungrouped(groups, n + 1, id)
      ensures after[id] == v.homes[id]
    {
      assert Ungrouped(groups, n, id) && !InGroup(groups, n, id);
    }
  }

  lemma PoolsGrow(v: View, node: string, groups: seq<Group>, n: nat, before: map<Home, Option<Profile>>, after: map<Home, Option<Profile>>)
    requires n < |groups| && PoolsPlaced(v, node, groups, n, before) && Own(node, groups[n]) !in before
    requires after == if HasOwnPool(v, groups[n]) then before[Own(node, groups[n]) := v.profiles[InPool(groups[n].profile)]] else before
    ensures PoolsPlaced(v, node, groups, n + 1, after)
  {
    assert HasOwnPool(v, groups[n]) ==> OwnPool(v, node, groups, n, Own(node, groups[n]));
  }

  /** What the groups ask of the view they start from. */
  ghost predicate CleanStart(v: View, node: string, groups: seq<Group>) {
    v.Ok() && GoodGroups(groups) && NoPseudo(v, node, groups) && AllKnown(v, groups)
  }

  /** The next group gets a pool of its own exactly if its profile has a pool. */
  lemma NextPlaced(v: View, node: string, groups: seq<Group>, n: nat)
    requires n < |groups| && CleanStart(v, node, groups)
    ensures groups[n].profile != "" && CanPlace(AfterGroups(v, node, groups[..n]).Move(groups[n].cores, InShared), node, groups[n]) <==>
            HasOwnPool(v, groups[n])
  {
    AfterGroupsExact(v, node, groups, n);
    OwnIsNew(v, node, groups, n, AfterGroups(v, node, groups[..n]));
  }

  // ---- the whole reconciliation

  /** What applying config c to v ends in. */
  ghost predicate ConfigResult(v: View, node: string, c: Config, w: View) {
    && |w.homes| == |v.homes|
    // Each group is in its own pool if its profile has one, else in reserved.
    && (forall k: nat, id: nat | InGroup(c.groups, k, id) && id < |w.homes| ::
          w.homes[id] == GroupHome(v, node, c.groups[k]))
    // Outside the groups, CPUs of profile pools stay and all others are shared.
    && (forall id: nat | id < |w.homes| && Ungrouped(c.groups, |c.groups|, id) ::
          w.homes[id] == if v.homes[id].InPool? && !IsPseudo(node, v.homes[id]) then v.homes[id] else InShared)
    // The pools are the profile pools, unchanged, and the groups' own pools.
    && (forall h | h in w.profiles ::
          (h in v.profiles && !IsPseudo(node, h)) || exists k: nat :: OwnPool(v, node, c.groups, k, h))
    && (forall h | h in v.profiles && !IsPseudo(node, h) ::
          h in w.profiles && (h != InShared ==> w.profiles[h] == v.profiles[h]))
    && (forall k: nat, h | OwnPool(v, node, c.groups, k, h) ::
          h in w.profiles && w.profiles[h] == v.profiles[InPool(c.groups[k].profile)])
    // The shared pool carries the configured profile.
    && InShared in w.profiles && w.profiles[InShared] == SharedSource(v, c)
  }

  /** A config that passed validation, on a node where no profile is named like a
      pseudo-reserved pool. */
  ghost predicate GoodConfig(v: View, node: string, c: Config) {
    && GoodGroups(c.groups) && AllKnown(v, c.groups)
    && !IsPseudo(node, InPool(c.sharedProfile))
    && forall k: nat | k < |c.groups| :: !IsPseudo(node, InPool(c.groups[k].profile))
  }

  function Prepared(v: View, node: string, c: Config): (r: View) {
    var shared := AfterShared(v, SharedSource(v, c));
    Evicted(shared, PseudoPools(node, shared))
  }

  /** Once the old pseudo-reserved pools are gone the groups have what they ask for, and
      the same profiles have pools. */
  lemma EvictedIsClean(v: View, node: string, c: Config)
    requires v.Ok() && GoodConfig(v, node, c)
    ensures var u := Evicted(v, PseudoPools(node, v));
            CleanStart(u, node, c.groups) && forall k: nat | k < |c.groups| :: HasOwnPool(u, c.groups[k]) <==> HasOwnPool(v, c.groups[k])
  {
  }

  /** Giving shared its profile and its CPUs changes neither. */
  lemma SharedStaysGood(v: View, node: string, c: Config, profile: Option<Profile>)
    requires v.Ok() && GoodConfig(v, node, c)
    ensures var u := AfterShared(v, profile);
            u.Ok() && GoodConfig(u, node, c) && forall k: nat | k < |c.groups| :: HasOwnPool(u, c.groups[k]) <==> HasOwnPool(v, c.groups[k])
  {
  }

  // ---- validation on the node

  /** What reading a profile of the cluster returns; one that cannot be read counts as
      absent. */
  datatype ClusterProfile = ClusterProfile(shared: bool, matchesNode: bool)

  type Cluster = map<string, ClusterProfile>

  predicate Available(v: View, cluster: Cluster, name: string) {
    name == "" || (name in cluster && InPool(name) in v.profiles && cluster[name].matchesNode)
  }

  /** The configuration passes validation on a node in this state. */
  ghost predicate Accepts(v: View, cluster: Cluster, c: Config) {
    && c.sharedProfile in cluster && cluster[c.sharedProfile].shared
    && NoDup(AllCores(c.groups))
    && Available(v, cluster, c.sharedProfile)
    && forall k: nat | k < |c.groups| :: Available(v, cluster, c.groups[k].profile)
  }

  /** The core stands at this place of this group's list. */
  ghost predicate Listed(groups: seq<Group>, k: nat, i: nat, core: nat) {
    k < |groups| && i < |groups[k].cores| && groups[k].cores[i] == core
  }

  /** No core is listed twice, told by the groups. */
  ghost predicate ListedOnce(groups: seq<Group>) {
    forall k: nat, i: nat, l: nat, j: nat, core: nat | Listed(groups, k, i, core) && Listed(groups, l, j, core) :: k == l && i == j
  }

  lemma {:induction false} ListedSomewhere(groups: seq<Group>, core: nat)
    ensures core in AllCores(groups) <==> exists k: nat, i: nat :: Listed(groups, k, i, core)
  {
    if groups != [] {
      var n: nat := |groups| - 1;
      ListedSomewhere(groups[..n], core);
      assert forall k: nat, i: nat :: k < n ==> (Listed(groups, k, i, core) <==> Listed(groups[..n], k, i, core));
      if core in groups[n].cores {
        var i: nat :| i < |groups[n].cores| && groups[n].cores[i] == core;
        assert Listed(groups, n, i, core);
      }
      if k: nat, i: nat :| Listed(groups[..n], k, i, core) {
        assert Listed(groups, k, i, core);
      }
    }
  }

  lemma {:induction false} NoDupMeansOnce(groups: seq<Group>)
    ensures NoDup(AllCores(groups)) <==> ListedOnce(groups)
  {
    if groups != [] {
      var n: nat := |groups| - 1;
      var init, last := groups[..n], groups[n].cores;
      NoDupMeansOnce(init);
      NoDupAppend(AllCores(init), last);
      assert forall k: nat, i: nat, core: nat :: k < n ==> (Listed(groups, k, i, core) <==> Listed(init, k, i, core));
      forall core: nat
        ensures core in AllCores(init) <==> exists k: nat, i: nat :: Listed(init, k, i, core)
      {
        ListedSomewhere(init, core);
      }
      OnceMore(groups);
    }
  }

  lemma OnceMore(groups: seq<Group>)
    requires groups != []
    ensures var init, last := groups[..|groups| - 1], groups[|groups| - 1].cores;
            ListedOnce(groups) <==>
              && ListedOnce(init) && NoDup(last)
              && forall k: nat, i: nat, core: nat | Listed(init, k, i, core) :: core !in last
  {
    var n: nat := |groups| - 1;
    var init, last := groups[..n], groups[n].cores;
    assert forall k: nat, i: nat, core: nat :: Listed(groups, k, i, core) <==>
        Listed(init, k, i, core) || (k == n && i < |last| && last[i] == core);
    if ListedOnce(groups) {
      forall i: nat, j: nat
        ensures !Repeats(last, i, j)
      {
        assert i < |last| ==> Listed(groups, n, i, last[i]);
        assert j < |last| ==> Listed(groups, n, j, last[j]);
      }
      forall k: nat, i: nat, core: nat | Listed(init, k, i, core)
        ensures core !in last
      {
        assert Listed(groups, k, i, core);
        assert forall j: nat | j < |last| && last[j] == core :: Listed(groups, n, j, core);
      }
    }
    if ListedOnce(init) && NoDup(last) && forall k: nat, i: nat, core: nat | Listed(init, k, i, core) :: core !in last {
      forall k: nat, i: nat, l: nat, j: nat, core: nat | Listed(groups, k, i, core) && Listed(groups, l, j, core)
        ensures k == l && i == j
      {
        assert !Repeats(last, i, j) && !Repeats(last, j, i);
      }
    }
  }

  /** Exactly what is accepted: the shared profile is marked shared, no core is listed
      twice, and every profile that is named exists, has a pool and matches the node. A group
      that names none asks for nothing. */
  lemma AcceptedIff(v: View, cluster: Cluster, c: Config)
    ensures Accepts(v, cluster, c) <==>
              && c.sharedProfile in cluster && cluster[c.sharedProfile].shared
              && (c.sharedProfile != "" ==> InPool(c.sharedProfile) in v.profiles && cluster[c.sharedProfile].matchesNode)
              && ListedOnce(c.groups)
              && (forall k: nat | k < |c.groups| && c.groups[k].profile != "" ::
                    && c.groups[k].profile in cluster && InPool(c.groups[k].profile) in v.profiles
                    && cluster[c.groups[k].profile].matchesNode)
  {
    NoDupMeansOnce(c.groups);
  }

  /** Taking the profile away from a group never gets a configuration refused. */
  lemma ClearingKeepsAccepted(v: View, cluster: Cluster, c: Config, k: nat)
    requires k < |c.groups| && Accepts(v, cluster, c)
    ensures Accepts(v, cluster, c.(groups := c.groups[k := Group(c.groups[k].cores, "")]))
  {
    var cleared := c.(groups := c.groups[k := Group(c.groups[k].cores, "")]);
    AcceptedIff(v, cluster, c);
    AcceptedIff(v, cluster, cleared);
    assert forall l: nat, i: nat, core: nat :: Listed(cleared.groups, l, i, core) <==> Listed(c.groups, l, i, core);
  }

  /** A configuration that has been applied is still accepted. */
  lemma StillAccepted(v: View, node: string, c: Config, w: View, cluster: Cluster)
    requires GoodConfig(v, node, c) && ConfigResult(v, node, c, w)
    ensures Accepts(w, cluster, c) <==> Accepts(v, cluster, c)
  {
    SameProfilePool(v, node, c, w, InPool(c.sharedProfile));
    forall k: nat | k < |c.groups|
      ensures Available(w, cluster, c.groups[k].profile) <==> Available(v, cluster, c.groups[k].profile)
    {
      SameProfilePool(v, node, c, w, InPool(c.groups[k].profile));
    }
  }

  lemma PreparedIsClean(v: View, node: string, c: Config)
    requires v.Ok() && GoodConfig(v, node, c)
    ensures CleanStart(Prepared(v, node, c), node, c.groups)
    ensures forall k: nat, h :: OwnPool(Prepared(v, node, c), node, c.groups, k, h) <==> OwnPool(v, node, c.groups, k, h)
  {
    SharedStaysGood(v, node, c, SharedSource(v, c));
    EvictedIsClean(AfterShared(v, SharedSource(v, c)), node, c);
  }

  /** The steps of the controller, one after the other, end exactly there. */
  lemma ConfigExact(v: View, node: string, c: Config)
    requires v.Ok() && GoodConfig(v, node, c) && SharedSource(v, c).Some?
    ensures ConfigResult(v, node, c, AfterGroups(Prepared(v, node, c), node, c.groups))
  {
    var b := Prepared(v, node, c);
    PreparedIsClean(v, node, c);
    AfterGroupsExact(b, node, c.groups, |c.groups|);
    assert c.groups[..|c.groups|] == c.groups;
    assert forall h :: h in b.profiles <==> h in v.profiles && !IsPseudo(node, h);
    assert forall k: nat | k < |c.groups| :: HasOwnPool(b, c.groups[k]) <==> HasOwnPool(v, c.groups[k]);
  }

  /** Pool names and what tells a pseudo-reserved pool, in letters. */
  lemma NamesInLetters(node: string, a: nat, b: nat)
    ensures PoolName(node, [a, b]) == node + "-reserved-" + "[" + Itoa(a) + " " + Itoa(b) + "]"
    ensures forall h :: IsPseudo(node, h) <==> h.InPool? && HasPrefix(h.name, node + "-reserved-")
  {
    var cores := [a, b];
    assert cores[1..] == [b] && [b][1..] == [];
    var texts := Texts(cores);
    assert Texts([b]) == [Itoa(b)] + Texts([]) && texts == [Itoa(a)] + Texts([b]);
    assert texts[1..] == [Itoa(b)] && texts[0] == Itoa(a);
    assert Join(texts, ' ') == Itoa(a) + [' '] + Itoa(b);
    var head := node + "-reserved-" + "[";
    assert head + (Itoa(a) + " " + Itoa(b) + "]") == head + Itoa(a) + " " + Itoa(b) + "]";
  }

  /** The same, CPU by CPU and pool by pool, with what tells a pool of the configuration
      written out. The cores of each group are alone in such a pool that carries the profile
      the group names, if that has a pool, and in the default reserved pool otherwise; other
      CPUs of profile pools have stayed, and all others are shared. The shared pool carries
      the profile named for it, and profile pools the profiles they did. */
  ghost predicate ConfigServed(v: View, node: string, c: Config, w: View) {
    && |w.homes| == |v.homes|
    && (forall k: nat, id: nat | InGroup(c.groups, k, id) && id < |w.homes| ::
          if c.groups[k].profile != "" && InPool(c.groups[k].profile) in v.profiles
          then
            && w.homes[id].InPool? && HasPrefix(w.homes[id].name, node + "-reserved-")
            && w.homes[id] in w.profiles && w.profiles[w.homes[id]] == v.profiles[InPool(c.groups[k].profile)]
            && forall other: nat | other < |w.homes| :: w.homes[other] == w.homes[id] <==> other in c.groups[k].cores
          else w.homes[id] == InReserved)
    && (forall id: nat | id < |w.homes| && (forall k: nat :: !InGroup(c.groups, k, id)) ::
          w.homes[id] == if v.homes[id].InPool? && !HasPrefix(v.homes[id].name, node + "-reserved-") then v.homes[id] else InShared)
    && InPool(c.sharedProfile) in v.profiles && InShared in w.profiles
    && w.profiles[InShared] == v.profiles[InPool(c.sharedProfile)]
    && (forall n: string | !HasPrefix(n, node + "-reserved-") ::
          && (InPool(n) in w.profiles <==> InPool(n) in v.profiles)
          && (InPool(n) in v.profiles ==> w.profiles[InPool(n)] == v.profiles[InPool(n)]))
  }

  lemma ResultServes(v: View, node: string, c: Config, w: View)
    requires v.Ok() && GoodConfig(v, node, c) && ConfigResult(v, node, c, w) && SharedSource(v, c).Some?
    ensures ConfigServed(v, node, c, w)
  {
    forall k: nat, id: nat | InGroup(c.groups, k, id) && id < |v.homes| && HasOwnPool(v, c.groups[k])
      ensures HasPrefix(w.homes[id].name, node + "-reserved-")
      ensures w.homes[id] in w.profiles && w.profiles[w.homes[id]] == v.profiles[InPool(c.groups[k].profile)]
      ensures forall other: nat | other < |v.homes| :: w.homes[other] == w.homes[id] <==> other in c.groups[k].cores
    {
      OwnIsPseudo(node, c.groups[k]);
      assert OwnPool(v, node, c.groups, k, w.homes[id]);
      forall other: nat | other < |v.homes|
        ensures w.homes[other] == w.homes[id] <==> other in c.groups[k].cores
      {
        AloneInPool(v, node, c, w, k, other);
      }
    }
    ProfilePoolsServed(v, node, c, w);
  }

  lemma ProfilePoolsServed(v: View, node: string, c: Config, w: View)
    requires GoodConfig(v, node, c) && ConfigResult(v, node, c, w)
    ensures forall n: string | !HasPrefix(n, node + "-reserved-") ::
              && (InPool(n) in w.profiles <==> InPool(n) in v.profiles)
              && (InPool(n) in v.profiles ==> w.profiles[InPool(n)] == v.profiles[InPool(n)])
  {
    forall n: string | !HasPrefix(n, node + "-reserved-") {
      SameProfilePool(v, node, c, w, InPool(n));
    }
  }

  lemma AloneInPool(v: View, node: string, c: Config, w: View, k: nat, id: nat)
    requires v.Ok() && GoodConfig(v, node, c) && ConfigResult(v, node, c, w)
    requires k < |c.groups| && HasOwnPool(v, c.groups[k]) && id < |v.homes|
    ensures w.homes[id] == Own(node, c.groups[k]) <==> id in c.groups[k].cores
  {
    OwnIsPseudo(node, c.groups[k]);
    if l: nat :| InGroup(c.groups, l, id) {
      assert w.homes[id] == GroupHome(v, node, c.groups[l]);
      if l < k {
        OwnPoolsDiffer(node, c.groups, l, k);
      } else if k < l {
        OwnPoolsDiffer(node, c.groups, k, l);
      }
      assert InGroup(c.groups, k, id) <==> id in c.groups[k].cores;
    } else {
      assert Ungrouped(c.groups, |c.groups|, id) && !InGroup(c.groups, k, id);
    }
  }

  /** What a configuration leads to carries no profile that was not carried before. */
  lemma ResultFeasible(v: View, node: string, c: Config, w: View, platform: Platform)
    requires ConfigResult(v, node, c, w) && SharedSource(v, c).Some? && AllFeasible(v.profiles, platform)
    ensures AllFeasible(w.profiles, platform)
  {
    forall h | h in w.profiles
      ensures FeasibleEverywhere(platform, w.profiles[h])
    {
      FeasiblePool(v.profiles, platform, InPool(c.sharedProfile));
      if h != InShared && (h !in v.profiles || IsPseudo(node, h)) {
        var k: nat :| OwnPool(v, node, c.groups, k, h);
        FeasiblePool(v.profiles, platform, InPool(c.groups[k].profile));
      }
    }
  }

  /** Applying the same config again changes nothing: same CPU-to-pool map, same
      pools, same profiles. */
  lemma ConfigIdempotent(v: View, node: string, c: Config, w: View, u: View)
    requires v.Ok() && GoodConfig(v, node, c)
    requires ConfigResult(v, node, c, w) && ConfigResult(w, node, c, u)
    ensures u == w
  {
    SameHomes(v, node, c, w, u);
    forall h
      ensures h in u.profiles <==> h in w.profiles
      ensures h in u.profiles ==> u.profiles[h] == w.profiles[h]
    {
      SameProfiles(v, node, c, w, u, h);
    }
    assert u.profiles == w.profiles;
  }

  /** The end state of a configuration is one it can be applied to again. */
  lemma ResultIsGood(v: View, node: string, c: Config, w: View)
    requires v.Ok() && GoodConfig(v, node, c) && ConfigResult(v, node, c, w)
    ensures w.Ok() && GoodConfig(w, node, c) && SharedSource(w, c) == SharedSource(v, c)
  {
    SameProfilePool(v, node, c, w, InPool(c.sharedProfile));
    forall id: nat | id < |w.homes|
      ensures w.homes[id] in w.profiles
    {
      if k: nat :| InGroup(c.groups, k, id) {
        assert w.homes[id] == GroupHome(v, node, c.groups[k]);
        assert HasOwnPool(v, c.groups[k]) ==> OwnPool(v, node, c.groups, k, w.homes[id]);
      } else {
        assert Ungrouped(c.groups, |c.groups|, id);
      }
    }
  }

  /** The whole sequence of steps, applied a second time, changes nothing. */
  lemma ConfigTwice(v: View, node: string, c: Config)
    requires v.Ok() && GoodConfig(v, node, c) && SharedSource(v, c).Some?
    ensures var w := AfterGroups(Prepared(v, node, c), node, c.groups);
            && w.Ok() && GoodConfig(w, node, c) && SharedSource(w, c).Some?
            && AfterGroups(Prepared(w, node, c), node, c.groups) == w
  {
    var w := AfterGroups(Prepared(v, node, c), node, c.groups);
    ConfigExact(v, node, c);
    ResultIsGood(v, node, c, w);
    ConfigExact(w, node, c);
    ConfigIdempotent(v, node, c, w, AfterGroups(Prepared(w, node, c), node, c.groups));
  }

  lemma SameHomes(v: View, node: string, c: Config, w: View, u: View)
    requires v.Ok() && GoodConfig(v, node, c)
    requires ConfigResult(v, node, c, w) && ConfigResult(w, node, c, u)
    ensures u.homes == w.homes
  {
    forall id: nat | id < |u.homes|
      ensures u.homes[id] == w.homes[id]
    {
      if k: nat :| InGroup(c.groups, k, id) {
        SameProfilePool(v, node, c, w, InPool(c.groups[k].profile));
        assert w.homes[id] == GroupHome(v, node, c.groups[k]);
      } else {
        assert Ungrouped(c.groups, |c.groups|, id);
      }
    }
  }

  lemma SameProfilePool(v: View, node: string, c: Config, w: View, h: Home)
    requires ConfigResult(v, node, c, w) && !IsPseudo(node, h)
    ensures h in w.profiles <==> h in v.profiles
    ensures h in v.profiles && h != InShared ==> w.profiles[h] == v.profiles[h]
  {
    if h in w.profiles && h !in v.profiles {
      var k: nat :| OwnPool(v, node, c.groups, k, h);
      OwnIsPseudo(node, c.groups[k]);
    }
  }

  /** The groups that have their own pools are the same after applying, and the profiles
      these take are too. */
  lemma SameOwnPools(v: View, node: string, c: Config, w: View, k: nat, h: Home)
    requires GoodConfig(v, node, c) && ConfigResult(v, node, c, w)
    ensures OwnPool(w, node, c.groups, k, h) <==> OwnPool(v, node, c.groups, k, h)
    ensures OwnPool(v, node, c.groups, k, h) ==>
              w.profiles[InPool(c.groups[k].profile)] == v.profiles[InPool(c.groups[k].profile)]
  {
    if k < |c.groups| {
      SameProfilePool(v, node, c, w, InPool(c.groups[k].profile));
    }
  }

  lemma SamePseudo(v: View, node: string, c: Config, w: View, u: View, h: Home)
    requires GoodConfig(v, node, c) && IsPseudo(node, h)
    requires ConfigResult(v, node, c, w) && ConfigResult(w, node, c, u)
    ensures h in u.profiles <==> h in w.profiles
    ensures h in u.profiles ==> u.profiles[h] == w.profiles[h]
  {
    if k: nat :| OwnPool(v, node, c.groups, k, h) {
      SameOwnPools(v, node, c, w, k, h);
    } else {
      forall k: nat
        ensures !OwnPool(w, node, c.groups, k, h)
      {
        SameOwnPools(v, node, c, w, k, h);
      }
    }
  }

  lemma ResultShared(v: View, node: string, c: Config, w: View)
    requires ConfigResult(v, node, c, w)
    ensures InShared in w.profiles && w.profiles[InShared] == SharedSource(v, c)
  {
  }

  lemma SameSource(v: View, node: string, c: Config, w: View)
    requires GoodConfig(v, node, c) && ConfigResult(v, node, c, w)
    ensures SharedSource(w, c) == SharedSource(v, c)
  {
    SameProfilePool(v, node, c, w, InPool(c.sharedProfile));
  }

  lemma SameShared(v: View, node: string, c: Config, w: View, u: View)
    requires GoodConfig(v, node, c)
    requires ConfigResult(v, node, c, w) && ConfigResult(w, node, c, u)
    ensures InShared in u.profiles && InShared in w.profiles && u.profiles[InShared] == w.profiles[InShared]
  {
    ResultShared(v, node, c, w);
    ResultShared(w, node, c, u);
    SameSource(v, node, c, w);
  }

  lemma SameProfiles(v: View, node: string, c: Config, w: View, u: View, h: Home)
    requires v.Ok() && GoodConfig(v, node, c)
    requires ConfigResult(v, node, c, w) && ConfigResult(w, node, c, u)
    ensures h in u.profiles <==> h in w.profiles
    ensures h in u.profiles ==> u.profiles[h] == w.profiles[h]
  {
    if IsPseudo(node, h) {
      SamePseudo(v, node, c, w, u, h);
    } else if h == InShared {
      SameShared(v, node, c, w, u);
    } else {
      SameProfilePool(w, node, c, u, h);
    }
  }

  // ---- the disjointness check of validatePowerNodeConfigProfiles

  function AllCores(groups: seq<Group>): (r: seq<nat>) {
    if groups == [] then [] else AllCores(groups[..|groups| - 1]) + groups[|groups| - 1].cores
  }

  lemma {:induction false} AllCoresPrefix(groups: seq<Group>, n: nat)
    requires n < |groups|
    ensures AllCores(groups[..n]) + groups[n].cores <= AllCores(groups)
  {
    if n + 1 < |groups| {
      var init := groups[..|groups| - 1];
      AllCoresPrefix(init, n);
      assert init[..n] == groups[..n];
    }
  }

  lemma {:induction false} AllCoresUpTo(groups: seq<Group>, n: nat)
    requires n <= |groups|
    ensures AllCores(groups[..n]) <= AllCores(groups)
  {
    if n < |groups| {
      AllCoresUpTo(groups[..|groups| - 1], n);
      assert groups[..|groups| - 1][..n] == groups[..n];
    } else {
      assert groups[..n] == groups;
    }
  }

  lemma TouchesSome(v: View, w: View, node: string, groups: seq<Group>, n: nat)
    requires n <= |groups| && OnlyTouches(v, w, node, AllCores(groups[..n]))
    ensures OnlyTouches(v, w, node, AllCores(groups))
  {
    AllCoresUpTo(groups, n);
    TouchesMore(v, w, node, AllCores(groups[..n]), AllCores(groups));
  }

  lemma {:induction false} InAllCores(groups: seq<Group>, n: nat, k: nat, id: nat)
    requires k < n <= |groups| && InGroup(groups, k, id)
    ensures id in AllCores(groups[..n])
  {
    assert groups[..n][..n - 1] == groups[..n - 1];
    if k < n - 1 {
      InAllCores(groups, n - 1, k, id);
    }
  }

  lemma TwiceIn(s: seq<nat>, a: seq<nat>, b: seq<nat>, id: nat)
    requires a + b <= s && id in a && id in b
    ensures !NoDup(s)
  {
    var i :| 0 <= i < |a| && a[i] == id;
    var j :| 0 <= j < |b| && b[j] == id;
    assert s[i] == (a + b)[i] && s[|a| + j] == (a + b)[|a| + j];
    assert Repeats(s, i, |a| + j);
  }

  /** A config without a repeated core has disjoint groups. */
  lemma NoDupMeansDisjoint(groups: seq<Group>)
    requires NoDup(AllCores(groups)) && forall k: nat | k < |groups| :: groups[k].cores != []
    ensures GoodGroups(groups)
  {
    forall k: nat, l: nat, id: nat | k < l && InGroup(groups, k, id) && InGroup(groups, l, id)
      ensures false
    {
      InAllCores(groups, l, k, id);
      AllCoresPrefix(groups, l);
      TwiceIn(AllCores(groups), AllCores(groups[..l]), groups[l].cores, id);
    }
  }
}
