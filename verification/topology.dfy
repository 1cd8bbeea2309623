/** internal/power/topology.go, with CPUList.ByID of cpu.go and the core types of
    p_states.go: the tree of packages, dies or clusters, and cores that is built from
    what sysfs says about each CPU. */
module Topologies {
  import opened Slices
  import opened Text

  /** What sysfs says about one CPU; None where the file cannot be read. */
  datatype Location = Location(pkg: Option<nat>, die: Option<nat>, cluster: Option<nat>, core: Option<nat>,
                               min: Option<nat>, max: Option<nat>)

  datatype FreqSet = FreqSet(min: nat, max: nat)

  /** Below a package, CPUs are grouped by die on x86_64 and by cluster on aarch64; the
      two are built by the same steps. */
  function GroupOf(l: Location, arch: string): (r: Option<nat>) {
    if arch == "x86_64" then l.die else if arch == "aarch64" then l.cluster else None
  }

  /** Everything that adding a CPU reads can be read. */
  predicate Readable(l: Location, arch: string, scaling: bool) {
    l.pkg.Some? && GroupOf(l, arch).Some? && l.core.Some? && (scaling ==> l.min.Some? && l.max.Some?)
  }

  // ---- Lists of CPU ids by key

  /** The CPUs with a given key, in id order. */
  ghost function Members<K>(keys: seq<K>, k: K): (r: seq<nat>) {
    if keys == [] then []
    else
      var init := Members(keys[..|keys| - 1], k);
      if keys[|keys| - 1] == k then init + [|keys| - 1] else init
  }

  lemma {:induction false} MembersExact<K>(keys: seq<K>, k: K)
    ensures NoDup(Members(keys, k))
    ensures forall id :: id in Members(keys, k) <==> 0 <= id < |keys| && keys[id] == k
  {
    if keys != [] {
      MembersExact(keys[..|keys| - 1], k);
      var rest := Members(keys[..|keys| - 1], k);
      NoDupSnoc<nat>(rest, |keys| - 1);
    }
  }

  function Put<K>(m: map<K, seq<nat>>, k: K, id: nat): (r: map<K, seq<nat>>) {
    m[k := (if k in m then m[k] else []) + [id]]
  }

  /** A map from key to CPU list that holds every CPU below |keys| under its key. */
  ghost predicate Tracks<K(!new)>(m: map<K, seq<nat>>, keys: seq<K>) {
    forall k :: (k in m <==> k in keys) && (k in m ==> m[k] == Members(keys, k))
  }

  lemma PutTracks<K(!new)>(m: map<K, seq<nat>>, keys: seq<K>, k: K)
    requires Tracks(m, keys)
    ensures Tracks(Put(m, k, |keys|), keys + [k])
  {
    assert (keys + [k])[..|keys + [k]| - 1] == keys;
    MembersExact(keys, k);
    EmptyOrHead(Members(keys, k));
  }

  ghost predicate Distinct<K(!new)>(m: map<K, seq<nat>>) {
    forall k | k in m :: NoDup(m[k])
  }

  /** Each CPU of a parent is in the list of the child that owns it. */
  ghost predicate Covers<P(!new), C(!new)>(parents: map<P, seq<nat>>, children: map<(P, C), seq<nat>>, owner: seq<(P, C)>) {
    forall p | p in parents :: forall id: nat | id in parents[p] ::
      id < |owner| && owner[id].0 == p && owner[id] in children && id in children[owner[id]]
  }

  /** Each CPU of a child is owned by that child only, and is in the parent's list. */
  ghost predicate Owned<P(!new), C(!new)>(parents: map<P, seq<nat>>, children: map<(P, C), seq<nat>>, owner: seq<(P, C)>) {
    forall k | k in children :: forall id: nat | id in children[k] ::
      id < |owner| && owner[id] == k && k.0 in parents && id in parents[k.0]
  }

  /** Every parent list is the disjoint union of the lists of its children. */
  ghost predicate DisjointUnion<P(!new), C(!new)>(parents: map<P, seq<nat>>, children: map<(P, C), seq<nat>>, owner: seq<(P, C)>) {
    Distinct(parents) && Distinct(children) && Covers(parents, children, owner) && Owned(parents, children, owner)
  }

  ghost predicate Refines<P(!new), C(!new)>(ps: seq<P>, cs: seq<(P, C)>) {
    |ps| == |cs| && forall id: nat | id < |ps| :: cs[id].0 == ps[id]
  }

  lemma RefinedKeysGiveDisjointUnion<P(!new), C(!new)>(parents: map<P, seq<nat>>, ps: seq<P>,
                                                      children: map<(P, C), seq<nat>>, cs: seq<(P, C)>)
    requires Tracks(parents, ps) && Tracks(children, cs) && Refines(ps, cs)
    ensures DisjointUnion(parents, children, cs)
  {
    ListsDistinct(parents, ps);
    ListsDistinct(children, cs);
    RefinedKeysCover(parents, ps, children, cs);
    RefinedKeysOwn(parents, ps, children, cs);
  }

  lemma RefinedKeysCover<P(!new), C(!new)>(parents: map<P, seq<nat>>, ps: seq<P>, children: map<(P, C), seq<nat>>, cs: seq<(P, C)>)
    requires Tracks(parents, ps) && Tracks(children, cs) && Refines(ps, cs)
    ensures Covers(parents, children, cs)
  {
    forall p | p in parents
      ensures forall id: nat | id in parents[p] :: id < |cs| && cs[id].0 == p && cs[id] in children && id in children[cs[id]]
    {
      forall id: nat | id in parents[p]
        ensures id < |cs| && cs[id].0 == p && cs[id] in children && id in children[cs[id]]
      {
        MemberOf(parents, ps, p, id);
        MemberOf(children, cs, cs[id], id);
      }
    }
  }

  lemma RefinedKeysOwn<P(!new), C(!new)>(parents: map<P, seq<nat>>, ps: seq<P>, children: map<(P, C), seq<nat>>, cs: seq<(P, C)>)
    requires Tracks(parents, ps) && Tracks(children, cs) && Refines(ps, cs)
    ensures Owned(parents, children, cs)
  {
    forall k | k in children
      ensures forall id: nat | id in children[k] :: id < |cs| && cs[id] == k && k.0 in parents && id in parents[k.0]
    {
      forall id: nat | id in children[k]
        ensures id < |cs| && cs[id] == k && k.0 in parents && id in parents[k.0]
      {
        MemberOf(children, cs, k, id);
        MemberOf(parents, ps, k.0, id);
      }
    }
  }

  lemma ListsDistinct<K(!new)>(m: map<K, seq<nat>>, keys: seq<K>)
    requires Tracks(m, keys)
    ensures Distinct(m)
  {
    forall k | k in m
      ensures NoDup(m[k])
    {
      MembersExact(keys, k);
    }
  }

  lemma MemberOf<K(!new)>(m: map<K, seq<nat>>, keys: seq<K>, k: K, id: nat)
    requires Tracks(m, keys)
    ensures k in m && id in m[k] <==> id < |keys| && keys[id] == k
  {
    MembersExact(keys, k);
  }

  // ---- Core types

  /** appendIfUnique: the index of a frequency set, which is added if it is new. */
  method AppendIfUnique(types: seq<FreqSet>, f: FreqSet) returns (index: nat, grown: seq<FreqSet>)
    ensures index < |grown| && grown[index] == f
    ensures grown == if f in types then types else types + [f]
    ensures NoDup(types) ==> NoDup(grown)
  {
    for i := 0 to |types|
      invariant f !in types[..i]
    {
      if types[i] == f {
        return i, types;
      }
    }
    NoDupSnoc(types, f);
    return |types|, types + [f];
  }

  /** getAbsMinMaxFreq: the tightest range that contains every core type. */
  method GetAbsMinMaxFreq(types: seq<FreqSet>) returns (min: nat, max: nat)
    requires types != []
    ensures forall f | f in types :: min <= f.min && f.max <= max
    ensures (exists f :: f in types && f.min == min) && (exists f :: f in types && f.max == max)
  {
    min, max := types[0].min, types[0].max;
    ghost var lowest, highest := types[0], types[0];
    for i := 1 to |types|
      invariant forall f | f in types[..i] :: min <= f.min && f.max <= max
      invariant lowest in types && lowest.min == min && highest in types && highest.max == max
    {
      if types[i].min < min {
        min, lowest := types[i].min, types[i];
      }
      if types[i].max > max {
        max, highest := types[i].max, types[i];
      }
    }
  }

  // ---- CPU lists

  /** ByID: the position of a CPU, tried first at its own id, then searched for. */
  method ByID(ids: seq<nat>, id: nat) returns (r: Option<nat>)
    ensures r.None? <==> id !in ids
    ensures r.Some? ==> r.value < |ids| && ids[r.value] == id
    ensures r.Some? && NoDup(ids) ==> id !in ids[..r.value]
  {
    if id < |ids| && ids[id] == id {
      if NoDup(ids) {
        NoDupAt(ids, id);
      }
      return Some(id);
    }
    for i := 0 to |ids|
      invariant id !in ids[..i]
    {
      if ids[i] == id {
        return Some(i);
      }
    }
    return None;
  }

  /** ManyByIDs: all of the positions, or none. */
  method ManyByIDs(ids: seq<nat>, wanted: seq<nat>) returns (r: Option<seq<nat>>)
    ensures r.Some? <==> forall id | id in wanted :: id in ids
    ensures r.Some? ==> |r.value| == |wanted| && forall k | 0 <= k < |wanted| :: r.value[k] < |ids| && ids[r.value[k]] == wanted[k]
  {
    var targets: seq<nat> := [];
    for i := 0 to |wanted|
      invariant |targets| == i && forall k | 0 <= k < i :: wanted[k] in ids
      invariant forall k | 0 <= k < i :: targets[k] < |ids| && ids[targets[k]] == wanted[k]
    {
      var cpu := ByID(ids, wanted[i]);
      if cpu.None? {
        return None;
      }
      targets := targets + [cpu.value];
    }
    return Some(targets);
  }

  class CpuTopology {
    const arch: string
    /** Whether frequency scaling is supported, and what sysfs holds for each CPU. */
    const scaling: bool
    const sysfs: seq<Location>
    /** The CPU lists of the packages, of the dies or clusters, and of the cores. */
    var packages: map<nat, seq<nat>>
    var groups: map<(nat, nat), seq<nat>>
    var cores: map<((nat, nat), nat), seq<nat>>
    /** The frequency sets met so far, and the one each core was given last. */
    var coreTypes: seq<FreqSet>
    var typeOf: map<((nat, nat), nat), nat>
    var allCpus: seq<Option<nat>>

    constructor (arch: string, scaling: bool, sysfs: seq<Location>, coreTypes: seq<FreqSet>)
      ensures this.arch == arch && this.scaling == scaling && this.sysfs == sysfs && this.coreTypes == coreTypes
      ensures packages == map[] && groups == map[] && cores == map[] && typeOf == map[]
      ensures |allCpus| == |sysfs|
    {
      this.arch, this.scaling, this.sysfs, this.coreTypes := arch, scaling, sysfs, coreTypes;
      packages, groups, cores, typeOf := map[], map[], map[], map[];
      allCpus := seq(|sysfs|, _ => None);
    }

    predicate CanAdd(id: nat) {
      id < |sysfs| && Readable(sysfs[id], arch, scaling)
    }

    function PackageKey(id: nat): (r: nat)
      requires CanAdd(id)
    {
      sysfs[id].pkg.value
    }

    function GroupKey(id: nat): (r: (nat, nat))
      requires CanAdd(id)
    {
      (PackageKey(id), GroupOf(sysfs[id], arch).value)
    }

    function CoreKey(id: nat): (r: ((nat, nat), nat))
      requires CanAdd(id)
    {
      (GroupKey(id), sysfs[id].core.value)
    }

    function Limits(id: nat): (r: FreqSet)
      requires CanAdd(id) && scaling
    {
      FreqSet(sysfs[id].min.value, sysfs[id].max.value)
    }

    ghost predicate CanAddAll(n: nat) {
      forall id: nat | id < n :: CanAdd(id)
    }

    /** The keys of the first n CPUs. */
    ghost function PackageKeys(n: nat): (r: seq<nat>)
      requires CanAddAll(n)
      ensures |r| == n && forall id: nat | id < n :: r[id] == PackageKey(id)
    {
      if n == 0 then [] else PackageKeys(n - 1) + [PackageKey(n - 1)]
    }

    ghost function GroupKeys(n: nat): (r: seq<(nat, nat)>)
      requires CanAddAll(n)
      ensures |r| == n && forall id: nat | id < n :: r[id] == GroupKey(id)
    {
      if n == 0 then [] else GroupKeys(n - 1) + [GroupKey(n - 1)]
    }

    ghost function CoreKeys(n: nat): (r: seq<((nat, nat), nat)>)
      requires CanAddAll(n)
      ensures |r| == n && forall id: nat | id < n :: r[id] == CoreKey(id)
    {
      if n == 0 then [] else CoreKeys(n - 1) + [CoreKey(n - 1)]
    }

    ghost predicate Holds(n: nat)
      requires CanAddAll(n)
      reads this
    {
      Tracks(packages, PackageKeys(n)) && Tracks(groups, GroupKeys(n)) && Tracks(cores, CoreKeys(n))
    }

    /** With frequency scaling, each core that has CPUs is classified by the limits of
        the CPU added to it last. */
    ghost predicate TypesOk()
      reads this
    {
      Classified(cores, typeOf, coreTypes)
    }

    ghost predicate Classified(cores: map<((nat, nat), nat), seq<nat>>, typeOf: map<((nat, nat), nat), nat>, types: seq<FreqSet>) {
      && (if scaling then forall k | k in cores && cores[k] != [] :: k in typeOf else typeOf == map[])
      && forall k | k in typeOf :: k in cores && cores[k] != [] && typeOf[k] < |types| && HasLimits(cores[k][|cores[k]| - 1], types[typeOf[k]])
    }

    ghost predicate HasLimits(id: nat, f: FreqSet) {
      id < |sysfs| && sysfs[id].min == Some(f.min) && sysfs[id].max == Some(f.max)
    }

    lemma ClassifiedOpen(cores: map<((nat, nat), nat), seq<nat>>, typeOf: map<((nat, nat), nat), nat>, types: seq<FreqSet>, core: ((nat, nat), nat))
      requires Classified(cores, typeOf, types) && core !in cores
      ensures Classified(cores[core := []], typeOf, types)
    {
    }

    lemma ClassifiedAdd(cores: map<((nat, nat), nat), seq<nat>>, typeOf: map<((nat, nat), nat), nat>, types: seq<FreqSet>,
                        core: ((nat, nat), nat), id: nat, t: nat, grown: seq<FreqSet>)
      requires Classified(cores, typeOf, types) && core in cores && types <= grown
      requires scaling ==> t < |grown| && HasLimits(id, grown[t])
      ensures Classified(cores[core := cores[core] + [id]], if scaling then typeOf[core := t] else typeOf, grown)
    {
    }

    /** cpuCore.addCPU and newCPU. */
    method AddToCore(core: ((nat, nat), nat), id: nat) returns (ok: bool)
      requires id < |sysfs| && core in cores
      requires TypesOk()
      modifies this`cores, this`coreTypes, this`typeOf
      ensures ok <==> (scaling ==> sysfs[id].min.Some? && sysfs[id].max.Some?)
      ensures ok ==> cores == Put(old(cores), core, id)
      ensures ok ==> TypesOk() && old(coreTypes) <= coreTypes
      ensures ok && scaling ==> FreqSet(sysfs[id].min.value, sysfs[id].max.value) in coreTypes
    {
      ghost var c, o, types := cores, typeOf, coreTypes;
      var t := 0;
      if scaling {
        if sysfs[id].max.None? || sysfs[id].min.None? {
          return false;
        }
        t, coreTypes := AppendIfUnique(coreTypes, FreqSet(sysfs[id].min.value, sysfs[id].max.value));
        typeOf := typeOf[core := t];
      }
      cores := cores[core := cores[core] + [id]];
      ClassifiedAdd(c, o, types, core, id, t, coreTypes);
      return true;
    }

    /** addCPU of a die or a cluster. */
    method AddToGroup(group: (nat, nat), id: nat) returns (ok: bool)
      requires id < |sysfs| && group in groups
      requires TypesOk()
      modifies this`groups, this`cores, this`coreTypes, this`typeOf
      ensures ok <==> sysfs[id].core.Some? && (scaling ==> sysfs[id].min.Some? && sysfs[id].max.Some?)
      ensures ok ==> groups == Put(old(groups), group, id) && cores == Put(old(cores), (group, sysfs[id].core.value), id)
      ensures ok ==> TypesOk() && old(coreTypes) <= coreTypes
      ensures ok && scaling ==> FreqSet(sysfs[id].min.value, sysfs[id].max.value) in coreTypes
    {
      if sysfs[id].core.None? {
        return false;
      }
      var core := (group, sysfs[id].core.value);
      if core !in cores {
        ClassifiedOpen(cores, typeOf, coreTypes, core);
        cores := cores[core := []];
      }
      ok := AddToCore(core, id);
      if ok {
        groups := groups[group := groups[group] + [id]];
      }
    }

    /** cpuPackage.addCPU. */
    method AddToPackage(pkg: nat, id: nat) returns (ok: bool)
      requires id < |sysfs| && pkg in packages && sysfs[id].pkg == Some(pkg)
      requires TypesOk()
      modifies this`packages, this`groups, this`cores, this`coreTypes, this`typeOf
      ensures ok <==> CanAdd(id)
      ensures ok ==> packages == Put(old(packages), pkg, id) && groups == Put(old(groups), GroupKey(id), id)
                     && cores == Put(old(cores), CoreKey(id), id)
      ensures ok ==> TypesOk() && old(coreTypes) <= coreTypes
      ensures ok && scaling ==> Limits(id) in coreTypes
    {
      if arch != "x86_64" && arch != "aarch64" {
        return false;
      }
      var g := GroupOf(sysfs[id], arch);
      if g.None? {
        return false;
      }
      var group := (pkg, g.value);
      if group !in groups {
        groups := groups[group := []];
      }
      ok := AddToGroup(group, id);
      if ok {
        packages := packages[pkg := packages[pkg] + [id]];
      }
    }

    /** cpuTopology.addCPU. */
    method AddCPU(id: nat) returns (ok: bool)
      requires id < |sysfs| == |allCpus|
      requires TypesOk()
      modifies this
      ensures ok <==> CanAdd(id)
      ensures ok ==> packages == Put(old(packages), PackageKey(id), id) && groups == Put(old(groups), GroupKey(id), id)
                     && cores == Put(old(cores), CoreKey(id), id)
      ensures |allCpus| == |sysfs| && (ok ==> allCpus == old(allCpus)[id := Some(id)])
      ensures ok ==> TypesOk() && old(coreTypes) <= coreTypes
      ensures ok && scaling ==> Limits(id) in coreTypes
    {
      if sysfs[id].pkg.None? {
        return false;
      }
      var pkg := sysfs[id].pkg.value;
      if pkg !in packages {
        packages := packages[pkg := []];
      }
      ok := AddToPackage(pkg, id);
      if ok {
        allCpus := allCpus[id := Some(id)];
      }
    }

    /** The first n CPUs have been added. */
    ghost predicate Added(n: nat)
      reads this
    {
      && n <= |sysfs| == |allCpus| && CanAddAll(n) && Holds(n) && TypesOk()
      && (forall id: nat | id < n :: allCpus[id] == Some(id))
      && (scaling ==> forall id: nat | id < n :: Limits(id) in coreTypes)
    }

    /** One more CPU keeps a level's lists complete. */
    lemma PackagesHold(before: map<nat, seq<nat>>, id: nat)
      requires CanAddAll(id) && CanAdd(id) && Tracks(before, PackageKeys(id))
      ensures CanAddAll(id + 1) && Tracks(Put(before, PackageKey(id), id), PackageKeys(id + 1))
    {
      PutTracks(before, PackageKeys(id), PackageKey(id));
    }

    lemma GroupsHold(before: map<(nat, nat), seq<nat>>, id: nat)
      requires CanAddAll(id) && CanAdd(id) && Tracks(before, GroupKeys(id))
      ensures CanAddAll(id + 1) && Tracks(Put(before, GroupKey(id), id), GroupKeys(id + 1))
    {
      PutTracks(before, GroupKeys(id), GroupKey(id));
    }

    lemma CoresHold(before: map<((nat, nat), nat), seq<nat>>, id: nat)
      requires CanAddAll(id) && CanAdd(id) && Tracks(before, CoreKeys(id))
      ensures CanAddAll(id + 1) && Tracks(Put(before, CoreKey(id), id), CoreKeys(id + 1))
    {
      PutTracks(before, CoreKeys(id), CoreKey(id));
    }

    /** Adding the CPUs in order keeps every list complete. */
    method AddNext(id: nat) returns (ok: bool)
      requires id < |sysfs| && Added(id)
      modifies this
      ensures ok <==> CanAdd(id)
      ensures ok ==> Added(id + 1)
    {
      if CanAdd(id) {
        PackagesHold(packages, id);
        GroupsHold(groups, id);
        CoresHold(cores, id);
      }
      ok := AddCPU(id);
    }

    /** Which CPUs the lists hold, in terms of what sysfs says: the second level goes by die
        on x86_64 and by cluster on aarch64. */
    ghost predicate ListsFollowSysfs()
      reads this
    {
      && (forall p: nat, id: nat :: InPackage(p, id) <==> id < |sysfs| && sysfs[id].pkg == Some(p))
      && (forall g: (nat, nat), id: nat :: InGroup(g, id) <==>
            id < |sysfs| && sysfs[id].pkg == Some(g.0) && (if arch == "x86_64" then sysfs[id].die else sysfs[id].cluster) == Some(g.1))
      && (forall c: ((nat, nat), nat), id: nat :: InCore(c, id) <==> InGroup(c.0, id) && sysfs[id].core == Some(c.1))
    }

    ghost predicate InPackage(p: nat, id: nat)
      reads this
    {
      p in packages && id in packages[p]
    }

    ghost predicate InGroup(g: (nat, nat), id: nat)
      reads this
    {
      g in groups && id in groups[g] && id < |sysfs|
    }

    ghost predicate InCore(c: ((nat, nat), nat), id: nat)
      reads this
    {
      c in cores && id in cores[c]
    }

    lemma PackageIsExact(p: nat, id: nat)
      requires CanAddAll(|sysfs|) && Holds(|sysfs|)
      ensures InPackage(p, id) <==> id < |sysfs| && sysfs[id].pkg == Some(p)
    {
      MemberOf(packages, PackageKeys(|sysfs|), p, id);
      assert id < |sysfs| ==> CanAdd(id);
    }

    lemma GroupIsExact(g: (nat, nat), id: nat)
      requires CanAddAll(|sysfs|) && Holds(|sysfs|)
      ensures InGroup(g, id) <==>
                id < |sysfs| && sysfs[id].pkg == Some(g.0) && (if arch == "x86_64" then sysfs[id].die else sysfs[id].cluster) == Some(g.1)
    {
      MemberOf(groups, GroupKeys(|sysfs|), g, id);
      assert id < |sysfs| ==> CanAdd(id);
    }

    lemma CoreIsExact(c: ((nat, nat), nat), id: nat)
      requires CanAddAll(|sysfs|) && Holds(|sysfs|)
      ensures InCore(c, id) <==> InGroup(c.0, id) && sysfs[id].core == Some(c.1)
    {
      MemberOf(groups, GroupKeys(|sysfs|), c.0, id);
      MemberOf(cores, CoreKeys(|sysfs|), c, id);
      assert id < |sysfs| ==> CanAdd(id);
    }

    lemma ListsAreExact()
      requires CanAddAll(|sysfs|) && Holds(|sysfs|)
      ensures ListsFollowSysfs()
    {
      forall p: nat, id: nat {
        PackageIsExact(p, id);
      }
      forall g: (nat, nat), id: nat {
        GroupIsExact(g, id);
      }
      forall c: ((nat, nat), nat), id: nat {
        CoreIsExact(c, id);
      }
    }

    /** All that is needed of a CPU can be read, on an architecture that is known. */
    ghost predicate ReadableAt(id: nat)
      requires id < |sysfs|
    {
      && (arch == "x86_64" || arch == "aarch64")
      && sysfs[id].pkg.Some? && sysfs[id].core.Some?
      && (if arch == "x86_64" then sysfs[id].die else sysfs[id].cluster).Some?
      && (scaling ==> sysfs[id].min.Some? && sysfs[id].max.Some?)
    }

    lemma AddableIsReadable()
      ensures CanAddAll(|sysfs|) <==> forall id: nat | id < |sysfs| :: ReadableAt(id)
    {
      forall id: nat | id < |sysfs|
        ensures CanAdd(id) <==> ReadableAt(id)
      {
      }
    }

    /** discoverTopology: every CPU in turn. */
    method Discover() returns (ok: bool)
      requires packages == map[] && groups == map[] && cores == map[] && typeOf == map[] && |allCpus| == |sysfs|
      modifies this
      ensures ok <==> CanAddAll(|sysfs|)
      ensures ok <==> forall id: nat | id < |sysfs| :: ReadableAt(id)
      ensures ok ==> Added(|sysfs|) && ListsFollowSysfs()
    {
      AddableIsReadable();
      ok := AddAll();
      if ok {
        ListsAreExact();
      }
    }

    method AddAll() returns (ok: bool)
      requires packages == map[] && groups == map[] && cores == map[] && typeOf == map[] && |allCpus| == |sysfs|
      modifies this
      ensures ok <==> CanAddAll(|sysfs|)
      ensures ok ==> Added(|sysfs|)
    {
      for i := 0 to |sysfs|
        invariant Added(i)
      {
        ok := AddNext(i);
        if !ok {
          return;
        }
      }
      return true;
    }

    /** In the tree that discovery builds, the lists of each level are the disjoint
        union of the lists of the level below. */
    lemma LevelsAreDisjointUnions()
      requires CanAddAll(|sysfs|) && Holds(|sysfs|)
      ensures DisjointUnion(packages, groups, GroupKeys(|sysfs|))
      ensures DisjointUnion(groups, cores, CoreKeys(|sysfs|))
    {
      RefinedKeysGiveDisjointUnion(packages, PackageKeys(|sysfs|), groups, GroupKeys(|sysfs|));
      RefinedKeysGiveDisjointUnion(groups, GroupKeys(|sysfs|), cores, CoreKeys(|sysfs|));
    }

    /** Discovery, then the range that every core's own limits lie in. */
    method DiscoverLimits() returns (ok: bool, min: nat, max: nat)
      requires packages == map[] && groups == map[] && cores == map[] && typeOf == map[] && |allCpus| == |sysfs|
      requires scaling && sysfs != []
      modifies this
      ensures ok <==> CanAddAll(|sysfs|)
      ensures ok ==> forall id: nat | id < |sysfs| ::
                CanAdd(id) && min <= sysfs[id].min.value && sysfs[id].max.value <= max
    {
      min, max := 0, 0;
      ok := AddAll();
      if ok {
        assert Limits(0) in coreTypes;
        min, max := GetAbsMinMaxFreq(coreTypes);
        forall id: nat | id < |sysfs|
          ensures CanAdd(id) && min <= sysfs[id].min.value && sysfs[id].max.value <= max
        {
          assert CanAdd(id) && Limits(id) in coreTypes;
        }
      }
    }
  }
}
