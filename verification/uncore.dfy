/** internal/power/uncore.go and controllers/uncore_controller.go: uncore frequency
    limits at three levels. A die uses its own setting, else its package's, else the
    topology's, else the hardware default. */
module Uncore {
  import opened Text

  datatype Uncore = Uncore(min: nat, max: nat)

  /** A die is named by its package id and its own id. */
  datatype Die = Die(pkg: nat, die: nat)

  const STEP := 100_000

  function Normalize(freq: nat): (r: nat)
    ensures r <= freq < r + STEP && r % STEP == 0
  {
    freq - freq % STEP
  }

  /** NewUncore: refuses what the hardware does not allow, then rounds down. */
  function NewUncore(minFreq: nat, maxFreq: nat, hw: Uncore): (r: Option<Uncore>) {
    if minFreq < hw.min || hw.max < maxFreq || maxFreq < minFreq then None
    else Some(Uncore(Normalize(minFreq), Normalize(maxFreq)))
  }

  /** The limits asked for, each rounded down to a multiple of 100 MHz. */
  ghost predicate RoundedDown(u: Uncore, lo: nat, hi: nat) {
    && u.min % 100_000 == 0 && lo - 100_000 < u.min <= lo
    && u.max % 100_000 == 0 && hi - 100_000 < u.max <= hi
  }

  /** Exactly which requests are refused, and what becomes of the others. */
  lemma NewUncoreExact(lo: nat, hi: nat, hw: Uncore)
    ensures NewUncore(lo, hi, hw).None? <==> hi < lo || lo < hw.min || hw.max < hi
    ensures NewUncore(lo, hi, hw).Some? ==>
              var u := NewUncore(lo, hi, hw).value;
              && u.min % 100_000 == 0 && lo - 100_000 < u.min <= lo
              && u.max % 100_000 == 0 && hi - 100_000 < u.max <= hi
  {
  }

  /** What is accepted stays ordered and below the hardware maximum. It stays above
      the hardware minimum, for every accepted request, exactly if that minimum is a
      whole number of steps. */
  lemma NewUncoreWithinHardware(hw: Uncore)
    requires hw.min <= hw.max
    ensures forall lo: nat, hi: nat | NewUncore(lo, hi, hw).Some? ::
              var u := NewUncore(lo, hi, hw).value; u.min <= u.max <= hw.max && hw.min < u.min + STEP
    ensures (forall lo: nat, hi: nat | NewUncore(lo, hi, hw).Some? :: hw.min <= NewUncore(lo, hi, hw).value.min)
            <==> hw.min % STEP == 0
  {
    forall lo: nat, hi: nat | NewUncore(lo, hi, hw).Some?
      ensures var u := NewUncore(lo, hi, hw).value; u.min <= u.max <= hw.max && hw.min < u.min + STEP
      ensures hw.min % STEP == 0 ==> hw.min <= NewUncore(lo, hi, hw).value.min
    {
      NormalizeMonotone(lo, hi);
      NormalizeMonotone(hw.min, lo);
    }
    if hw.min % STEP != 0 {
      assert NewUncore(hw.min, hw.max, hw).Some?;
      assert Normalize(hw.min) != hw.min;
    }
  }

  lemma NormalizeMonotone(a: nat, b: nat)
    requires a <= b
    ensures Normalize(a) <= Normalize(b)
  {
    assert a / STEP <= b / STEP;
    assert Normalize(a) == a / STEP * STEP && Normalize(b) == b / STEP * STEP;
  }

  class Topology {
    /** The hardware default, and the dies of each package. */
    const hw: Uncore
    const packages: map<nat, set<nat>>
    /** The settings at the three levels; absent means none. */
    var own: Option<Uncore>
    var ofPackage: map<nat, Uncore>
    var ofDie: map<Die, Uncore>
    /** What the control files of each die hold. */
    var registers: map<Die, Uncore>
    ghost var faults: nat

    constructor (hw: Uncore, packages: map<nat, set<nat>>, initial: map<Die, Uncore>)
      ensures this.hw == hw && this.packages == packages && registers == initial
      ensures own == Some(hw) && ofPackage == map[] && ofDie == map[] && faults == 0
    {
      this.hw, this.packages, registers := hw, packages, initial;
      own, ofPackage, ofDie, faults := Some(hw), map[], map[], 0;
    }

    predicate HasDie(d: Die) {
      d.pkg in packages && d.die in packages[d.pkg]
    }

    /** getEffectiveUncore of a die: the most specific setting. */
    function Effective(d: Die): (r: Uncore)
      reads this
    {
      if d in ofDie then ofDie[d]
      else if d.pkg in ofPackage then ofPackage[d.pkg]
      else if own.Some? then own.value
      else hw
    }

    ghost predicate SettledDie(d: Die)
      reads this
    {
      d in registers && registers[d] == Effective(d)
    }

    /** Every die's registers hold its effective setting. */
    ghost predicate Settled()
      reads this
    {
      forall d | HasDie(d) :: SettledDie(d)
    }

    /** What an attempt to write a die's registers can leave in them: its setting, what
        they held before, or that with the new maximum only. */
    ghost predicate Attempted(before: map<Die, Uncore>, d: Die)
      reads this
    {
      || SettledDie(d)
      || SameAs(before, d)
      || (d in registers && registers[d].max == Effective(d).max && (d in before ==> registers[d].min == before[d].min))
    }

    /** Write one die: the maximum first, then the minimum. */
    method ApplyDie(d: Die) returns (ok: bool)
      modifies this`registers, this`faults
      ensures ok <==> faults == old(faults)
      ensures old(faults) <= faults
      ensures ok ==> SettledDie(d)
      ensures Attempted(old(registers), d)
      ensures forall e | e != d :: (e in registers <==> e in old(registers)) && (e in registers ==> registers[e] == old(registers)[e])
    {
      var u := Effective(d);
      var before := if d in registers then registers[d] else u;
      ok := *;
      if ok {
        registers := registers[d := Uncore(before.min, u.max)];
        ok := *;
        if ok {
          registers := registers[d := u];
        }
      }
      if !ok {
        faults := faults + 1;
      }
    }

    ghost predicate SameAs(before: map<Die, Uncore>, d: Die)
      reads this
    {
      (d in registers <==> d in before) && (d in registers ==> registers[d] == before[d])
    }

    /** applyUncore of a package: its dies, in no particular order. */
    method ApplyPackage(pkg: nat) returns (ok: bool)
      requires pkg in packages
      modifies this`registers, this`faults
      ensures ok <==> faults == old(faults)
      ensures old(faults) <= faults
      ensures ok ==> forall die | die in packages[pkg] :: SettledDie(Die(pkg, die))
      ensures forall die | die in packages[pkg] :: Attempted(old(registers), Die(pkg, die))
      ensures forall e: Die | e.pkg != pkg :: old(SettledDie(e)) ==> SettledDie(e)
    {
      var left := packages[pkg];
      while left != {}
        invariant left <= packages[pkg] && faults == old(faults)
        invariant forall die | die in packages[pkg] - left :: SettledDie(Die(pkg, die))
        invariant forall die | die in left :: SameAs(old(registers), Die(pkg, die))
        invariant forall e: Die | e.pkg != pkg :: old(SettledDie(e)) ==> SettledDie(e)
      {
        var die :| die in left;
        left := left - {die};
        ok := ApplyDie(Die(pkg, die));
        if !ok {
          return;
        }
      }
      return true;
    }

    /** SetUncore of the topology: whatever was there before, all dies settle. */
    method SetUncore(u: Option<Uncore>) returns (ok: bool)
      modifies this`own, this`registers, this`faults
      ensures own == u && old(faults) <= faults
      ensures ok <==> faults == old(faults)
      ensures ok ==> Settled()
    {
      own := u;
      var left := packages.Keys;
      while left != {}
        invariant left <= packages.Keys && faults == old(faults) && own == u
        invariant forall d | HasDie(d) && d.pkg !in left :: SettledDie(d)
      {
        var pkg :| pkg in left;
        left := left - {pkg};
        ok := ApplyPackage(pkg);
        if !ok {
          return;
        }
      }
      return true;
    }

    method SetPackageUncore(pkg: nat, u: Option<Uncore>) returns (ok: bool)
      requires pkg in packages
      modifies this`ofPackage, this`registers, this`faults
      ensures ofPackage == (if u.Some? then old(ofPackage)[pkg := u.value] else old(ofPackage) - {pkg})
      ensures old(faults) <= faults
      ensures ok <==> faults == old(faults)
      ensures ok && old(Settled()) ==> Settled()
    {
      ofPackage := if u.Some? then ofPackage[pkg := u.value] else ofPackage - {pkg};
      ok := ApplyPackage(pkg);
    }

    method SetDieUncore(d: Die, u: Option<Uncore>) returns (ok: bool)
      requires HasDie(d)
      modifies this`ofDie, this`registers, this`faults
      ensures ofDie == (if u.Some? then old(ofDie)[d := u.value] else old(ofDie) - {d})
      ensures old(faults) <= faults
      ensures ok <==> faults == old(faults)
      ensures ok && old(Settled()) ==> Settled()
    {
      ofDie := if u.Some? then ofDie[d := u.value] else ofDie - {d};
      ok := ApplyDie(d);
    }
  }

  datatype SetOp = OnTopology(u: Option<Uncore>) | OnPackage(pkg: nat, u: Option<Uncore>) | OnDie(d: Die, u: Option<Uncore>)

  /** After any run of successful calls whose first is at topology level, every die
      holds its most specific setting. Calls on unknown packages or dies have no
      object to be made on. */
  method RunSets(t: Topology, first: Option<Uncore>, rest: seq<SetOp>) returns (allOk: bool)
    modifies t`own, t`ofPackage, t`ofDie, t`registers, t`faults
    ensures allOk ==> t.Settled()
    ensures allOk <==> t.faults == old(t.faults)
  {
    allOk := t.SetUncore(first);
    for i := 0 to |rest|
      invariant old(t.faults) <= t.faults
      invariant allOk ==> t.Settled()
      invariant allOk <==> t.faults == old(t.faults)
    {
      var ok := true;
      match rest[i] {
        case OnTopology(u) => ok := t.SetUncore(u);
        case OnPackage(pkg, u) => if pkg in t.packages { ok := t.SetPackageUncore(pkg, u); }
        case OnDie(d, u) => if t.HasDie(d) { ok := t.SetDieUncore(d, u); }
      }
      allOk := allOk && ok;
    }
  }

  // ---- controllers/uncore_controller.go

  /** A dieSelector entry of the Uncore resource; any field may be missing. */
  datatype Selector = Selector(pkg: Option<nat>, die: Option<nat>, min: Option<nat>, max: Option<nat>)

  datatype Spec = Spec(sysMin: Option<nat>, sysMax: Option<nat>, selectors: seq<Selector>)

  function SystemWide(spec: Spec, hw: Uncore): (r: Option<Uncore>) {
    if spec.sysMin.Some? && spec.sysMax.Some? then NewUncore(spec.sysMin.value, spec.sysMax.value, hw) else None
  }

  /** What a selector asks for, if it can be carried out on this machine. */
  function Asks(s: Selector, hw: Uncore, packages: map<nat, set<nat>>): (r: Option<Uncore>) {
    if s.pkg.None? || s.min.None? || s.max.None? || s.pkg.value !in packages then None
    else if s.die.Some? && s.die.value !in packages[s.pkg.value] then None
    else NewUncore(s.min.value, s.max.value, hw)
  }

  /** The last selector, among those that can be carried out, for a whole package
      (die absent) or for one die. */
  function Last(ss: seq<Selector>, pkg: nat, die: Option<nat>, hw: Uncore, packages: map<nat, set<nat>>): (r: Option<Uncore>) {
    if ss == [] then None
    else
      var s := ss[|ss| - 1];
      if Asks(s, hw, packages).Some? && s.pkg == Some(pkg) && s.die == die then Asks(s, hw, packages)
      else Last(ss[..|ss| - 1], pkg, die, hw, packages)
  }

  /** What a die should hold under a spec. */
  function Wanted(spec: Spec, d: Die, hw: Uncore, packages: map<nat, set<nat>>): (r: Uncore) {
    var byDie := Last(spec.selectors, d.pkg, Some(d.die), hw, packages);
    var byPackage := Last(spec.selectors, d.pkg, None, hw, packages);
    if byDie.Some? then byDie.value
    else if byPackage.Some? then byPackage.value
    else if SystemWide(spec, hw).Some? then SystemWide(spec, hw).value
    else hw
  }

  lemma LastAppend(ss: seq<Selector>, s: Selector, pkg: nat, die: Option<nat>, hw: Uncore, packages: map<nat, set<nat>>)
    ensures Last(ss + [s], pkg, die, hw, packages) ==
            if Asks(s, hw, packages).Some? && s.pkg == Some(pkg) && s.die == die then Asks(s, hw, packages)
            else Last(ss, pkg, die, hw, packages)
  {
    assert (ss + [s])[..|ss + [s]| - 1] == ss;
  }

  /** The selector speaks of this package, or of this die of it, and what it asks for is
      ordered and within the hardware's range. */
  ghost predicate Binds(s: Selector, pkg: nat, die: Option<nat>, hw: Uncore) {
    && s.pkg == Some(pkg) && s.die == die && s.min.Some? && s.max.Some?
    && hw.min <= s.min.value <= s.max.value <= hw.max
  }

  /** The selector at i is the last that binds. */
  ghost predicate BindsLast(ss: seq<Selector>, i: nat, pkg: nat, die: Option<nat>, hw: Uncore) {
    i < |ss| && Binds(ss[i], pkg, die, hw) && forall j | i < j < |ss| :: !Binds(ss[j], pkg, die, hw)
  }

  lemma {:induction false} LastBinds(ss: seq<Selector>, pkg: nat, die: Option<nat>, hw: Uncore, packages: map<nat, set<nat>>) returns (i: nat)
    requires pkg in packages && (die.Some? ==> die.value in packages[pkg])
    ensures Last(ss, pkg, die, hw, packages).None? <==> forall j | 0 <= j < |ss| :: !Binds(ss[j], pkg, die, hw)
    ensures Last(ss, pkg, die, hw, packages).Some? ==>
              && BindsLast(ss, i, pkg, die, hw)
              && RoundedDown(Last(ss, pkg, die, hw, packages).value, ss[i].min.value, ss[i].max.value)
  {
    i := 0;
    if ss != [] {
      var n := |ss| - 1;
      if ss[n].min.Some? && ss[n].max.Some? {
        NewUncoreExact(ss[n].min.value, ss[n].max.value, hw);
      }
      if Binds(ss[n], pkg, die, hw) {
        i := n;
      } else {
        i := LastBinds(ss[..n], pkg, die, hw, packages);
        assert forall j | 0 <= j < n :: ss[..n][j] == ss[j];
      }
    }
  }

  /** What a die is set to under a configuration, in its own numbers: by the last selector
      that binds the die, else by the last that binds its package, else system-wide if that
      is within the hardware's range, else to the hardware's default. */
  ghost predicate SetAsAsked(u: Uncore, spec: Spec, d: Die, hw: Uncore) {
    var ss := spec.selectors;
    && (forall i: nat | BindsLast(ss, i, d.pkg, Some(d.die), hw) :: RoundedDown(u, ss[i].min.value, ss[i].max.value))
    && ((forall j | 0 <= j < |ss| :: !Binds(ss[j], d.pkg, Some(d.die), hw)) ==>
          && (forall i: nat | BindsLast(ss, i, d.pkg, None, hw) :: RoundedDown(u, ss[i].min.value, ss[i].max.value))
          && ((forall j | 0 <= j < |ss| :: !Binds(ss[j], d.pkg, None, hw)) ==>
                if spec.sysMin.Some? && spec.sysMax.Some? && hw.min <= spec.sysMin.value <= spec.sysMax.value <= hw.max
                then RoundedDown(u, spec.sysMin.value, spec.sysMax.value)
                else u == hw))
  }

  lemma WantedIsAsked(spec: Spec, d: Die, hw: Uncore, packages: map<nat, set<nat>>)
    requires d.pkg in packages && d.die in packages[d.pkg]
    ensures SetAsAsked(Wanted(spec, d, hw, packages), spec, d, hw)
  {
    var ss := spec.selectors;
    var i := LastBinds(ss, d.pkg, Some(d.die), hw, packages);
    var k := LastBinds(ss, d.pkg, None, hw, packages);
    forall j: nat, l: nat, die | BindsLast(ss, j, d.pkg, die, hw) && BindsLast(ss, l, d.pkg, die, hw)
      ensures j == l
    {
    }
    if spec.sysMin.Some? && spec.sysMax.Some? {
      NewUncoreExact(spec.sysMin.value, spec.sysMax.value, hw);
    }
  }

  /** What follows is all that matters, once two lists agree. */
  lemma {:induction false} LastExtends(x: seq<Selector>, y: seq<Selector>, rest: seq<Selector>,
                                       pkg: nat, die: Option<nat>, hw: Uncore, packages: map<nat, set<nat>>)
    requires Last(x, pkg, die, hw, packages) == Last(y, pkg, die, hw, packages)
    ensures Last(x + rest, pkg, die, hw, packages) == Last(y + rest, pkg, die, hw, packages)
    decreases |rest|
  {
    if rest == [] {
      assert x + rest == x && y + rest == y;
    } else {
      var s := rest[0];
      LastAppend(x, s, pkg, die, hw, packages);
      LastAppend(y, s, pkg, die, hw, packages);
      LastExtends(x + [s], y + [s], rest[1..], pkg, die, hw, packages);
      assert x + [s] + rest[1..] == x + rest && y + [s] + rest[1..] == y + rest;
    }
  }

  /** Selectors for different packages or dies may come in either order. */
  lemma OrderOfKeysIrrelevant(ss: seq<Selector>, a: Selector, b: Selector, rest: seq<Selector>,
                              pkg: nat, die: Option<nat>, hw: Uncore, packages: map<nat, set<nat>>)
    requires (a.pkg, a.die) != (b.pkg, b.die)
    ensures Last(ss + [a, b] + rest, pkg, die, hw, packages) == Last(ss + [b, a] + rest, pkg, die, hw, packages)
  {
    LastAppend(ss, a, pkg, die, hw, packages);
    LastAppend(ss, b, pkg, die, hw, packages);
    LastAppend(ss + [a], b, pkg, die, hw, packages);
    LastAppend(ss + [b], a, pkg, die, hw, packages);
    assert ss + [a, b] == ss + [a] + [b] && ss + [b, a] == ss + [b] + [a];
    LastExtends(ss + [a, b], ss + [b, a], rest, pkg, die, hw, packages);
  }

  class UncoreReconciler {
    const topology: Topology

    constructor (topology: Topology)
      ensures this.topology == topology
    {
      this.topology := topology;
    }

    /** resetUncoreSettings: clear the topology, then every package and its dies. */
    method ResetUncoreSettings() returns (ok: bool)
      modifies topology`own, topology`ofPackage, topology`ofDie, topology`registers, topology`faults
      ensures ok <==> topology.faults == old(topology.faults)
      ensures old(topology.faults) <= topology.faults
      ensures ok ==> topology.own == None && topology.Settled()
      ensures ok ==> forall d | topology.HasDie(d) :: d !in topology.ofDie && d.pkg !in topology.ofPackage
    {
      var t := topology;
      ok := t.SetUncore(None);
      if !ok {
        return;
      }
      var left := t.packages.Keys;
      while left != {}
        invariant left <= t.packages.Keys && t.faults == old(t.faults) && t.own == None && t.Settled()
        invariant forall pkg | pkg in t.packages && pkg !in left :: pkg !in t.ofPackage
        invariant forall d | t.HasDie(d) && d.pkg !in left :: d !in t.ofDie
      {
        var pkg :| pkg in left;
        left := left - {pkg};
        ok := t.SetPackageUncore(pkg, None);
        if !ok {
          return;
        }
        var dies := t.packages[pkg];
        while dies != {}
          invariant dies <= t.packages[pkg] && t.faults == old(t.faults) && t.own == None && t.Settled()
          invariant forall p | p in t.packages && p !in left :: p !in t.ofPackage
          invariant forall d | t.HasDie(d) && d.pkg !in left && (d.pkg != pkg || d.die !in dies) :: d !in t.ofDie
        {
          var die :| die in dies;
          dies := dies - {die};
          ok := t.SetDieUncore(Die(pkg, die), None);
          if !ok {
            return;
          }
        }
      }
      return true;
    }

    /** The settings below the topology are the last selectors that can be carried out. */
    ghost predicate Follows(ss: seq<Selector>)
      reads topology
    {
      forall d | topology.HasDie(d) ::
        && (d in topology.ofDie <==> LastFor(ss, d.pkg, Some(d.die)).Some?)
        && (d in topology.ofDie ==> topology.ofDie[d] == LastFor(ss, d.pkg, Some(d.die)).value)
        && (d.pkg in topology.ofPackage <==> LastFor(ss, d.pkg, None).Some?)
        && (d.pkg in topology.ofPackage ==> topology.ofPackage[d.pkg] == LastFor(ss, d.pkg, None).value)
    }

    ghost function LastFor(ss: seq<Selector>, pkg: nat, die: Option<nat>): (r: Option<Uncore>) {
      Last(ss, pkg, die, topology.hw, topology.packages)
    }

    /** A selector that names both limits, in order and within the hardware's, and a package
        and die that exist. */
    ghost predicate CanApply(s: Selector) {
      && s.min.Some? && s.max.Some? && topology.hw.min <= s.min.value <= s.max.value <= topology.hw.max
      && s.pkg.Some? && s.pkg.value in topology.packages
      && (s.die.Some? ==> s.die.value in topology.packages[s.pkg.value])
    }

    /** How many selectors cannot be applied. */
    ghost function Refused(ss: seq<Selector>): (n: nat) {
      if ss == [] then 0 else Refused(ss[..|ss| - 1]) + if CanApply(ss[|ss| - 1]) then 0 else 1
    }

    /** One dieSelector entry; false if it was reported as an error. */
    method ApplySelector(ghost done: seq<Selector>, s: Selector) returns (applied: bool)
      modifies topology`ofPackage, topology`ofDie, topology`registers, topology`faults
      ensures old(topology.faults) <= topology.faults
      ensures topology.faults == old(topology.faults) ==> (applied <==> CanApply(s))
      ensures topology.faults == old(topology.faults) && old(topology.Settled()) ==> topology.Settled()
      ensures topology.faults == old(topology.faults) && old(Follows(done)) ==> Follows(done + [s])
    {
      forall pkg, die {
        LastAppend(done, s, pkg, die, topology.hw, topology.packages);
      }
      if s.max.None? || s.min.None? || s.pkg.None? {
        return false;
      }
      var u := NewUncore(s.min.value, s.max.value, topology.hw);
      if u.None? {
        return false;
      }
      if s.pkg.value !in topology.packages {
        return false;
      }
      if s.die.None? {
        applied := topology.SetPackageUncore(s.pkg.value, u);
      } else {
        if s.die.value !in topology.packages[s.pkg.value] {
          return false;
        }
        applied := topology.SetDieUncore(Die(s.pkg.value, s.die.value), u);
      }
    }

    /** The selectors in order; returns how many were reported as errors. */
    method ApplySelectors(ss: seq<Selector>) returns (errors: nat)
      modifies topology`ofPackage, topology`ofDie, topology`registers, topology`faults
      ensures old(topology.faults) <= topology.faults
      ensures topology.faults == old(topology.faults) && old(topology.Settled()) ==> topology.Settled()
      ensures topology.faults == old(topology.faults) && old(Follows([])) ==> Follows(ss)
      ensures topology.faults == old(topology.faults) ==> (errors == 0 <==> forall s | s in ss :: CanApply(s))
      ensures topology.faults == old(topology.faults) ==> errors == Refused(ss)
    {
      errors := 0;
      for i := 0 to |ss|
        invariant old(topology.faults) <= topology.faults
        invariant topology.faults == old(topology.faults) && old(topology.Settled()) ==> topology.Settled()
        invariant topology.faults == old(topology.faults) && old(Follows([])) ==> Follows(ss[..i])
        invariant topology.faults == old(topology.faults) ==> (errors == 0 <==> forall s | s in ss[..i] :: CanApply(s))
        invariant topology.faults == old(topology.faults) ==> errors == Refused(ss[..i])
      {
        var applied := ApplySelector(ss[..i], ss[i]);
        if !applied {
          errors := errors + 1;
        }
        assert ss[..i + 1] == ss[..i] + [ss[i]];
      }
      assert ss[..|ss|] == ss;
    }

    /** applyUncoreConfig: reset, the system-wide setting, then the selectors in
        order. Returns the number of entries reported as errors. */
    method ApplyUncoreConfig(spec: Spec) returns (accepted: bool, errors: nat)
      modifies topology`own, topology`ofPackage, topology`ofDie, topology`registers, topology`faults
      ensures old(topology.faults) <= topology.faults
      ensures topology.faults == old(topology.faults) ==>
                (accepted <==> (spec.sysMin.Some? && spec.sysMax.Some?) || spec.selectors != [])
      ensures topology.faults == old(topology.faults) && accepted ==>
                forall d | topology.HasDie(d) :: d in topology.registers &&
                  topology.registers[d] == Wanted(spec, d, topology.hw, topology.packages) &&
                  SetAsAsked(topology.registers[d], spec, d, topology.hw)
      ensures topology.faults == old(topology.faults) && accepted ==>
                (errors == 0 <==>
                  && (spec.sysMin.Some? && spec.sysMax.Some? ==>
                        topology.hw.min <= spec.sysMin.value <= spec.sysMax.value <= topology.hw.max)
                  && forall s | s in spec.selectors :: CanApply(s))
      ensures topology.faults == old(topology.faults) && accepted ==>
                errors == Refused(spec.selectors) +
                  if spec.sysMin.Some? && spec.sysMax.Some? &&
                     !(topology.hw.min <= spec.sysMin.value <= spec.sysMax.value <= topology.hw.max) then 1 else 0
    {
      accepted, errors := false, 0;
      var hasSysWide := spec.sysMax.Some? && spec.sysMin.Some?;
      if !hasSysWide && spec.selectors == [] {
        return;
      }
      var ok := ResetUncoreSettings();
      if !ok {
        return;
      }
      accepted := true;
      if hasSysWide {
        var u := NewUncore(spec.sysMin.value, spec.sysMax.value, topology.hw);
        if u.None? {
          errors := 1;
        } else {
          ok := topology.SetUncore(u);
          errors := if ok then 0 else 1;
        }
      }
      var failed := ApplySelectors(spec.selectors);
      errors := errors + failed;
      assert topology.faults == old(topology.faults) ==> forall d | topology.HasDie(d) :: topology.SettledDie(d);
      forall d | topology.HasDie(d) {
        WantedIsAsked(spec, d, topology.hw, topology.packages);
      }
    }
  }
}
