/** The parts of Go's strings and strconv packages the agents use. */
module Text {

  datatype Option<+T> = None | Some(value: T)

  const MAX_INT := 0x7fff_ffff_ffff_ffff
  const MAX_UINT32 := 0xffff_ffff

  predicate IsDigit(c: char) {
    '0' <= c <= '9'
  }

  ghost predicate AllDigits(s: string) {
    forall i | 0 <= i < |s| :: IsDigit(s[i])
  }

  /** strconv.Itoa of a non-negative number. */
  function Itoa(n: nat): (s: string)
    ensures s != [] && AllDigits(s)
  {
    var digit := ['0' + (n % 10) as char];
    if n < 10 then digit else Itoa(n / 10) + digit
  }

  function DigitsValue(s: string): (r: Option<nat>)
  {
    if s == [] then Some(0)
    else
      var last := s[|s| - 1];
      match DigitsValue(s[..|s| - 1])
      case Some(n) => if IsDigit(last) then Some(10 * n + (last - '0') as nat) else None
      case None => None
  }

  /** strconv.Atoi on a 64-bit platform: an optional sign and at least one digit. */
  function Atoi(s: string): (r: Option<int>)
  {
    var digits := if s != [] && (s[0] == '-' || s[0] == '+') then s[1..] else s;
    var negative := s != [] && s[0] == '-';
    if digits == [] then None
    else match DigitsValue(digits)
      case None => None
      case Some(n) =>
        var magnitude: int := n;
        var v := if negative then -magnitude else magnitude;
        if -MAX_INT - 1 <= v <= MAX_INT then Some(v) else None
  }

  /** strconv.ParseUint(s, 10, 32): digits only, at most 2^32 - 1. */
  function ParseUint32(s: string): (r: Option<nat>)
  {
    if s == [] then None
    else match DigitsValue(s)
      case Some(n) => if n <= MAX_UINT32 then Some(n) else None
      case None => None
  }

  predicate HasPrefix(s: string, prefix: string) {
    |prefix| <= |s| && s[..|prefix|] == prefix
  }

  predicate HasSuffix(s: string, suffix: string) {
    |suffix| <= |s| && s[|s| - |suffix|..] == suffix
  }

  predicate Contains(s: string, part: string) {
    HasPrefix(s, part) || (s != "" && Contains(s[1..], part))
  }

  function TrimSuffix(s: string, suffix: string): (r: string) {
    if HasSuffix(s, suffix) then s[..|s| - |suffix|] else s
  }

  /** strings.Join. */
  function Join(parts: seq<string>, sep: char): (r: string) {
    if parts == [] then ""
    else if |parts| == 1 then parts[0]
    else parts[0] + [sep] + Join(parts[1..], sep)
  }

  /** strings.Split by one character: at least one part, even for "". */
  function Split(s: string, sep: char): (parts: seq<string>)
    ensures parts != []
  {
    if s == [] then [""]
    else if s[0] == sep then [""] + Split(s[1..], sep)
    else
      var rest := Split(s[1..], sep);
      [[s[0]] + rest[0]] + rest[1..]
  }

  ghost predicate StandsAt(s: string, part: string, i: nat) {
    i + |part| <= |s| && s[i..i + |part|] == part
  }

  lemma SliceOfTail(s: string, i: nat, n: nat)
    requires i + 1 + n <= |s|
    ensures s[1..][i..i + n] == s[i + 1..i + 1 + n]
  {
  }

  /** A part occurs in a string exactly if it stands somewhere in it. */
  lemma {:induction false} ContainsMeans(s: string, part: string)
    ensures Contains(s, part) <==> exists i: nat :: StandsAt(s, part, i)
  {
    assert StandsAt(s, part, 0) <==> HasPrefix(s, part);
    if s != "" {
      ContainsMeans(s[1..], part);
      forall i: nat
        ensures StandsAt(s[1..], part, i) <==> StandsAt(s, part, i + 1)
      {
        if i + 1 + |part| <= |s| {
          SliceOfTail(s, i, |part|);
        }
      }
      if i: nat :| StandsAt(s, part, i) && i > 0 {
        assert StandsAt(s[1..], part, i - 1);
      }
      if i: nat :| StandsAt(s[1..], part, i) {
        assert StandsAt(s, part, i + 1);
      }
    }
  }

  /** What is trimmed is the suffix, once. */
  lemma TrimsSuffix(s: string, suffix: string)
    ensures TrimSuffix(s + suffix, suffix) == s
    ensures !HasSuffix(s, suffix) ==> TrimSuffix(s, suffix) == s
    ensures HasSuffix(s + suffix, suffix) && HasPrefix(suffix + s, suffix)
  {
    assert (s + suffix)[|s|..] == suffix && (s + suffix)[..|s|] == s;
    assert (suffix + s)[..|suffix|] == suffix;
  }

  lemma {:induction false} ItoaValue(n: nat)
    ensures DigitsValue(Itoa(n)) == Some(n)
  {
    var s := Itoa(n);
    if n >= 10 {
      ItoaValue(n / 10);
      assert s[..|s| - 1] == Itoa(n / 10);
    }
  }

  /** Digits from the most significant to the least, in base ten; a sign in front of them is
      read, and nothing else is. */
  lemma NumbersInLetters(n: nat, d: nat)
    requires d < 10 && 0 < n
    ensures Itoa(d) == ["0123456789"[d]] && Itoa(10 * n + d) == Itoa(n) + ["0123456789"[d]]
    ensures var m: int := n; (n <= MAX_INT ==> Atoi("+" + Itoa(n)) == Some(m)) && (n <= MAX_INT + 1 ==> Atoi("-" + Itoa(n)) == Some(-m))
    ensures n > MAX_INT ==> Atoi(Itoa(n)) == None && (n > MAX_INT + 1 ==> Atoi("-" + Itoa(n)) == None)
    ensures n > MAX_UINT32 ==> ParseUint32(Itoa(n)) == None
  {
    ItoaValue(n);
    assert ("-" + Itoa(n))[1..] == Itoa(n) && ("+" + Itoa(n))[1..] == Itoa(n);
    assert IsDigit(Itoa(n)[0]);
    assert (10 * n + d) / 10 == n && (10 * n + d) % 10 == d;
  }

  /** What is read as a number consists of digits, and of a sign in front of them for Atoi. */
  lemma {:induction false} OnlyDigits(s: string)
    ensures DigitsValue(s).Some? <==> AllDigits(s)
    ensures ParseUint32(s).Some? ==> s != [] && AllDigits(s)
    ensures Atoi(s).Some? ==> s != [] && (AllDigits(s) || ((s[0] == '-' || s[0] == '+') && s[1..] != [] && AllDigits(s[1..])))
  {
    DigitsOnly(s);
    if s != [] {
      DigitsOnly(s[1..]);
    }
  }

  lemma {:induction false} DigitsOnly(s: string)
    ensures DigitsValue(s).Some? <==> AllDigits(s)
  {
    if s != [] {
      DigitsOnly(s[..|s| - 1]);
      assert AllDigits(s) <==> AllDigits(s[..|s| - 1]) && IsDigit(s[|s| - 1]);
    }
  }

  lemma ItoaInjective(m: nat, n: nat)
    requires Itoa(m) == Itoa(n)
    ensures m == n
  {
    ItoaValue(m);
    ItoaValue(n);
  }

  /** Printing then parsing a number gives it back, in both parsers. */
  lemma ItoaRoundTrip(n: nat)
    ensures n <= MAX_INT ==> Atoi(Itoa(n)) == Some(n)
    ensures n <= MAX_UINT32 ==> ParseUint32(Itoa(n)) == Some(n)
  {
    ItoaValue(n);
    assert IsDigit(Itoa(n)[0]);
  }

  lemma {:induction false} SplitNoSeparator(s: string, sep: char)
    requires sep !in s
    ensures Split(s, sep) == [s]
  {
    if s != [] {
      SplitNoSeparator(s[1..], sep);
      assert [s[0]] + s[1..] == s;
    }
  }

  lemma {:induction false} SplitFirst(first: string, rest: string, sep: char)
    requires sep !in first
    ensures Split(first + [sep] + rest, sep) == [first] + Split(rest, sep)
  {
    var s := first + [sep] + rest;
    if first == [] {
      assert s[1..] == rest;
    } else {
      SplitFirst(first[1..], rest, sep);
      assert s[1..] == first[1..] + [sep] + rest;
      assert [first[0]] + first[1..] == first;
    }
  }

  /** Splitting a joined non-empty list gives the list back, as long as no part
      contains the separator. */
  lemma {:induction false} SplitJoin(parts: seq<string>, sep: char)
    requires parts != []
    requires forall i | 0 <= i < |parts| :: sep !in parts[i]
    ensures Split(Join(parts, sep), sep) == parts
  {
    if |parts| == 1 {
      SplitNoSeparator(parts[0], sep);
    } else {
      SplitJoin(parts[1..], sep);
      SplitFirst(parts[0], Join(parts[1..], sep), sep);
    }
  }
}
