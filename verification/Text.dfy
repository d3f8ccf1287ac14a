/** The string operations of Go's standard library that the modelled code relies on.
    A Go string is modelled as a sequence of Unicode code points; bytewise order of
    UTF-8 strings and code-point order agree. */
module Text {

  /** unicode.IsSpace. */
  predicate IsSpace(c: char) {
    var k := c as int;
    || 9 <= k <= 13 || k == 0x20 || k == 0x85 || k == 0xA0 || k == 0x1680
    || 0x2000 <= k <= 0x200A || k == 0x2028 || k == 0x2029 || k == 0x202F || k == 0x205F || k == 0x3000
  }

  function TrimLeft(s: string): (r: string)
    ensures r == [] || !IsSpace(r[0])
  {
    if s != [] && IsSpace(s[0]) then TrimLeft(s[1..]) else s
  }

  function TrimRight(s: string): (r: string)
    ensures r <= s
    ensures r == [] || !IsSpace(r[|r| - 1])
  {
    if s != [] && IsSpace(s[|s| - 1]) then TrimRight(s[..|s| - 1]) else s
  }

  /** strings.TrimSpace. */
  function TrimSpace(s: string): string {
    TrimRight(TrimLeft(s))
  }

  lemma TrimSpaceIdempotent(s: string)
    ensures TrimSpace(TrimSpace(s)) == TrimSpace(s)
  {
    var t := TrimRight(TrimLeft(s));
    assert TrimLeft(t) == t;
    assert TrimRight(t) == t;
  }

  predicate HasSpace(s: string) {
    exists i :: 0 <= i < |s| && IsSpace(s[i])
  }

  lemma TrimSpaceOfSolid(s: string)
    requires !HasSpace(s)
    ensures TrimSpace(s) == s
  {}

  predicate AllSpace(s: string) {
    forall i :: 0 <= i < |s| ==> IsSpace(s[i])
  }

  /** Nothing to trim at either end. */
  predicate Trimmed(s: string) {
    s == [] || (!IsSpace(s[0]) && !IsSpace(s[|s| - 1]))
  }

  lemma {:induction false} TrimLeftOf(l: string, t: string)
    requires AllSpace(l) && (t == [] || !IsSpace(t[0]))
    ensures TrimLeft(l + t) == t
  {
    if l == [] {
      assert l + t == t;
    } else {
      assert (l + t)[1..] == l[1..] + t;
      TrimLeftOf(l[1..], t);
    }
  }

  lemma {:induction false} TrimRightOf(t: string, r: string)
    requires AllSpace(r) && (t == [] || !IsSpace(t[|t| - 1]))
    ensures TrimRight(t + r) == t
  {
    if r == [] {
      assert t + r == t;
    } else {
      assert (t + r)[..|t + r| - 1] == t + r[..|r| - 1];
      TrimRightOf(t, r[..|r| - 1]);
    }
  }

  lemma {:induction false} TrimLeftOfSpace(l: string)
    requires AllSpace(l)
    ensures TrimLeft(l) == []
  {
    if l == [] {
    } else {
      TrimLeftOfSpace(l[1..]);
    }
  }

  /** TrimSpace takes off exactly the white space around a text; every string is of this form. */
  lemma TrimSpaceOf(l: string, t: string, r: string)
    requires AllSpace(l) && AllSpace(r) && Trimmed(t)
    ensures TrimSpace(l + t + r) == t
  {
    if t == [] {
      assert l + t + r == l + r;
      TrimLeftOfSpace(l + r);
    } else {
      assert l + t + r == l + (t + r);
      TrimLeftOf(l, t + r);
      TrimRightOf(t, r);
    }
  }

  /** The order Go's `<` gives on strings. */
  predicate Less(a: string, b: string) {
    if b == [] then false
    else if a == [] then true
    else if a[0] != b[0] then a[0] < b[0]
    else Less(a[1..], b[1..])
  }

  predicate LessEq(a: string, b: string) {
    a == b || Less(a, b)
  }

  lemma {:induction false} LessIrreflexive(a: string)
    ensures !Less(a, a)
  {
    if a == [] {
    } else {
      LessIrreflexive(a[1..]);
    }
  }

  lemma {:induction false} LessTransitive(a: string, b: string, c: string)
    requires Less(a, b) && Less(b, c)
    ensures Less(a, c)
  {
    if a == [] || !(a[0] == b[0] == c[0]) {
    } else {
      LessTransitive(a[1..], b[1..], c[1..]);
    }
  }

  lemma {:induction false} LessTrichotomy(a: string, b: string)
    ensures a == b || Less(a, b) || Less(b, a)
    ensures !(Less(a, b) && Less(b, a))
  {
    if a == [] || b == [] || a[0] != b[0] {
    } else {
      LessTrichotomy(a[1..], b[1..]);
      if a[1..] == b[1..] {
        assert a == [a[0]] + a[1..] && b == [b[0]] + b[1..];
      }
    }
  }

  /** a is a proper prefix of b, or smaller at the first place where they differ. */
  ghost predicate SmallerAt(a: string, b: string, k: int) {
    && 0 <= k <= |a| && k < |b| && a[..k] == b[..k]
    && (k == |a| || a[k] < b[k])
  }

  lemma SmallerHead(a: string, b: string, k: int)
    requires SmallerAt(a, b, k)
    ensures k > 0 ==> a[0] == b[0]
  {
    assert k > 0 ==> a[0] == a[..k][0] && b[0] == b[..k][0];
  }

  lemma {:induction false} LessIff(a: string, b: string)
    ensures Less(a, b) <==> exists k :: SmallerAt(a, b, k)
  {
    if a == [] || b == [] || a[0] != b[0] {
      if Less(a, b) {
        assert SmallerAt(a, b, 0);
      }
      forall k | SmallerAt(a, b, k) ensures Less(a, b) {
        SmallerHead(a, b, k);
      }
    } else {
      LessIff(a[1..], b[1..]);
      if Less(a, b) {
        var k :| SmallerAt(a[1..], b[1..], k);
        assert a[..k + 1] == [a[0]] + a[1..][..k] && b[..k + 1] == [b[0]] + b[1..][..k];
        assert SmallerAt(a, b, k + 1);
      }
      forall k | SmallerAt(a, b, k) ensures Less(a, b) {
        assert k > 0;
        assert a[1..][..k - 1] == a[..k][1..] && b[1..][..k - 1] == b[..k][1..];
        assert SmallerAt(a[1..], b[1..], k - 1);
      }
    }
  }

  /** strings.Index for a one-character needle; |s| when there is none. */
  function IndexOf(s: string, c: char): (i: nat)
    ensures i <= |s|
    ensures i < |s| ==> s[i] == c
    ensures c !in s[..i]
  {
    if s == [] || s[0] == c then 0
    else
      var i := IndexOf(s[1..], c);
      assert s[..1 + i] == [s[0]] + s[1..][..i];
      1 + i
  }

  /** strings.Split with a one-character separator: always at least one piece. */
  function Split(s: string, sep: char): (r: seq<string>)
    ensures |r| >= 1
    decreases |s|
  {
    var i := IndexOf(s, sep);
    if i == |s| then [s] else [s[..i]] + Split(s[i + 1..], sep)
  }

  /** strings.ReplaceAll for a non-empty `from`: leftmost, non-overlapping. */
  function ReplaceAll(s: string, from: string, to: string): string
    requires from != []
    decreases |s|
  {
    if |s| < |from| then s
    else if s[..|from|] == from then to + ReplaceAll(s[|from|..], from, to)
    else [s[0]] + ReplaceAll(s[1..], from, to)
  }

  lemma {:induction false} ReplaceAbsent(s: string, from: string, to: string)
    requires from != [] && from[0] !in s
    ensures ReplaceAll(s, from, to) == s
  {
    if |s| >= |from| {
      assert s[..|from|][0] == s[0];
      ReplaceAbsent(s[1..], from, to);
    }
  }

  ghost predicate OccursAt(s: string, from: string, i: int) {
    0 <= i && i + |from| <= |s| && s[i..i + |from|] == from
  }

  lemma {:induction false} ReplaceNone(s: string, from: string, to: string)
    requires from != [] && forall i :: !OccursAt(s, from, i)
    ensures ReplaceAll(s, from, to) == s
  {
    if |s| < |from| {
    } else {
      assert !OccursAt(s, from, 0);
      forall i ensures !OccursAt(s[1..], from, i) {
        assert !OccursAt(s, from, i + 1);
      }
      ReplaceNone(s[1..], from, to);
    }
  }

  /** An occurrence at each end and none in between. */
  lemma ReplaceBothEnds(mid: string, from: string, to: string)
    requires from != [] && from[0] !in mid
    ensures ReplaceAll(from + mid + from, from, to) == to + mid + to
  {
    var s := from + mid + from;
    assert s[..|from|] == from && s[|from|..] == mid + from;
    ReplaceLast(mid, from, to);
  }

  lemma ReplacePast(s: string, from: string, to: string)
    requires from != [] && |s| >= |from| && s[0] != from[0]
    ensures ReplaceAll(s, from, to) == [s[0]] + ReplaceAll(s[1..], from, to)
  {
    assert s[..|from|][0] == s[0];
  }

  lemma {:induction false} ReplaceLast(mid: string, from: string, to: string)
    requires from != [] && from[0] !in mid
    ensures ReplaceAll(mid + from, from, to) == mid + to
  {
    var s := mid + from;
    if mid == [] {
      assert s == from && s[|from|..] == [];
      assert ReplaceAll([], from, to) == [];
    } else {
      ReplacePast(s, from, to);
      assert s[1..] == mid[1..] + from;
      ReplaceLast(mid[1..], from, to);
      assert mid + to == [mid[0]] + (mid[1..] + to);
    }
  }

  predicate IsDigit(c: char) {
    '0' <= c <= '9'
  }

  predicate AllDigits(s: string) {
    forall i :: 0 <= i < |s| ==> IsDigit(s[i])
  }

  /** The number a run of decimal digits denotes. */
  function DecimalValue(s: string): nat
    requires AllDigits(s)
  {
    if s == [] then 0
    else DecimalValue(s[..|s| - 1]) * 10 + (s[|s| - 1] as int - '0' as int)
  }

  /** fmt's %d on a natural number. */
  function Decimal(n: nat): (s: string)
    ensures s != [] && AllDigits(s)
    ensures n > 0 ==> s[0] != '0'
  {
    var d := [('0' as int + n % 10) as char];
    if n < 10 then d else Decimal(n / 10) + d
  }

  lemma {:induction false} DecimalRoundTrip(n: nat)
    ensures DecimalValue(Decimal(n)) == n
  {
    var d := [('0' as int + n % 10) as char];
    if n < 10 {
      assert d[..0] == [];
      assert DecimalValue(d[..0]) == 0;
    } else {
      DecimalRoundTrip(n / 10);
      var s := Decimal(n);
      assert s == Decimal(n / 10) + d;
      assert s[..|s| - 1] == Decimal(n / 10);
    }
  }

  /** Digits without a leading zero are the decimal text of their value. */
  lemma {:induction false} DecimalCanonical(s: string)
    requires s != [] && AllDigits(s) && (|s| > 1 ==> s[0] != '0')
    ensures Decimal(DecimalValue(s)) == s
  {
    var init, last := s[..|s| - 1], s[|s| - 1];
    assert s == init + [last];
    if init == [] {
      assert DecimalValue(init) == 0;
    } else {
      DecimalCanonical(init);
      PositiveValue(init);
      var n := DecimalValue(s);
      assert n / 10 == DecimalValue(init) && n % 10 == last as int - '0' as int;
    }
  }

  lemma {:induction false} PositiveValue(s: string)
    requires s != [] && AllDigits(s) && s[0] != '0'
    ensures DecimalValue(s) > 0
  {
    if |s| == 1 {
    } else {
      PositiveValue(s[..|s| - 1]);
    }
  }

  const MAX_INT64: int := 0x7FFF_FFFF_FFFF_FFFF

  datatype Option<+T> = None | Some(value: T)

  /** strconv.Atoi on a 64-bit platform. */
  function Atoi(s: string): Option<int> {
    if s == [] then None
    else
      var signed := s[0] == '-' || s[0] == '+';
      var digits := if signed then s[1..] else s;
      if digits == [] || !AllDigits(digits) then None
      else
        var n: int := DecimalValue(digits);
        if s[0] == '-' then (if n <= MAX_INT64 + 1 then Some(-n) else None)
        else if n <= MAX_INT64 then Some(n) else None
  }

  /** Atoi reads decimal numbers of either sign, within range. */
  lemma AtoiReads(n: nat)
    ensures Atoi(Decimal(n)) == if n <= MAX_INT64 then Some(n) else None
    ensures Atoi("+" + Decimal(n)) == if n <= MAX_INT64 then Some(n) else None
    ensures n <= MAX_INT64 + 1 ==> Atoi("-" + Decimal(n)) == Some(-(n as int))
    ensures n > MAX_INT64 + 1 ==> Atoi("-" + Decimal(n)) == None
  {
    DecimalRoundTrip(n);
    assert IsDigit(Decimal(n)[0]);
    assert ("+" + Decimal(n))[1..] == Decimal(n) && ("-" + Decimal(n))[1..] == Decimal(n);
  }

  /** strings.Join. */
  function Join(parts: seq<string>, sep: string): string {
    if parts == [] then ""
    else if |parts| == 1 then parts[0]
    else parts[0] + sep + Join(parts[1..], sep)
  }

  ghost predicate Without(parts: seq<string>, c: char) {
    forall i :: 0 <= i < |parts| ==> c !in parts[i]
  }

  lemma IndexAfter(a: string, c: char, rest: string)
    requires c !in a
    ensures IndexOf(a + [c] + rest, c) == |a|
  {
    var s := a + [c] + rest;
    assert s[|a|] == c && s[..|a|] == a;
    assert IndexOf(s, c) >= |a|;
  }

  lemma IndexAbsent(a: string, c: char)
    requires c !in a
    ensures IndexOf(a, c) == |a|
  {
  }

  /** Splitting undoes joining. */
  lemma {:induction false} SplitOfJoin(parts: seq<string>, sep: char)
    requires parts != [] && Without(parts, sep)
    ensures Split(Join(parts, [sep]), sep) == parts
  {
    var s := Join(parts, [sep]);
    if |parts| == 1 {
      IndexAbsent(parts[0], sep);
    } else {
      var rest := Join(parts[1..], [sep]);
      assert s == parts[0] + [sep] + rest;
      IndexAfter(parts[0], sep, rest);
      assert s[..|parts[0]|] == parts[0] && s[|parts[0]| + 1..] == rest;
      SplitOfJoin(parts[1..], sep);
    }
  }
}
