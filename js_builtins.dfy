/** The JavaScript built-ins that the site's scripts and tests lean on, stated over
    Dafny values: `Array.prototype.filter`, `String.prototype.trim` and `includes`,
    the global `parseInt` (called without a radix) and the decimal rendering of an
    integral Number. */
module JsBuiltins {
  import opened Wrappers

  // ---------------------------------------------------------------------------
  // Array.prototype.filter
  // ---------------------------------------------------------------------------

  /** The elements of `xs` that satisfy `p`, in their original order. */
  function Filter<T(==,!new)>(xs: seq<T>, p: T -> bool): (r: seq<T>)
    ensures |r| <= |xs|
    ensures forall x :: multiset(r)[x] == if p(x) then multiset(xs)[x] else 0
    ensures forall x :: x in r <==> x in xs && p(x)
    ensures r == [] <==> forall x :: x in xs ==> !p(x)
  {
    if xs == [] then []
    else
      assert xs == [xs[0]] + xs[1..];
      if p(xs[0]) then [xs[0]] + Filter(xs[1..], p) else Filter(xs[1..], p)
  }

  /** `sub` is `s` with some elements dropped and the rest kept in order. */
  ghost predicate IsSubsequence<T>(sub: seq<T>, s: seq<T>)
    decreases |s|
  {
    if sub == [] then true
    else if s == [] then false
    else (sub[0] == s[0] && IsSubsequence(sub[1..], s[1..])) || IsSubsequence(sub, s[1..])
  }

  /** Filtering keeps the relative order of the elements it keeps. */
  lemma {:induction false} FilterPreservesOrder<T(!new)>(xs: seq<T>, p: T -> bool)
    ensures IsSubsequence(Filter(xs, p), xs)
    decreases |xs|
  {
    if xs != [] {
      var rest := Filter(xs[1..], p);
      FilterPreservesOrder(xs[1..], p);
      if p(xs[0]) {
        var r := [xs[0]] + rest;
        assert r[0] == xs[0] && r[1..] == rest;
      } else if rest != [] {
        assert IsSubsequence(rest, xs[1..]);
      }
    }
  }

  /** The positions of `xs` whose elements satisfy `p`. */
  ghost function Matching<T>(xs: seq<T>, p: T -> bool): set<int> {
    set i | 0 <= i < |xs| && p(xs[i])
  }

  /** Every position moved one place to the right. */
  ghost function Shifted(positions: set<int>): set<int> {
    set i | i in positions :: i + 1
  }

  /** Shifting a set with one element taken out. */
  lemma ShiftedRemove(positions: set<int>, x: int)
    requires x in positions
    ensures Shifted(positions) == Shifted(positions - {x}) + {x + 1}
    ensures x + 1 !in Shifted(positions - {x})
  {
    forall j ensures j in Shifted(positions) <==> j in Shifted(positions - {x}) || j == x + 1 {
      assert j in Shifted(positions) <==> j - 1 in positions;
      assert j in Shifted(positions - {x}) <==> j - 1 in positions - {x};
    }
  }

  /** Shifting keeps the number of positions. */
  lemma {:induction false} ShiftedSize(positions: set<int>)
    ensures |Shifted(positions)| == |positions|
    decreases |positions|
  {
    if exists x :: x in positions {
      var x :| x in positions;
      ShiftedSize(positions - {x});
      ShiftedRemove(positions, x);
    } else {
      assert positions == {};
      assert Shifted(positions) == {};
    }
  }

  /** The matching positions of `xs`, split into its head and its tail. */
  lemma MatchingCons<T>(xs: seq<T>, p: T -> bool)
    requires xs != []
    ensures Matching(xs, p) == (if p(xs[0]) then {0} else {}) + Shifted(Matching(xs[1..], p))
    ensures 0 !in Shifted(Matching(xs[1..], p))
  {
    var tail := Matching(xs[1..], p);
    forall j ensures j in Matching(xs, p) <==> (j == 0 && p(xs[0])) || j in Shifted(tail) {
      assert j in Shifted(tail) <==> j - 1 in tail;
      if 1 <= j < |xs| {
        assert xs[1..][j - 1] == xs[j];
      }
    }
  }

  /** `filter(p).length` counts the positions whose elements satisfy `p`. */
  lemma {:induction false} FilterLength<T(!new)>(xs: seq<T>, p: T -> bool)
    ensures |Filter(xs, p)| == |Matching(xs, p)|
    decreases |xs|
  {
    if xs == [] {
      assert Matching(xs, p) == {};
    } else {
      FilterLength(xs[1..], p);
      ShiftedSize(Matching(xs[1..], p));
      MatchingCons(xs, p);
    }
  }

  /** Filtering twice is filtering once by both predicates. */
  lemma {:induction false} FilterTwice<T(!new)>(xs: seq<T>, p: T -> bool, q: T -> bool, both: T -> bool)
    requires forall x :: both(x) == (p(x) && q(x))
    ensures Filter(Filter(xs, p), q) == Filter(xs, both)
    decreases |xs|
  {
    if xs != [] {
      FilterTwice(xs[1..], p, q, both);
      if p(xs[0]) {
        assert Filter(xs, p) == [xs[0]] + Filter(xs[1..], p);
        assert Filter(xs, p)[1..] == Filter(xs[1..], p);
      }
    }
  }

  // ---------------------------------------------------------------------------
  // White space (the WhiteSpace and LineTerminator productions of ECMAScript)
  // ---------------------------------------------------------------------------

  predicate IsWhitespace(c: char) {
    || c == '\t' || c == '\n' || c == '\U{000B}' || c == '\U{000C}' || c == '\r'
    || c == ' ' || c == '\U{00A0}' || c == '\U{1680}' || ('\U{2000}' <= c <= '\U{200A}')
    || c == '\U{2028}' || c == '\U{2029}' || c == '\U{202F}' || c == '\U{205F}'
    || c == '\U{3000}' || c == '\U{FEFF}'
  }

  /** `s` without its leading white space. */
  function TrimStart(s: string): (r: string)
    ensures |r| <= |s| && r == s[|s| - |r|..]
    ensures forall i :: 0 <= i < |s| - |r| ==> IsWhitespace(s[i])
    ensures r == [] || !IsWhitespace(r[0])
    decreases |s|
  {
    if s != [] && IsWhitespace(s[0]) then
      var r := TrimStart(s[1..]);
      assert r == s[|s| - |r|..];
      r
    else s
  }

  /** `s` without its trailing white space. */
  function TrimEnd(s: string): (r: string)
    ensures |r| <= |s| && r == s[..|r|]
    ensures forall i :: |r| <= i < |s| ==> IsWhitespace(s[i])
    ensures r == [] || !IsWhitespace(r[|r| - 1])
    decreases |s|
  {
    if s != [] && IsWhitespace(s[|s| - 1]) then TrimEnd(s[..|s| - 1]) else s
  }

  /** `r` is the slice of `s` starting at `k`, and everything of `s` outside that
      slice is white space. */
  ghost predicate CutAt(s: string, k: int, r: string) {
    && 0 <= k && k + |r| <= |s| && r == s[k..k + |r|]
    && (forall i :: 0 <= i < k ==> IsWhitespace(s[i]))
    && (forall i :: k + |r| <= i < |s| ==> IsWhitespace(s[i]))
  }

  /** Cutting white space from the front of `s`, then from the back of what is
      left, leaves a slice of `s` with only white space around it. */
  lemma CutBothEnds(s: string, t: string, r: string)
    requires |t| <= |s| && t == s[|s| - |t|..]
    requires forall i :: 0 <= i < |s| - |t| ==> IsWhitespace(s[i])
    requires |r| <= |t| && r == t[..|r|]
    requires forall i :: |r| <= i < |t| ==> IsWhitespace(t[i])
    ensures CutAt(s, |s| - |t|, r)
  {
    var k := |s| - |t|;
    assert s[k..][..|r|] == s[k..k + |r|];
    forall i | k + |r| <= i < |s| ensures IsWhitespace(s[i]) {
      assert s[i] == t[i - k];
    }
  }

  /** A cut that starts at a character other than white space is empty exactly
      when the whole string is white space. */
  lemma CutEmptyIff(s: string, k: int, r: string)
    requires CutAt(s, k, r)
    requires r == [] || !IsWhitespace(r[0])
    ensures r == [] <==> forall i :: 0 <= i < |s| ==> IsWhitespace(s[i])
  {
    if r != [] {
      assert s[k] == r[0];
    }
  }

  /** `String.prototype.trim`: the slice of `s` left once the white space at both
      ends is cut off; empty exactly when `s` is all white space. */
  function Trim(s: string): (r: string)
    ensures |r| <= |s|
    ensures exists k :: CutAt(s, k, r)
    ensures r == [] || (!IsWhitespace(r[0]) && !IsWhitespace(r[|r| - 1]))
    ensures r == [] <==> forall i :: 0 <= i < |s| ==> IsWhitespace(s[i])
  {
    var t := TrimStart(s);
    var r := TrimEnd(t);
    CutBothEnds(s, t, r);
    assert r != [] ==> r[0] == t[0];
    CutEmptyIff(s, |s| - |t|, r);
    r
  }

  // ---------------------------------------------------------------------------
  // String.prototype.includes
  // ---------------------------------------------------------------------------

  /** `sub` occurs in `s` starting at index `i`. */
  ghost predicate OccursAt(sub: string, s: string, i: int) {
    0 <= i && i + |sub| <= |s| && s[i..i + |sub|] == sub
  }

  lemma OccursShift(sub: string, s: string)
    requires s != []
    ensures (exists i :: OccursAt(sub, s, i))
        <==> OccursAt(sub, s, 0) || exists j :: OccursAt(sub, s[1..], j)
  {
    if i :| OccursAt(sub, s, i) && i > 0 {
      assert s[1..][i - 1..i - 1 + |sub|] == s[i..i + |sub|];
      assert OccursAt(sub, s[1..], i - 1);
    }
    if j :| OccursAt(sub, s[1..], j) {
      assert s[1..][j..j + |sub|] == s[j + 1..j + 1 + |sub|];
      assert OccursAt(sub, s, j + 1);
    }
  }

  /** `s.includes(sub)`: whether `sub` occurs somewhere in `s`. */
  function Includes(s: string, sub: string): (b: bool)
    ensures b <==> exists i :: OccursAt(sub, s, i)
    decreases |s|
  {
    if |sub| > |s| then false
    else if s[..|sub|] == sub then assert OccursAt(sub, s, 0); true
    else
      OccursShift(sub, s);
      Includes(s[1..], sub)
  }

  // ---------------------------------------------------------------------------
  // Integral Number to string, and parseInt
  // ---------------------------------------------------------------------------

  predicate IsDecimalDigit(c: char) {
    '0' <= c <= '9'
  }

  function DigitChar(d: int): (c: char)
    requires 0 <= d < 10
    ensures IsDecimalDigit(c) && c as int - '0' as int == d
  {
    ('0' as int + d) as char
  }

  /** The decimal rendering of a natural number, without leading zeros. */
  function NatToString(n: nat): (s: string)
    ensures |s| >= 1
    ensures forall i :: 0 <= i < |s| ==> IsDecimalDigit(s[i])
    ensures s[0] == '0' ==> n == 0 && s == "0"
    decreases n
  {
    if n < 10 then [DigitChar(n)] else NatToString(n / 10) + [DigitChar(n % 10)]
  }

  /** `String(n)` for an integral Number `n` of moderate size. */
  function IntToString(n: int): (s: string)
    ensures s != [] && !IsWhitespace(s[0])
    ensures s[0] == '-' <==> n < 0
  {
    var digits := NatToString(if n < 0 then -n else n);
    if n < 0 then "-" + digits else digits
  }

  /** The value of a hexadecimal digit (0 to 15), or 16 for a character that is none. */
  function DigitValue(c: char): (v: nat)
    ensures v <= 16
    ensures IsDecimalDigit(c) <==> v < 10
  {
    if '0' <= c <= '9' then c as int - '0' as int
    else if 'a' <= c <= 'f' then c as int - 'a' as int + 10
    else if 'A' <= c <= 'F' then c as int - 'A' as int + 10
    else 16
  }

  /** The longest prefix of `s` made of digits of the given radix. */
  function LeadingDigits(s: string, radix: nat): (r: string)
    ensures |r| <= |s| && r == s[..|r|]
    ensures forall i :: 0 <= i < |r| ==> DigitValue(r[i]) < radix
    ensures |r| == |s| || DigitValue(s[|r|]) >= radix
    decreases |s|
  {
    if s != [] && DigitValue(s[0]) < radix then [s[0]] + LeadingDigits(s[1..], radix) else []
  }

  /** The product of two naturals is a natural. */
  lemma NatProduct(a: nat, b: nat)
    ensures a * b >= 0
  {
  }

  /** The number that the digit string `ds` denotes in the given radix. */
  function DigitsValue(ds: string, radix: nat): nat
    requires forall i :: 0 <= i < |ds| ==> DigitValue(ds[i]) < radix
    decreases |ds|
  {
    if ds == [] then 0
    else
      var prefix := ds[..|ds| - 1];
      assert forall i :: 0 <= i < |prefix| ==> DigitValue(prefix[i]) < radix by {
        assert forall i :: 0 <= i < |prefix| ==> prefix[i] == ds[i];
      }
      var high := DigitsValue(prefix, radix);
      NatProduct(high, radix);
      high * radix + DigitValue(ds[|ds| - 1])
  }

  /** The unsigned part of `parseInt`: radix 16 after a `0x`/`0X` prefix, radix 10
      otherwise, then the longest run of digits. None when there is no digit. */
  function ParseMagnitude(u: string): (r: Option<nat>)
  {
    var hex := |u| >= 2 && u[0] == '0' && (u[1] == 'x' || u[1] == 'X');
    var radix := if hex then 16 else 10;
    var ds := LeadingDigits(if hex then u[2..] else u, radix);
    if ds == [] then None else Some(DigitsValue(ds, radix))
  }

  /** `parseInt(s)` with no radix: skip leading white space, read an optional sign,
      then the magnitude. None stands for NaN (no digit at all). */
  function ParseInt(s: string): (r: Option<int>)
  {
    var t := TrimStart(s);
    var negative := t != [] && t[0] == '-';
    var u := if t != [] && (t[0] == '-' || t[0] == '+') then t[1..] else t;
    match ParseMagnitude(u)
    case None => None
    case Some(v) =>
      var magnitude: int := v;
      Some(if negative then -magnitude else magnitude)
  }

  lemma {:induction false} DigitsValueOfNatToString(n: nat)
    ensures DigitsValue(NatToString(n), 10) == n
    decreases n
  {
    if n >= 10 {
      var s := NatToString(n);
      assert s[..|s| - 1] == NatToString(n / 10);
      DigitsValueOfNatToString(n / 10);
    }
  }

  lemma {:induction false} LeadingDigitsOfDigits(s: string, rest: string)
    requires forall i :: 0 <= i < |s| ==> IsDecimalDigit(s[i])
    requires rest == [] || !IsDecimalDigit(rest[0])
    ensures LeadingDigits(s + rest, 10) == s
    decreases |s|
  {
    if s != [] {
      LeadingDigitsOfDigits(s[1..], rest);
      assert (s + rest)[0] == s[0] && (s + rest)[1..] == s[1..] + rest;
      assert s == [s[0]] + s[1..];
    } else {
      assert s + rest == rest;
    }
  }

  /** The decimal rendering of `m`, followed by text that does not continue it,
      reads back as `m`. */
  lemma ParseMagnitudeOfNatToString(m: nat, rest: string)
    requires rest == [] || (!IsDecimalDigit(rest[0]) && rest[0] != 'x' && rest[0] != 'X')
    ensures ParseMagnitude(NatToString(m) + rest) == Some(m)
  {
    var u := NatToString(m);
    var v := u + rest;
    assert v[0] == u[0];
    if |v| >= 2 && v[0] == '0' {
      assert u == "0";
      assert v[1] == rest[0];
    }
    LeadingDigitsOfDigits(u, rest);
    DigitsValueOfNatToString(m);
  }

  /** A digit is neither white space nor a sign. */
  lemma DigitIsNotBlank(c: char)
    requires IsDecimalDigit(c)
    ensures !IsWhitespace(c) && c != '-' && c != '+'
  {
  }

  /** A string that starts with a character other than white space is left
      as it is by `TrimStart`. */
  lemma TrimStartOfNonBlank(w: string)
    requires w != [] && !IsWhitespace(w[0])
    ensures TrimStart(w) == w
  {
  }

  /** `parseInt` of digits `u` followed by `rest`, where `u` starts with neither
      white space nor a sign. */
  lemma ParseIntUnsigned(u: string, rest: string, magnitude: nat)
    requires u != [] && !IsWhitespace(u[0]) && u[0] != '-' && u[0] != '+'
    requires ParseMagnitude(u + rest) == Some(magnitude)
    ensures ParseInt(u + rest) == Some(magnitude)
  {
    var v := u + rest;
    assert v[0] == u[0];
    TrimStartOfNonBlank(v);
  }

  /** The same after a minus sign. */
  lemma ParseIntNegative(u: string, rest: string, magnitude: nat)
    requires u != [] && !IsWhitespace(u[0]) && u[0] != '-' && u[0] != '+'
    requires ParseMagnitude(u + rest) == Some(magnitude)
    ensures ParseInt(("-" + u) + rest) == Some(-(magnitude as int))
  {
    var v := u + rest;
    var w := ("-" + u) + rest;
    assert w[0] == '-' && w[1..] == v && v[0] == u[0];
    TrimStartOfNonBlank(w);
  }

  /** Reading back the decimal rendering of an integer gives that integer, also
      when the rendering is followed by text that does not continue the number. */
  lemma {:induction false} ParseIntToString(n: int, rest: string)
    requires rest == [] || (!IsDecimalDigit(rest[0]) && rest[0] != 'x' && rest[0] != 'X')
    ensures ParseInt(IntToString(n) + rest) == Some(n)
  {
    var m := if n < 0 then -n else n;
    var u := NatToString(m);
    DigitIsNotBlank(u[0]);
    ParseMagnitudeOfNatToString(m, rest);
    if n < 0 {
      ParseIntNegative(u, rest, m);
    } else {
      ParseIntUnsigned(u, rest, m);
    }
  }
}
