/**
 * Character and string helpers shared by the version, path and commit-message
 * logic: decimal numerals, splitting on a separator, and the lexicographic
 * string order used for tie-breaking.
 */
module Strings {
  import opened Wrappers

  predicate IsDigit(c: char) { '0' <= c <= '9' }

  predicate AllDigits(s: string) { forall i :: 0 <= i < |s| ==> IsDigit(s[i]) }

  predicate StartsWith(s: string, prefix: string) { |prefix| <= |s| && s[..|prefix|] == prefix }

  /** A decimal numeral without superfluous leading zeros: `0|[1-9][0-9]*`. */
  predicate CanonicalNumeral(s: string) { |s| >= 1 && AllDigits(s) && (s[0] == '0' ==> |s| == 1) }

  function Min(a: nat, b: nat): nat { if a <= b then a else b }

  /** Length of the longest run of decimal digits in `s` starting at position `i`. */
  function DigitRun(s: string, i: nat): (n: nat)
    requires i <= |s|
    ensures i + n <= |s|
    ensures forall k :: i <= k < i + n ==> IsDigit(s[k])
    ensures i + n == |s| || !IsDigit(s[i + n])
    decreases |s| - i
  {
    if i == |s| || !IsDigit(s[i]) then 0 else 1 + DigitRun(s, i + 1)
  }

  function DigitValue(c: char): nat
    requires IsDigit(c)
  {
    (c as int - '0' as int) as nat
  }

  function DigitChar(d: nat): (c: char)
    requires d < 10
    ensures IsDigit(c) && DigitValue(c) == d
  {
    ('0' as int + d) as char
  }

  /** The value of a string of decimal digits (the empty string reads as 0). */
  function DecimalValue(s: string): nat
    requires AllDigits(s)
    decreases |s|
  {
    if s == [] then 0 else DecimalValue(s[..|s| - 1]) * 10 + DigitValue(s[|s| - 1])
  }

  /** The decimal numeral of `n`, as JavaScript prints a non-negative integer. */
  function NatToString(n: nat): (s: string)
    ensures CanonicalNumeral(s)
    ensures s[0] == '0' <==> n == 0
    decreases n
  {
    if n < 10 then [DigitChar(n)] else NatToString(n / 10) + [DigitChar(n % 10)]
  }

  lemma {:induction false} DecimalOfNatToString(n: nat)
    ensures DecimalValue(NatToString(n)) == n
  {
    if n >= 10 {
      var s := NatToString(n);
      assert s[..|s| - 1] == NatToString(n / 10);
      DecimalOfNatToString(n / 10);
    }
  }

  lemma {:induction false} DecimalValuePositive(s: string)
    requires |s| >= 1 && AllDigits(s) && s[0] != '0'
    ensures DecimalValue(s) >= 1
    ensures |s| >= 2 ==> DecimalValue(s) >= 10
    decreases |s|
  {
    if |s| >= 2 {
      DecimalValuePositive(s[..|s| - 1]);
    }
  }

  lemma {:induction false} NatToStringOfDecimal(s: string)
    requires CanonicalNumeral(s)
    ensures NatToString(DecimalValue(s)) == s
    decreases |s|
  {
    if |s| >= 2 {
      var t := s[..|s| - 1];
      var c := s[|s| - 1];
      DecimalValuePositive(s);
      DecimalValuePositive(t);
      NatToStringOfDecimal(t);
      var v := DecimalValue(t);
      assert DecimalValue(s) == v * 10 + DigitValue(c);
      assert DecimalValue(s) / 10 == v && DecimalValue(s) % 10 == DigitValue(c);
      assert DigitChar(DigitValue(c)) == c;
      assert s == t + [c];
    }
  }

  /** Canonical numerals are read back exactly: the decimal reading is a bijection. */
  lemma CanonicalNumeralUnique(a: string, b: string)
    requires CanonicalNumeral(a) && CanonicalNumeral(b) && DecimalValue(a) == DecimalValue(b)
    ensures a == b
  {
    NatToStringOfDecimal(a);
    NatToStringOfDecimal(b);
  }

  /** `s.split(c)`: the pieces between occurrences of `c`; always at least one piece. */
  function Split(s: string, c: char): (parts: seq<string>)
    ensures |parts| >= 1
    ensures forall i :: 0 <= i < |parts| ==> c !in parts[i]
    ensures Join(parts, [c]) == s
    decreases |s|
  {
    if s == [] then [""]
    else
      var rest := Split(s[1..], c);
      if s[0] == c then [""] + rest
      else [[s[0]] + rest[0]] + rest[1..]
  }

  /** `parts.join(sep)`. */
  function Join(parts: seq<string>, sep: string): string
    decreases |parts|
  {
    if parts == [] then "" else if |parts| == 1 then parts[0] else parts[0] + sep + Join(parts[1..], sep)
  }

  lemma {:induction false} SplitPieceThenSeparator(a: string, b: string, c: char)
    requires c !in a
    ensures Split(a + [c] + b, c) == [a] + Split(b, c)
    decreases |a|
  {
    if a == [] {
      assert (a + [c] + b)[1..] == b;
    } else {
      var s := a + [c] + b;
      assert s[0] == a[0] != c && s[1..] == a[1..] + [c] + b;
      SplitPieceThenSeparator(a[1..], b, c);
      assert [a[0]] + a[1..] == a;
    }
  }

  lemma {:induction false} SplitWithoutSeparator(a: string, c: char)
    requires c !in a
    ensures Split(a, c) == [a]
    decreases |a|
  {
    if a != [] {
      SplitWithoutSeparator(a[1..], c);
      assert a == [a[0]] + a[1..];
    }
  }

  /** Splitting a join of separator-free pieces gives the pieces back. */
  lemma {:induction false} SplitJoin(parts: seq<string>, c: char)
    requires |parts| >= 1
    requires forall i :: 0 <= i < |parts| ==> c !in parts[i]
    ensures Split(Join(parts, [c]), c) == parts
    decreases |parts|
  {
    if |parts| == 1 {
      SplitWithoutSeparator(parts[0], c);
    } else {
      SplitJoin(parts[1..], c);
      SplitPieceThenSeparator(parts[0], Join(parts[1..], [c]), c);
      assert [parts[0]] + parts[1..] == parts;
    }
  }

  lemma {:induction false} JoinExcludes(parts: seq<string>, sep: string, x: char)
    requires x !in sep
    requires forall i :: 0 <= i < |parts| ==> x !in parts[i]
    ensures x !in Join(parts, sep)
    decreases |parts|
  {
    if |parts| > 1 { JoinExcludes(parts[1..], sep, x); }
  }

  /** The pieces after the first, each with `t` put in front. */
  function PrefixLater(parts: seq<string>, t: string): (r: seq<string>)
    requires |parts| >= 1
    ensures |r| == |parts| && r[0] == parts[0]
    ensures forall i :: 1 <= i < |parts| ==> r[i] == t + parts[i]
  {
    [parts[0]] + seq(|parts| - 1, i requires 0 <= i < |parts| - 1 => t + parts[i + 1])
  }

  lemma {:induction false} JoinPrefixFirst(q: seq<string>, t: string, sep: string)
    requires |q| >= 1
    ensures Join([t + q[0]] + q[1..], sep) == t + Join(q, sep)
  {
    var r := [t + q[0]] + q[1..];
    assert r[1..] == q[1..];
  }

  /** Joining with a separator `c` followed by `t` is joining with `c` alone after putting `t` in front of the later pieces. */
  lemma {:induction false} JoinLongerSeparator(parts: seq<string>, c: char, t: string)
    requires |parts| >= 1
    ensures Join(parts, [c] + t) == Join(PrefixLater(parts, t), [c])
    decreases |parts|
  {
    if |parts| >= 2 {
      var pl := PrefixLater(parts, t);
      var q := PrefixLater(parts[1..], t);
      JoinLongerSeparator(parts[1..], c, t);
      assert pl[1..] == [t + q[0]] + q[1..];
      JoinPrefixFirst(q, t, [c]);
      assert parts[0] + ([c] + t) + Join(parts[1..], [c] + t) == parts[0] + [c] + (t + Join(q, [c]));
    }
  }

  /**
   * Splitting a join on the separator's first character gives the pieces
   * back, each after the first with the rest of the separator in front.
   */
  lemma {:induction false} SplitJoinLonger(parts: seq<string>, c: char, t: string)
    requires |parts| >= 1 && c !in t
    requires forall i :: 0 <= i < |parts| ==> c !in parts[i]
    ensures Split(Join(parts, [c] + t), c) == PrefixLater(parts, t)
  {
    var pl := PrefixLater(parts, t);
    JoinLongerSeparator(parts, c, t);
    forall i | 0 <= i < |pl| ensures c !in pl[i] {
      if i > 0 { assert pl[i] == t + parts[i]; }
    }
    SplitJoin(pl, c);
  }

  /** The text before the first `c`, and the text after it when there is one. */
  function SplitFirst(s: string, c: char): (r: (string, Option<string>))
    ensures c !in r.0
    ensures r.1.None? ==> s == r.0
    ensures r.1.Some? ==> s == r.0 + [c] + r.1.value
    decreases |s|
  {
    if s == [] then ("", None)
    else if s[0] == c then ("", Some(s[1..]))
    else
      var rest := SplitFirst(s[1..], c);
      ([s[0]] + rest.0, rest.1)
  }

  lemma {:induction false} SplitFirstAt(a: string, b: string, c: char)
    requires c !in a
    ensures SplitFirst(a + [c] + b, c) == (a, Some(b))
    decreases |a|
  {
    if a == [] {
      assert (a + [c] + b)[1..] == b;
    } else {
      var s := a + [c] + b;
      assert s[0] == a[0] != c && s[1..] == a[1..] + [c] + b;
      SplitFirstAt(a[1..], b, c);
      assert [a[0]] + a[1..] == a;
    }
  }

  lemma {:induction false} SplitFirstAbsent(a: string, c: char)
    requires c !in a
    ensures SplitFirst(a, c) == (a, None)
    decreases |a|
  {
    if a != [] {
      SplitFirstAbsent(a[1..], c);
      assert a == [a[0]] + a[1..];
    }
  }

  /** `s.replace(/\\/g, '/')`. */
  function ReplaceBackslashes(s: string): (r: string)
    ensures |r| == |s|
    ensures '\\' !in r
    ensures forall i :: 0 <= i < |s| ==> r[i] == (if s[i] == '\\' then '/' else s[i])
  {
    seq(|s|, i requires 0 <= i < |s| => if s[i] == '\\' then '/' else s[i])
  }

  /** `toLowerCase` restricted to the ASCII letters. */
  function LowerAscii(s: string): (r: string)
    ensures |r| == |s|
    ensures forall i :: 0 <= i < |s| ==> r[i] == (if 'A' <= s[i] <= 'Z' then (s[i] as int + 32) as char else s[i])
  {
    seq(|s|, i requires 0 <= i < |s| => if 'A' <= s[i] <= 'Z' then (s[i] as int + 32) as char else s[i])
  }

  /** Lexicographic order on character codes (the order `<` gives on JavaScript strings of ASCII text). */
  predicate StrLess(a: string, b: string)
    decreases |a|
  {
    if a == [] then b != []
    else if b == [] then false
    else if a[0] != b[0] then a[0] < b[0]
    else StrLess(a[1..], b[1..])
  }

  lemma {:induction false} StrLessIrreflexive(a: string)
    ensures !StrLess(a, a)
    decreases |a|
  {
    if a != [] { StrLessIrreflexive(a[1..]); }
  }

  lemma {:induction false} StrLessAsymmetric(a: string, b: string)
    requires StrLess(a, b)
    ensures !StrLess(b, a)
    decreases |a|
  {
    if a != [] && b != [] && a[0] == b[0] { StrLessAsymmetric(a[1..], b[1..]); }
  }

  lemma {:induction false} StrLessTransitive(a: string, b: string, c: string)
    requires StrLess(a, b) && StrLess(b, c)
    ensures StrLess(a, c)
    decreases |a|
  {
    if a != [] && b != [] && c != [] && a[0] == b[0] && b[0] == c[0] {
      StrLessTransitive(a[1..], b[1..], c[1..]);
    }
  }

  lemma {:induction false} StrLessTotal(a: string, b: string)
    requires a != b
    ensures StrLess(a, b) || StrLess(b, a)
    decreases |a|
  {
    if a != [] && b != [] && a[0] == b[0] {
      assert a == [a[0]] + a[1..] && b == [b[0]] + b[1..];
      StrLessTotal(a[1..], b[1..]);
    }
  }
}
