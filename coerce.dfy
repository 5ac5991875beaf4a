/**
 * Version coercion (`coerceVersionNumber`): a loosely written version such as
 * `11` or `11.2-rc.1` is padded to `major.minor.patch` and then handed to
 * `semver.valid`. The two regular expressions of the source are modelled by
 * their greedy matches.
 */
module Coerce {
  import opened Wrappers
  import opened Strings
  import opened SemVer

  /** The `{1,30}` bound on each run of digits in both expressions. */
  const MaxDigits: nat := 30

  /** `^\d{1,30}\.\d{1,30}\.\d{1,30}` matches: a full three-component prefix. */
  predicate MatchesFullPrefix(s: string)
  {
    var r1 := DigitRun(s, 0);
    && 1 <= r1 <= MaxDigits && r1 < |s| && s[r1] == '.'
    && var r2 := DigitRun(s, r1 + 1);
    && 1 <= r2 <= MaxDigits && r1 + 1 + r2 < |s| && s[r1 + 1 + r2] == '.'
    && DigitRun(s, r1 + r2 + 2) >= 1
  }

  /**
   * The greedy match of `^\d{1,30}(\.\d{1,30})*`: the length of the matched
   * prefix and how many times the group repeated. `match[1]` is set exactly
   * when `groups >= 1`; the expression has one capture group, so `match[2]`
   * never exists.
   */
  datatype PrefixMatch = PrefixMatch(length: nat, groups: nat)

  /** The greedy repetitions of `(\.\d{1,30})` from position `i`: where they end, and how many. */
  function Repetitions(s: string, i: nat): (r: (nat, nat))
    requires i <= |s|
    ensures i <= r.0 <= |s|
    ensures r.1 == 0 <==> r.0 == i
    decreases |s| - i
  {
    if i < |s| && s[i] == '.' && DigitRun(s, i + 1) >= 1 then
      var rest := Repetitions(s, i + 1 + Min(DigitRun(s, i + 1), MaxDigits));
      (rest.0, rest.1 + 1)
    else (i, 0)
  }

  function NumericPrefix(s: string): (m: Option<PrefixMatch>)
    ensures m.Some? ==> 1 <= m.value.length <= |s|
  {
    var r := DigitRun(s, 0);
    if r == 0 then None
    else
      var reps := Repetitions(s, Min(r, MaxDigits));
      Some(PrefixMatch(reps.0, reps.1))
  }

  /** The padding inserted right after the matched prefix: `.0.0` without `match[1]`, `.0` with it. */
  function Padded(s: string, m: PrefixMatch): string
    requires m.length <= |s|
  {
    s[..m.length] + (if m.groups == 0 then ".0.0" else ".0") + s[m.length..]
  }

  /** `coerceVersionNumber`: the normalised version text, or null. */
  function CoerceVersionNumber(version: Option<string>): (r: Option<string>)
    ensures version.None? || version == Some("") ==> r.None?
    ensures version.Some? && version.value != "" && !IsDigit(version.value[0]) ==> r.None?
    ensures version.Some? && MatchesFullPrefix(version.value) ==> r == Valid(version.value)
  {
    match version
    case None => None
    case Some(s) =>
      if s == "" then None
      else if MatchesFullPrefix(s) then Valid(s)
      else match NumericPrefix(s)
        case None => None
        case Some(m) => Valid(Padded(s, m))
  }

  /** The versions `coerceVersionNumber` turns into a version, as `semver` reads the coerced text. */
  function CoercedVersion(version: Option<string>): (r: Option<Version>)
    ensures r.Some? <==> CoerceVersionNumber(version).Some?
  {
    match CoerceVersionNumber(version)
    case None => None
    case Some(t) => CoercedIsValid(version); Parse(t)
  }

  // ------------------------------------------------------------------ lemmas

  /** Whatever coercion returns is a valid version text that `valid` leaves unchanged. */
  lemma {:induction false} CoercedIsValid(version: Option<string>)
    ensures CoerceVersionNumber(version).Some? ==>
      var t := CoerceVersionNumber(version).value;
      Valid(t) == Some(t) && Parse(t).Some?
  {
    var r := CoerceVersionNumber(version);
    if r.Some? {
      var s := version.value;
      if MatchesFullPrefix(s) {
        ValidIdempotent(s, r.value);
      } else {
        ValidIdempotent(Padded(s, NumericPrefix(s).value), r.value);
      }
    }
  }

  /**
   * When the first expression fails, the greedy match of the second repeats its
   * group at most once: two repetitions would make a full prefix. So `match[2]`
   * (absent in any case) could not be set either, and the `else return null`
   * branch cannot be reached.
   */
  lemma {:induction false} FallbackHasAtMostOneGroup(s: string, m: PrefixMatch)
    requires !MatchesFullPrefix(s)
    requires NumericPrefix(s) == Some(m)
    ensures m.groups <= 1
  {
    if m.groups >= 2 {
      TwoRepetitionsMakeFullPrefix(s);
    }
  }

  lemma {:induction false} TwoRepetitionsMakeFullPrefix(s: string)
    requires NumericPrefix(s).Some? && NumericPrefix(s).value.groups >= 2
    ensures MatchesFullPrefix(s)
  {
    var n0 := Min(DigitRun(s, 0), MaxDigits);
    assert Repetitions(s, n0).1 >= 2;
    var n1 := RepetitionsTwice(s, n0);
    RunCapped(s, 0, n0);
    FullPrefixAt(s, n0, n1);
  }

  /** Two repetitions from position `i`: a `.`, a run of `n` digits, another `.` and a digit. */
  lemma {:induction false} RepetitionsTwice(s: string, i: nat) returns (n: nat)
    requires i <= |s| && Repetitions(s, i).1 >= 2
    ensures i < |s| && s[i] == '.' && 1 <= n <= MaxDigits && DigitRun(s, i + 1) == n
    ensures i + n + 2 < |s| && s[i + 1 + n] == '.' && IsDigit(s[i + n + 2])
  {
    RepetitionStep(s, i);
    n := Min(DigitRun(s, i + 1), MaxDigits);
    RepetitionStep(s, i + 1 + n);
    RunCapped(s, i + 1, n);
  }

  /** A run capped at 30 digits that is followed by a `.` was not capped. */
  lemma {:induction false} RunCapped(s: string, i: nat, n: nat)
    requires i <= |s| && n == Min(DigitRun(s, i), MaxDigits)
    requires i + n < |s| && s[i + n] == '.'
    ensures DigitRun(s, i) == n
  {
  }

  /** One repetition of `(\.\d{1,30})` at position `i`, and the ones after it. */
  lemma {:induction false} RepetitionStep(s: string, i: nat)
    requires i <= |s| && Repetitions(s, i).1 >= 1
    ensures i < |s| && s[i] == '.' && DigitRun(s, i + 1) >= 1
    ensures Repetitions(s, i + 1 + Min(DigitRun(s, i + 1), MaxDigits)).1 == Repetitions(s, i).1 - 1
  {
  }

  lemma {:induction false} DigitRunOfDigits(d: string, rest: string, i: nat)
    requires AllDigits(d) && i <= |d|
    requires rest == [] || !IsDigit(rest[0])
    ensures DigitRun(d + rest, i) == |d| - i
    decreases |d| - i
  {
    if i < |d| { DigitRunOfDigits(d, rest, i + 1); }
  }

  /** A text that continues neither with a digit nor with `.digit`: where the numeric prefix ends. */
  predicate EndsNumeral(rest: string)
  {
    (rest == [] || !IsDigit(rest[0])) && !(|rest| >= 2 && rest[0] == '.' && IsDigit(rest[1]))
  }

  /** How the two expressions read a bare number followed by `rest`. */
  lemma {:induction false} MatchOfMajor(d: string, rest: string)
    requires 1 <= |d| <= MaxDigits && AllDigits(d)
    requires EndsNumeral(rest)
    ensures !MatchesFullPrefix(d + rest)
    ensures NumericPrefix(d + rest) == Some(PrefixMatch(|d|, 0))
  {
    DigitRunOfDigits(d, rest, 0);
  }

  /** A bare number is padded with `.0.0`, inserted right after it; the rest of the text is kept. */
  lemma {:induction false} CoercePadsMajor(d: string, rest: string)
    requires 1 <= |d| <= MaxDigits && AllDigits(d)
    requires EndsNumeral(rest)
    ensures CoerceVersionNumber(Some(d + rest)) == Valid(d + ".0.0" + rest)
  {
    var s := d + rest;
    MatchOfMajor(d, rest);
    assert s[..|d|] == d && s[|d|..] == rest;
    assert Padded(s, PrefixMatch(|d|, 0)) == d + ".0.0" + rest;
  }

  /** The greedy repetitions stop at once at a text that ends the numeric prefix. */
  lemma {:induction false} NoRepetitionAt(s: string, e: nat)
    requires e <= |s| && EndsNumeral(s[e..])
    ensures Repetitions(s, e) == (e, 0)
  {
    if e + 1 < |s| && s[e] == '.' {
      assert s[e..][1] == s[e + 1];
    }
  }

  lemma {:induction false} MatchOfMinorAt(s: string, i: nat, e: nat)
    requires 1 <= i <= MaxDigits && i < e <= |s| && DigitRun(s, 0) == i && s[i] == '.'
    requires 1 <= e - i - 1 <= MaxDigits && DigitRun(s, i + 1) == e - i - 1
    requires EndsNumeral(s[e..])
    ensures !MatchesFullPrefix(s)
    ensures NumericPrefix(s) == Some(PrefixMatch(e, 1))
  {
    NoRepetitionAt(s, e);
    if e + 1 < |s| && s[e] == '.' {
      assert s[e..][1] == s[e + 1];
    }
  }

  /** Where the pieces of `d1.d2rest` sit. */
  lemma {:induction false} MinorPieces(d1: string, d2: string, rest: string)
    ensures var s := d1 + "." + d2 + rest;
      && s == d1 + ("." + (d2 + rest))
      && |d1| + 1 + |d2| <= |s|
      && s[|d1|] == '.' && s[|d1| + 1..] == d2 + rest && s[|d1| + 1 + |d2|..] == rest
  {
  }

  /** How the two expressions read `major.minor` followed by `rest`. */
  lemma {:induction false} MatchOfMinor(d1: string, d2: string, rest: string)
    requires 1 <= |d1| <= MaxDigits && AllDigits(d1)
    requires 1 <= |d2| <= MaxDigits && AllDigits(d2)
    requires EndsNumeral(rest)
    ensures !MatchesFullPrefix(d1 + "." + d2 + rest)
    ensures NumericPrefix(d1 + "." + d2 + rest) == Some(PrefixMatch(|d1| + 1 + |d2|, 1))
  {
    var s := d1 + "." + d2 + rest;
    MinorPieces(d1, d2, rest);
    DigitRunOfDigits(d1, "." + (d2 + rest), 0);
    DigitRunOfDigits(d2, rest, 0);
    DigitRunShift(s, |d1| + 1, d2 + rest);
    MatchOfMinorAt(s, |d1|, |d1| + 1 + |d2|);
  }

  /** A `major.minor` text is padded with `.0`, inserted right after it; the rest of the text is kept. */
  lemma {:induction false} CoercePadsMinor(d1: string, d2: string, rest: string)
    requires 1 <= |d1| <= MaxDigits && AllDigits(d1)
    requires 1 <= |d2| <= MaxDigits && AllDigits(d2)
    requires EndsNumeral(rest)
    ensures CoerceVersionNumber(Some(d1 + "." + d2 + rest)) == Valid(d1 + "." + d2 + ".0" + rest)
  {
    var s := d1 + "." + d2 + rest;
    var e := |d1| + 1 + |d2|;
    MatchOfMinor(d1, d2, rest);
    assert s[..e] == d1 + "." + d2 && s[e..] == rest;
    assert Padded(s, PrefixMatch(e, 1)) == d1 + "." + d2 + ".0" + rest;
  }

  lemma {:induction false} DigitRunShift(s: string, k: nat, t: string)
    requires k <= |s| && s[k..] == t
    ensures DigitRun(s, k) == DigitRun(t, 0)
    decreases |s| - k
  {
    if k < |s| && IsDigit(s[k]) {
      assert t[0] == s[k];
      DigitRunShift(s, k + 1, s[k + 1..]);
      DigitRunShift(t, 1, t[1..]);
      assert t[1..] == s[k + 1..];
    }
  }

  /** A text that already starts with three numeric components goes to `valid` unchanged. */
  lemma {:induction false} CoerceKeepsFullPrefix(d1: string, d2: string, d3: string, rest: string)
    requires 1 <= |d1| <= MaxDigits && AllDigits(d1)
    requires 1 <= |d2| <= MaxDigits && AllDigits(d2)
    requires 1 <= |d3| && AllDigits(d3)
    ensures CoerceVersionNumber(Some(d1 + "." + d2 + "." + d3 + rest)) == Valid(d1 + "." + d2 + "." + d3 + rest)
  {
    FullPrefixMatches(d1, d2, d3, rest);
  }

  lemma {:induction false} FullPrefixMatches(d1: string, d2: string, d3: string, rest: string)
    requires 1 <= |d1| <= MaxDigits && AllDigits(d1)
    requires 1 <= |d2| <= MaxDigits && AllDigits(d2)
    requires 1 <= |d3| && AllDigits(d3)
    ensures MatchesFullPrefix(d1 + "." + d2 + "." + d3 + rest)
  {
    var s := d1 + "." + d2 + "." + d3 + rest;
    var x := "." + d3 + rest;
    FullPrefixPieces(d1, d2, d3, rest);
    DigitRunOfDigits(d1, "." + (d2 + x), 0);
    DigitRunOfDigits(d2, x, 0);
    DigitRunShift(s, |d1| + 1, d2 + x);
    FullPrefixAt(s, |d1|, |d2|);
  }

  /** Where the pieces of `d1.d2.d3rest` sit. */
  lemma {:induction false} FullPrefixPieces(d1: string, d2: string, d3: string, rest: string)
    requires |d3| >= 1
    ensures var s := d1 + "." + d2 + "." + d3 + rest;
      var x := "." + d3 + rest;
      && s == d1 + ("." + (d2 + x))
      && s[|d1| + 1..] == d2 + x
      && |d1| + |d2| + 2 < |s|
      && s[|d1|] == '.' && s[|d1| + 1 + |d2|] == '.' && s[|d1| + |d2| + 2] == d3[0]
  {
  }

  /** The first expression's conditions, read off the digit runs. */
  lemma {:induction false} FullPrefixAt(s: string, a: nat, b: nat)
    requires 1 <= a <= MaxDigits && a < |s| && DigitRun(s, 0) == a && s[a] == '.'
    requires 1 <= b <= MaxDigits && a + 1 + b < |s| && DigitRun(s, a + 1) == b && s[a + 1 + b] == '.'
    requires a + b + 2 < |s| && IsDigit(s[a + b + 2])
    ensures MatchesFullPrefix(s)
  {
  }

  /** A release version prints to a text that `valid` returns unchanged. */
  lemma {:induction false} ValidOfRelease(v: Version, t: string)
    requires v.pre == [] && Format(v) == t && |t| <= MaxLength
    requires v.major <= MaxSafeInteger && v.minor <= MaxSafeInteger && v.patch <= MaxSafeInteger
    ensures Valid(t) == Some(t)
  {
    assert Representable(v);
    ParseFormat(v);
  }

  /** A canonical bare number of at most 30 digits coerces to `N.0.0`. */
  lemma {:induction false} CoerceBareNumber(d: string)
    requires CanonicalNumeral(d) && |d| <= MaxDigits && DecimalValue(d) <= MaxSafeInteger
    ensures CoerceVersionNumber(Some(d)) == Some(d + ".0.0")
  {
    var t := d + ".0.0";
    CoercePadsMajor(d, "");
    assert d + "" == d && t + "" == t;
    var v := Version(DecimalValue(d), 0, 0, []);
    FormatOfBareNumber(d);
    ValidOfRelease(v, t);
  }

  /** A `major.minor` text of canonical numbers of at most 30 digits coerces to `major.minor.0` (so `11.2` gives `11.2.0`). */
  lemma {:induction false} CoerceMinorNumber(d1: string, d2: string)
    requires CanonicalNumeral(d1) && |d1| <= MaxDigits && DecimalValue(d1) <= MaxSafeInteger
    requires CanonicalNumeral(d2) && |d2| <= MaxDigits && DecimalValue(d2) <= MaxSafeInteger
    ensures CoerceVersionNumber(Some(d1 + "." + d2)) == Some(d1 + "." + d2 + ".0")
  {
    var t := d1 + "." + d2 + ".0";
    CoercePadsMinor(d1, d2, "");
    assert d1 + "." + d2 + "" == d1 + "." + d2 && t + "" == t;
    var v := Version(DecimalValue(d1), DecimalValue(d2), 0, []);
    FormatOfMinorNumber(d1, d2);
    ValidOfRelease(v, t);
  }

  lemma {:induction false} FormatOfMinorNumber(d1: string, d2: string)
    requires CanonicalNumeral(d1) && CanonicalNumeral(d2)
    ensures Format(Version(DecimalValue(d1), DecimalValue(d2), 0, [])) == d1 + "." + d2 + ".0"
  {
    NatToStringOfDecimal(d1);
    NatToStringOfDecimal(d2);
    assert NatToString(0) == "0";
  }

  lemma {:induction false} FormatOfBareNumber(d: string)
    requires CanonicalNumeral(d)
    ensures Format(Version(DecimalValue(d), 0, 0, [])) == d + ".0.0"
  {
    NatToStringOfDecimal(d);
    assert NatToString(0) == "0";
  }

  lemma {:induction false} DigitsExclude(d: string, x: char)
    requires AllDigits(d) && !IsDigit(x)
    ensures x !in d
  {
  }

  /** Four numeric components pass the padding step untouched and are then rejected by `valid`. */
  lemma {:induction false} CoerceRejectsFourComponents(d1: string, d2: string, d3: string, d4: string)
    requires 1 <= |d1| <= MaxDigits && AllDigits(d1)
    requires 1 <= |d2| <= MaxDigits && AllDigits(d2)
    requires 1 <= |d3| && AllDigits(d3) && AllDigits(d4)
    ensures CoerceVersionNumber(Some(d1 + "." + d2 + "." + d3 + "." + d4)) == None
  {
    var s := d1 + "." + d2 + "." + d3 + "." + d4;
    FullPrefixMatches(d1, d2, d3, "." + d4);
    assert d1 + "." + d2 + "." + d3 + ("." + d4) == s;
    FourComponentsShape(d1, d2, d3, d4);
    ParseNeedsThreeComponents(s);
  }

  /** Four dot-separated runs of digits: no `v`, no `+`, no `-`, four pieces. */
  lemma {:induction false} FourComponentsShape(d1: string, d2: string, d3: string, d4: string)
    requires 1 <= |d1| && AllDigits(d1) && AllDigits(d2) && AllDigits(d3) && AllDigits(d4)
    ensures var s := d1 + "." + d2 + "." + d3 + "." + d4;
      StripV(s) == s && SplitFirst(s, '+') == (s, None) && SplitFirst(s, '-') == (s, None) && |Split(s, '.')| == 4
  {
    var s := d1 + "." + d2 + "." + d3 + "." + d4;
    var parts := [d1, d2, d3, d4];
    forall i | 0 <= i < 4
      ensures '.' !in parts[i] && '+' !in parts[i] && '-' !in parts[i]
    {
      DigitsExclude(parts[i], '.');
      DigitsExclude(parts[i], '+');
      DigitsExclude(parts[i], '-');
    }
    assert Join(parts, ".") == s by {
      assert parts[1..][1..][1..] == [d4];
      assert parts[1..][1..] == [d3, d4];
      assert parts[1..] == [d2, d3, d4];
      assert Join([d3, d4], ".") == d3 + "." + d4;
      assert Join([d2, d3, d4], ".") == d2 + "." + (d3 + "." + d4);
      assert Join(parts, ".") == d1 + "." + (d2 + "." + (d3 + "." + d4));
    }
    JoinExcludes(parts, ".", '+');
    JoinExcludes(parts, ".", '-');
    assert s[0] == d1[0];
    SplitFirstAbsent(s, '+');
    SplitFirstAbsent(s, '-');
    SplitJoin(parts, '.');
  }

  /** `parse` rejects a text without `v`, build or pre-release whose main part does not split into three. */
  lemma {:induction false} ParseNeedsThreeComponents(s: string)
    requires StripV(s) == s && SplitFirst(s, '+') == (s, None) && SplitFirst(s, '-') == (s, None)
    requires |Split(s, '.')| != 3
    ensures Parse(s) == None && Valid(s) == None
  {
  }
}
