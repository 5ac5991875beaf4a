/**
 * The semantic-version capability the update command relies on: `semver.valid`,
 * `semver.prerelease` and `semver.compare`. Versions follow Semantic Versioning
 * 2.0.0: the grammar of sections 2, 9 and 10 and the precedence of section 11,
 * plus node-semver's strict-mode extras (an optional leading `v`, a 256-character
 * limit, main components no larger than 2^53 - 1).
 */
module SemVer {
  import opened Wrappers
  import opened Strings

  const MaxLength: nat := 256
  const MaxSafeInteger: nat := 9007199254740991

  /** A pre-release identifier (section 9): numeric or alphanumeric. */
  datatype Identifier = Num(n: nat) | Alpha(s: string)

  /** A parsed version; build metadata is not kept, as `semver.valid` drops it. */
  datatype Version = Version(major: nat, minor: nat, patch: nat, pre: seq<Identifier>)

  predicate IsIdentChar(c: char) { IsDigit(c) || 'a' <= c <= 'z' || 'A' <= c <= 'Z' || c == '-' }

  /** A non-empty run of `[0-9A-Za-z-]`: a build identifier (section 10). */
  predicate IsBuildIdentifier(t: string) { |t| >= 1 && forall i :: 0 <= i < |t| ==> IsIdentChar(t[i]) }

  predicate AllBuildIdentifiers(ts: seq<string>) { forall i :: 0 <= i < |ts| ==> IsBuildIdentifier(ts[i]) }

  /** An identifier the grammar can produce: alphanumeric ones hold at least one non-digit. */
  predicate WellFormedIdentifier(id: Identifier)
  {
    match id
    case Num(_) => true
    case Alpha(s) => IsBuildIdentifier(s) && !AllDigits(s)
  }

  /** A version whose text `valid` accepts, so that it survives printing and parsing. */
  predicate Representable(v: Version)
  {
    && v.major <= MaxSafeInteger && v.minor <= MaxSafeInteger && v.patch <= MaxSafeInteger
    && (forall i :: 0 <= i < |v.pre| ==> WellFormedIdentifier(v.pre[i]))
    && |Format(v)| <= MaxLength
  }

  predicate IsPrerelease(v: Version) { v.pre != [] }

  // ---------------------------------------------------------------- printing

  function IdString(id: Identifier): string
  {
    match id
    case Num(n) => NatToString(n)
    case Alpha(s) => s
  }

  function IdStrings(ids: seq<Identifier>): (ts: seq<string>)
    ensures |ts| == |ids|
    ensures forall i :: 0 <= i < |ids| ==> ts[i] == IdString(ids[i])
    decreases |ids|
  {
    if ids == [] then [] else [IdString(ids[0])] + IdStrings(ids[1..])
  }

  function MainText(v: Version): string
  {
    NatToString(v.major) + "." + NatToString(v.minor) + "." + NatToString(v.patch)
  }

  /** The normalised text `major.minor.patch[-pre]`, as node-semver's `version` property. */
  function Format(v: Version): string
  {
    if v.pre == [] then MainText(v) else MainText(v) + "-" + Join(IdStrings(v.pre), ".")
  }

  // ----------------------------------------------------------------- parsing

  function ParseNumber(t: string): Option<nat>
  {
    if CanonicalNumeral(t) && DecimalValue(t) <= MaxSafeInteger then Some(DecimalValue(t)) else None
  }

  function ParseIdentifier(t: string): Option<Identifier>
  {
    if CanonicalNumeral(t) then Some(Num(DecimalValue(t)))
    else if AllDigits(t) || !IsBuildIdentifier(t) then None
    else Some(Alpha(t))
  }

  function ParseIdentifiers(ts: seq<string>): (r: Option<seq<Identifier>>)
    ensures r.Some? ==> |r.value| == |ts|
    decreases |ts|
  {
    if ts == [] then Some([])
    else match (ParseIdentifier(ts[0]), ParseIdentifiers(ts[1..]))
      case (Some(id), Some(rest)) => Some([id] + rest)
      case _ => None
  }

  function ParsePrerelease(pre: Option<string>): Option<seq<Identifier>>
  {
    match pre
    case None => Some([])
    case Some(p) => ParseIdentifiers(Split(p, '.'))
  }

  predicate BuildAccepted(build: Option<string>)
  {
    build.None? || AllBuildIdentifiers(Split(build.value, '.'))
  }

  function StripV(s: string): string { if |s| > 0 && s[0] == 'v' then s[1..] else s }

  /** The part of a version text that `valid` keeps: no leading `v`, no build metadata. */
  function CoreText(s: string): string { SplitFirst(StripV(s), '+').0 }

  /** node-semver's strict `parse`: `^v?MAIN(-PRE)?(+BUILD)?$` with the length and size limits. */
  function Parse(s: string): Option<Version>
  {
    if |s| > MaxLength then None
    else
      var (core, build) := SplitFirst(StripV(s), '+');
      var (main, pre) := SplitFirst(core, '-');
      var nums := Split(main, '.');
      if |nums| != 3 || !BuildAccepted(build) then None
      else match (ParseNumber(nums[0]), ParseNumber(nums[1]), ParseNumber(nums[2]), ParsePrerelease(pre))
        case (Some(ma), Some(mi), Some(pa), Some(ids)) => Some(Version(ma, mi, pa, ids))
        case _ => None
  }

  /** `semver.valid`: the normalised text of a valid version, or null. */
  function Valid(s: string): Option<string>
  {
    match Parse(s)
    case None => None
    case Some(v) => Some(Format(v))
  }

  // ------------------------------------------------------------- round trips

  lemma FormatStartsWithDigit(v: Version)
    ensures |Format(v)| >= 1 && IsDigit(Format(v)[0])
  {
    assert Format(v)[0] == NatToString(v.major)[0];
  }

  lemma NumeralExcludes(n: nat, x: char)
    requires !IsDigit(x)
    ensures x !in NatToString(n)
  {
    var s := NatToString(n);
    assert forall i :: 0 <= i < |s| ==> IsDigit(s[i]);
  }

  lemma {:induction false} IdStringsExclude(ids: seq<Identifier>, x: char)
    requires !IsIdentChar(x)
    requires forall i :: 0 <= i < |ids| ==> WellFormedIdentifier(ids[i])
    ensures forall i :: 0 <= i < |ids| ==> x !in IdStrings(ids)[i]
  {
    forall i | 0 <= i < |ids| ensures x !in IdStrings(ids)[i] {
      match ids[i]
      case Num(n) => NumeralExcludes(n, x);
      case Alpha(s) =>
        assert forall k :: 0 <= k < |s| ==> IsIdentChar(s[k]);
    }
  }

  lemma MainTextParts(v: Version)
    ensures MainText(v) == Join([NatToString(v.major), NatToString(v.minor), NatToString(v.patch)], ".")
    ensures forall x :: !IsDigit(x) && x != '.' ==> x !in MainText(v)
  {
    var ns := [NatToString(v.major), NatToString(v.minor), NatToString(v.patch)];
    assert Join(ns[2..], ".") == ns[2];
    assert Join(ns[1..], ".") == ns[1] + "." + ns[2];
    forall x | !IsDigit(x) && x != '.' ensures x !in MainText(v) {
      NumeralExcludes(v.major, x);
      NumeralExcludes(v.minor, x);
      NumeralExcludes(v.patch, x);
    }
  }

  lemma ParseIdString(id: Identifier)
    requires WellFormedIdentifier(id)
    ensures ParseIdentifier(IdString(id)) == Some(id)
  {
    match id
    case Num(n) => DecimalOfNatToString(n);
    case Alpha(_) =>
  }

  lemma {:induction false} ParseIdStrings(ids: seq<Identifier>)
    requires forall i :: 0 <= i < |ids| ==> WellFormedIdentifier(ids[i])
    ensures ParseIdentifiers(IdStrings(ids)) == Some(ids)
    decreases |ids|
  {
    if ids != [] {
      ParseIdStrings(ids[1..]);
      ParseIdString(ids[0]);
      assert IdStrings(ids)[1..] == IdStrings(ids[1..]);
      assert [ids[0]] + ids[1..] == ids;
    }
  }

  /** Printing a representable version and parsing the text gives the version back. */
  lemma ParseFormat(v: Version)
    requires Representable(v)
    ensures Parse(Format(v)) == Some(v)
  {
    var f := Format(v);
    FormatStartsWithDigit(v);
    assert StripV(f) == f;
    var pre := FormatSplits(v);
    MainTextSplits(v);
    ParseFromParts(f, pre, v);
  }

  /** What `parse` does with a text that has no `v`, no build, and the given main and pre-release parts. */
  lemma {:induction false} ParseFromParts(s: string, pre: Option<string>, v: Version)
    requires |s| <= MaxLength && StripV(s) == s && SplitFirst(s, '+') == (s, None)
    requires SplitFirst(s, '-') == (MainText(v), pre)
    requires Split(MainText(v), '.') == [NatToString(v.major), NatToString(v.minor), NatToString(v.patch)]
    requires v.major <= MaxSafeInteger && v.minor <= MaxSafeInteger && v.patch <= MaxSafeInteger
    requires ParsePrerelease(pre) == Some(v.pre)
    ensures Parse(s) == Some(v)
  {
    DecimalOfNatToString(v.major);
    DecimalOfNatToString(v.minor);
    DecimalOfNatToString(v.patch);
  }

  /** The main text splits at its dots into the three numerals. */
  lemma {:induction false} MainTextSplits(v: Version)
    ensures Split(MainText(v), '.') == [NatToString(v.major), NatToString(v.minor), NatToString(v.patch)]
  {
    var ns := [NatToString(v.major), NatToString(v.minor), NatToString(v.patch)];
    MainTextParts(v);
    assert forall i :: 0 <= i < 3 ==> '.' !in ns[i] by {
      NumeralExcludes(v.major, '.');
      NumeralExcludes(v.minor, '.');
      NumeralExcludes(v.patch, '.');
    }
    SplitJoin(ns, '.');
  }

  /** A printed version has no `+`, and its first `-` separates the main text from the pre-release text. */
  lemma {:induction false} FormatSplits(v: Version) returns (pre: Option<string>)
    requires Representable(v)
    ensures SplitFirst(Format(v), '+') == (Format(v), None)
    ensures SplitFirst(Format(v), '-') == (MainText(v), pre)
    ensures ParsePrerelease(pre) == Some(v.pre)
  {
    var f := Format(v);
    var main := MainText(v);
    MainTextParts(v);
    if v.pre == [] {
      pre := None;
      SplitFirstAbsent(f, '+');
      SplitFirstAbsent(main, '-');
    } else {
      var j := Join(IdStrings(v.pre), ".");
      pre := Some(j);
      IdStringsExclude(v.pre, '+');
      IdStringsExclude(v.pre, '.');
      JoinExcludes(IdStrings(v.pre), ".", '+');
      assert f == main + "-" + j;
      SplitFirstAbsent(f, '+');
      SplitFirstAt(main, j, '-');
      SplitJoin(IdStrings(v.pre), '.');
      ParseIdStrings(v.pre);
    }
  }

  lemma ParsedIdentifier(t: string, id: Identifier)
    requires ParseIdentifier(t) == Some(id)
    ensures WellFormedIdentifier(id) && IdString(id) == t
  {
    if CanonicalNumeral(t) {
      NatToStringOfDecimal(t);
    }
  }

  lemma {:induction false} ParsedIdentifiers(ts: seq<string>, ids: seq<Identifier>)
    requires ParseIdentifiers(ts) == Some(ids)
    ensures forall i :: 0 <= i < |ids| ==> WellFormedIdentifier(ids[i])
    ensures IdStrings(ids) == ts
    decreases |ts|
  {
    if ts != [] {
      var id := ParseIdentifier(ts[0]).value;
      var rest := ParseIdentifiers(ts[1..]).value;
      ParsedIdentifier(ts[0], id);
      ParsedIdentifiers(ts[1..], rest);
      assert ids == [id] + rest;
      assert ts == [ts[0]] + ts[1..];
    }
  }

  lemma MainTextOfNumerals(nums: seq<string>, v: Version)
    requires |nums| == 3
    requires CanonicalNumeral(nums[0]) && CanonicalNumeral(nums[1]) && CanonicalNumeral(nums[2])
    requires v.major == DecimalValue(nums[0]) && v.minor == DecimalValue(nums[1]) && v.patch == DecimalValue(nums[2])
    ensures Join(nums, ".") == MainText(v)
  {
    NatToStringOfDecimal(nums[0]);
    NatToStringOfDecimal(nums[1]);
    NatToStringOfDecimal(nums[2]);
    assert Join(nums[2..], ".") == nums[2];
    assert Join(nums[1..], ".") == nums[1] + "." + nums[2];
  }

  lemma PrereleaseText(pre: Option<string>, ids: seq<Identifier>)
    requires ParsePrerelease(pre) == Some(ids)
    ensures forall i :: 0 <= i < |ids| ==> WellFormedIdentifier(ids[i])
    ensures pre.None? ==> ids == []
    ensures pre.Some? ==> ids != [] && Join(IdStrings(ids), ".") == pre.value
  {
    if pre.Some? {
      ParsedIdentifiers(Split(pre.value, '.'), ids);
    }
  }

  /** A parsed version prints as the accepted text minus its `v` and build metadata. */
  lemma FormatParse(s: string, v: Version)
    requires Parse(s) == Some(v)
    ensures Format(v) == CoreText(s)
    ensures |Format(v)| <= |s|
    ensures Representable(v)
  {
    var (core, build) := SplitFirst(StripV(s), '+');
    var (main, pre) := SplitFirst(core, '-');
    var nums := Split(main, '.');
    assert ParseNumber(nums[0]) == Some(v.major);
    assert ParseNumber(nums[1]) == Some(v.minor);
    assert ParseNumber(nums[2]) == Some(v.patch);
    assert ParsePrerelease(pre) == Some(v.pre);
    MainTextOfNumerals(nums, v);
    PrereleaseText(pre, v.pre);
    assert |core| <= |StripV(s)| <= |s|;
  }

  /** `valid` is idempotent: its output is itself valid and denotes the same version. */
  lemma ValidIdempotent(s: string, r: string)
    requires Valid(s) == Some(r)
    ensures Valid(r) == Some(r)
    ensures Parse(r) == Parse(s)
  {
    var v := Parse(s).value;
    FormatParse(s, v);
    ParseFormat(v);
  }

  // -------------------------------------------------------------- precedence

  function CmpNat(a: nat, b: nat): int { if a < b then -1 else if a > b then 1 else 0 }

  /** Section 11.4.1-11.4.3: numeric identifiers numerically, below alphanumeric ones, which compare lexically. */
  function CmpIdentifier(a: Identifier, b: Identifier): int
  {
    match (a, b)
    case (Num(x), Num(y)) => CmpNat(x, y)
    case (Num(_), Alpha(_)) => -1
    case (Alpha(_), Num(_)) => 1
    case (Alpha(x), Alpha(y)) => if StrLess(x, y) then -1 else if x == y then 0 else 1
  }

  /** Section 11.4: field by field, a proper prefix ranks lower (11.4.4). */
  function CmpIdentifiers(a: seq<Identifier>, b: seq<Identifier>): int
    decreases |a|
  {
    if a == [] && b == [] then 0
    else if a == [] then -1
    else if b == [] then 1
    else
      var c := CmpIdentifier(a[0], b[0]);
      if c != 0 then c else CmpIdentifiers(a[1..], b[1..])
  }

  /** Section 11.3: a pre-release ranks below the release with the same main version. */
  function CmpPrerelease(a: seq<Identifier>, b: seq<Identifier>): int
  {
    if a == [] && b == [] then 0
    else if a == [] then 1
    else if b == [] then -1
    else CmpIdentifiers(a, b)
  }

  /** `semver.compare`: -1, 0 or 1 by the precedence of section 11. */
  function Compare(a: Version, b: Version): int
  {
    if a.major != b.major then CmpNat(a.major, b.major)
    else if a.minor != b.minor then CmpNat(a.minor, b.minor)
    else if a.patch != b.patch then CmpNat(a.patch, b.patch)
    else CmpPrerelease(a.pre, b.pre)
  }

  predicate Less(a: Version, b: Version) { Compare(a, b) < 0 }

  predicate LessEq(a: Version, b: Version) { Compare(a, b) <= 0 }

  lemma CmpIdentifierProperties(a: Identifier, b: Identifier)
    ensures CmpIdentifier(a, b) == -CmpIdentifier(b, a)
    ensures CmpIdentifier(a, b) == 0 <==> a == b
    ensures -1 <= CmpIdentifier(a, b) <= 1
  {
    if a.Alpha? && b.Alpha? {
      if StrLess(a.s, b.s) {
        StrLessAsymmetric(a.s, b.s);
        StrLessIrreflexive(a.s);
      } else if a.s != b.s {
        StrLessTotal(a.s, b.s);
      }
    }
  }

  lemma CmpIdentifierTransitive(a: Identifier, b: Identifier, c: Identifier)
    requires CmpIdentifier(a, b) < 0 && CmpIdentifier(b, c) < 0
    ensures CmpIdentifier(a, c) < 0
  {
    if a.Alpha? && b.Alpha? && c.Alpha? {
      CmpIdentifierProperties(a, b);
      CmpIdentifierProperties(b, c);
      StrLessTransitive(a.s, b.s, c.s);
    }
  }

  lemma {:induction false} CmpIdentifiersProperties(a: seq<Identifier>, b: seq<Identifier>)
    ensures CmpIdentifiers(a, b) == -CmpIdentifiers(b, a)
    ensures CmpIdentifiers(a, b) == 0 <==> a == b
    ensures -1 <= CmpIdentifiers(a, b) <= 1
    decreases |a|
  {
    if a != [] && b != [] {
      CmpIdentifierProperties(a[0], b[0]);
      CmpIdentifiersProperties(a[1..], b[1..]);
      if a[0] == b[0] && a[1..] == b[1..] {
        assert a == [a[0]] + a[1..] && b == [b[0]] + b[1..];
      }
    }
  }

  lemma {:induction false} CmpIdentifiersTransitive(a: seq<Identifier>, b: seq<Identifier>, c: seq<Identifier>)
    requires CmpIdentifiers(a, b) < 0 && CmpIdentifiers(b, c) < 0
    ensures CmpIdentifiers(a, c) < 0
    decreases |a|
  {
    if a != [] && b != [] && c != [] {
      CmpIdentifierProperties(a[0], b[0]);
      CmpIdentifierProperties(b[0], c[0]);
      CmpIdentifierProperties(a[0], c[0]);
      if CmpIdentifier(a[0], b[0]) < 0 && CmpIdentifier(b[0], c[0]) < 0 {
        CmpIdentifierTransitive(a[0], b[0], c[0]);
      } else if CmpIdentifier(a[0], b[0]) == 0 && CmpIdentifier(b[0], c[0]) == 0 {
        CmpIdentifiersTransitive(a[1..], b[1..], c[1..]);
      }
    }
  }

  /** Precedence is antisymmetric, and ties only between equal versions. */
  lemma CompareProperties(a: Version, b: Version)
    ensures Compare(a, b) == -Compare(b, a)
    ensures Compare(a, b) == 0 <==> a == b
    ensures -1 <= Compare(a, b) <= 1
  {
    CmpIdentifiersProperties(a.pre, b.pre);
  }

  /** Precedence is transitive. */
  lemma CompareTransitive(a: Version, b: Version, c: Version)
    requires Less(a, b) && Less(b, c)
    ensures Less(a, c)
  {
    CompareProperties(a, b);
    CompareProperties(b, c);
    CompareProperties(a, c);
    if a.major == b.major == c.major && a.minor == b.minor == c.minor && a.patch == b.patch == c.patch {
      if a.pre != [] && b.pre != [] && c.pre != [] {
        CmpIdentifiersTransitive(a.pre, b.pre, c.pre);
      }
    }
  }
}
