/**
 * The part of golang.org/x/mod/semver that the analyzer relies on:
 * `Compare`, which orders version strings by the precedence of section 11
 * of Semantic Versioning 2.0.0. A valid version is "v" followed by
 * MAJOR[.MINOR[.PATCH]] (the shorthands "v1" and "v1.2" stand for v1.0.0 and
 * v1.2.0), each number written without leading zeros. Every invalid string
 * compares below every valid one, and invalid strings compare equal.
 */
module Semver {
  import opened Wrappers

  datatype Version = Version(major: nat, minor: nat, patch: nat)

  predicate IsDigit(c: char) { '0' <= c <= '9' }

  predicate AllDigits(d: string) {
    forall i | 0 <= i < |d| :: IsDigit(d[i])
  }

  function DigitValue(c: char): nat
    requires IsDigit(c)
  {
    c as int - '0' as int
  }

  function DigitChar(n: nat): (c: char)
    requires n < 10
    ensures IsDigit(c) && DigitValue(c) == n
  {
    ('0' as int + n) as char
  }

  /** The value of a decimal numeral, most significant digit first. */
  function NumeralValue(d: string): nat
    requires AllDigits(d)
  {
    if d == [] then 0 else NumeralValue(d[..|d| - 1]) * 10 + DigitValue(d[|d| - 1])
  }

  /** A numeral as semver accepts it: non-empty, and "0" is the only one starting with 0. */
  predicate IsNumeral(d: string) {
    |d| > 0 && AllDigits(d) && (d[0] == '0' ==> |d| == 1)
  }

  /** The longest prefix of `s` made of digits. */
  function LeadingDigits(s: string): (d: string)
    ensures d <= s && AllDigits(d)
    ensures |d| == |s| || !IsDigit(s[|d|])
  {
    if s != [] && IsDigit(s[0]) then [s[0]] + LeadingDigits(s[1..]) else []
  }

  /** Reads a number at the start of `s`; returns it with the rest of `s`. */
  function ParseNumber(s: string): Option<(nat, string)> {
    var d := LeadingDigits(s);
    if d == [] || (d[0] == '0' && |d| != 1) then None else Some((NumeralValue(d), s[|d|..]))
  }

  /** semver's parse, for versions without prerelease or build suffixes. */
  function Parse(s: string): Option<Version> {
    if s == [] || s[0] != 'v' then None
    else match ParseNumber(s[1..])
      case None => None
      case Some((major, rest)) => ParseAfterMajor(major, rest)
  }

  /** After "vMAJOR": nothing (shorthand for .0.0) or ".MINOR" and more. */
  function ParseAfterMajor(major: nat, s: string): Option<Version> {
    if s == [] then Some(Version(major, 0, 0))
    else if s[0] != '.' then None
    else match ParseNumber(s[1..])
      case None => None
      case Some((minor, rest)) => ParseAfterMinor(major, minor, rest)
  }

  /** After "vMAJOR.MINOR": nothing (shorthand for .0) or ".PATCH" and the end. */
  function ParseAfterMinor(major: nat, minor: nat, s: string): Option<Version> {
    if s == [] then Some(Version(major, minor, 0))
    else if s[0] != '.' then None
    else match ParseNumber(s[1..])
      case None => None
      case Some((patch, rest)) => if rest == [] then Some(Version(major, minor, patch)) else None
  }

  /** semver.IsValid */
  predicate IsValid(s: string) {
    Parse(s).Some?
  }

  function CompareNat(a: nat, b: nat): int {
    if a < b then -1 else if a > b then 1 else 0
  }

  /** Precedence of two parsed versions: major, then minor, then patch. */
  function CompareVersion(a: Version, b: Version): (c: int)
    ensures c == 0 <==> a == b
    ensures -1 <= c <= 1
  {
    if a.major != b.major then CompareNat(a.major, b.major)
    else if a.minor != b.minor then CompareNat(a.minor, b.minor)
    else CompareNat(a.patch, b.patch)
  }

  /** semver.Compare: -1, 0 or +1 as `v` is below, equal to or above `w`. */
  function Compare(v: string, w: string): int {
    match (Parse(v), Parse(w))
    case (None, None) => 0
    case (None, Some(_)) => -1
    case (Some(_), None) => 1
    case (Some(a), Some(b)) => CompareVersion(a, b)
  }

  /** The decimal numeral of `n`. */
  function Decimal(n: nat): (d: string)
    ensures IsNumeral(d)
  {
    if n < 10 then [DigitChar(n)] else Decimal(n / 10) + [DigitChar(n % 10)]
  }

  /** The canonical spelling vMAJOR.MINOR.PATCH of a version. */
  function Format(v: Version): string {
    "v" + Decimal(v.major) + "." + Decimal(v.minor) + "." + Decimal(v.patch)
  }

  /** The spelling that go.mod requires in retract directives (semver.Canonical(s) == s). */
  predicate IsCanonical(s: string) {
    Parse(s).Some? && s == Format(Parse(s).value)
  }

  lemma {:induction false} DecimalValue(n: nat)
    ensures NumeralValue(Decimal(n)) == n
  {
    if n >= 10 {
      var d := Decimal(n);
      assert d[..|d| - 1] == Decimal(n / 10);
      DecimalValue(n / 10);
    }
  }

  lemma {:induction false} LeadingDigitsOf(d: string, rest: string)
    requires AllDigits(d)
    requires rest == [] || !IsDigit(rest[0])
    ensures LeadingDigits(d + rest) == d
  {
    if d != [] {
      assert (d + rest)[1..] == d[1..] + rest;
      LeadingDigitsOf(d[1..], rest);
    } else {
      assert d + rest == rest;
    }
  }

  lemma ParseNumberOf(n: nat, rest: string)
    requires rest == [] || !IsDigit(rest[0])
    ensures ParseNumber(Decimal(n) + rest) == Some((n, rest))
  {
    var d := Decimal(n);
    LeadingDigitsOf(d, rest);
    DecimalValue(n);
    assert (d + rest)[|d|..] == rest;
  }

  lemma ParseAfterMinorOf(v: Version)
    ensures ParseAfterMinor(v.major, v.minor, "." + Decimal(v.patch)) == Some(v)
  {
    var r := "." + Decimal(v.patch);
    assert r[1..] == Decimal(v.patch) + [];
    ParseNumberOf(v.patch, []);
  }

  lemma ParseAfterMajorOf(v: Version)
    ensures ParseAfterMajor(v.major, "." + Decimal(v.minor) + "." + Decimal(v.patch)) == Some(v)
  {
    var r2 := "." + Decimal(v.patch);
    var r := "." + Decimal(v.minor) + r2;
    assert r[1..] == Decimal(v.minor) + r2;
    assert "." + Decimal(v.minor) + "." + Decimal(v.patch) == r;
    ParseNumberOf(v.minor, r2);
    ParseAfterMinorOf(v);
  }

  /** Every version reads back from its canonical spelling. */
  lemma ParseFormat(v: Version)
    ensures Parse(Format(v)) == Some(v)
    ensures IsCanonical(Format(v))
  {
    var r1 := "." + Decimal(v.minor) + "." + Decimal(v.patch);
    assert Format(v)[1..] == Decimal(v.major) + r1;
    ParseNumberOf(v.major, r1);
    ParseAfterMajorOf(v);
  }

  /** The spellings of v1.9.0 and v1.10.0: the latter sorts first as text. */
  lemma SpellingExample()
    ensures Format(Version(1, 9, 0)) == "v1.9.0"
    ensures Format(Version(1, 10, 0)) == "v1.10.0"
    ensures "v1.10.0"[..3] == "v1.9.0"[..3] && "v1.10.0"[3] < "v1.9.0"[3]
  {
    assert Decimal(10) == Decimal(1) + [DigitChar(0)];
  }

  /** Semver order is numeric: v1.10.0 is above v1.9.0. */
  lemma NumericOrderExample()
    ensures Compare(Format(Version(1, 10, 0)), Format(Version(1, 9, 0))) == 1
  {
    ParseFormat(Version(1, 10, 0));
    ParseFormat(Version(1, 9, 0));
  }

  /** Compare answers 0 exactly when both strings denote the same version (or both are invalid). */
  lemma CompareZero(v: string, w: string)
    ensures Compare(v, w) == 0 <==> Parse(v) == Parse(w)
  {
  }

  lemma CompareVersionAntisymmetric(a: Version, b: Version)
    ensures CompareVersion(a, b) == -CompareVersion(b, a)
  {
  }

  lemma CompareAntisymmetric(v: string, w: string)
    ensures Compare(v, w) == -Compare(w, v)
    ensures -1 <= Compare(v, w) <= 1
  {
    if Parse(v).Some? && Parse(w).Some? {
      CompareVersionAntisymmetric(Parse(v).value, Parse(w).value);
    }
  }

  lemma CompareReflexive(v: string)
    ensures Compare(v, v) == 0
  {
  }

  lemma CompareVersionTransitive(a: Version, b: Version, c: Version)
    requires CompareVersion(a, b) <= 0 && CompareVersion(b, c) <= 0
    ensures CompareVersion(a, c) <= 0
  {
  }

  /** Compare is a total preorder: `<= 0` is transitive. */
  lemma CompareTransitive(u: string, v: string, w: string)
    requires Compare(u, v) <= 0 && Compare(v, w) <= 0
    ensures Compare(u, w) <= 0
  {
    if Parse(u).Some? && Parse(v).Some? && Parse(w).Some? {
      CompareVersionTransitive(Parse(u).value, Parse(v).value, Parse(w).value);
    }
  }

  /** Among canonical spellings, comparing equal is string equality. */
  lemma CanonicalCompareZero(v: string, w: string)
    requires IsCanonical(v) && IsCanonical(w)
    ensures Compare(v, w) == 0 <==> v == w
  {
  }
}
