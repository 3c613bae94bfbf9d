/** Semantic-version strings as the upgrade's version gate reads them:
    `vMAJOR[.MINOR[.PATCH]]`, with a missing MINOR or PATCH read as 0, and
    numeric fields written in decimal without leading zeros. Validity and
    ordering follow `golang.org/x/mod/semver`: a string that does not parse
    is invalid, an invalid string orders below every valid one, and all
    invalid strings compare equal. Pre-release and build suffixes are not
    part of this model. */
module Semver {
  import opened Wrappers
  import opened Text

  /** The numeric fields of `vMAJOR.MINOR.PATCH`. */
  datatype Version = Version(major: nat, minor: nat, patch: nat)

  predicate IsDigit(c: char) {
    '0' <= c <= '9'
  }

  predicate AllDigits(s: string) {
    forall i :: 0 <= i < |s| ==> IsDigit(s[i])
  }

  /** A numeric field: decimal digits, and no leading zero unless it is "0". */
  predicate IsNumeral(s: string) {
    |s| > 0 && AllDigits(s) && (|s| > 1 ==> s[0] != '0')
  }

  function DigitValue(c: char): nat
    requires IsDigit(c)
  {
    c as int - '0' as int
  }

  /** The number a string of decimal digits denotes. */
  function NumeralValue(s: string): nat
    requires AllDigits(s)
  {
    if s == [] then 0 else NumeralValue(s[..|s| - 1]) * 10 + DigitValue(s[|s| - 1])
  }

  function DigitChar(d: nat): (c: char)
    requires d < 10
    ensures IsDigit(c) && DigitValue(c) == d
  {
    ('0' as int + d) as char
  }

  /** The decimal numeral of `n`: it is a valid numeric field. */
  function Decimal(n: nat): (s: string)
    ensures IsNumeral(s)
    ensures n > 0 ==> s[0] != '0'
  {
    if n < 10 then [DigitChar(n)] else Decimal(n / 10) + [DigitChar(n % 10)]
  }

  /** Reading back a decimal numeral gives the number. */
  lemma {:induction false} DecimalValue(n: nat)
    ensures NumeralValue(Decimal(n)) == n
  {
    if n >= 10 {
      DecimalValue(n / 10);
      var s := Decimal(n);
      assert s[..|s| - 1] == Decimal(n / 10);
    }
  }

  /** The number of decimal digits at the start of `s`. */
  function LeadingDigits(s: string): (n: nat)
    ensures n <= |s| && AllDigits(s[..n])
    ensures n < |s| ==> !IsDigit(s[n])
  {
    if s == [] || !IsDigit(s[0]) then 0
    else
      var m := LeadingDigits(s[1..]);
      assert s[..m + 1] == [s[0]] + s[1..][..m];
      m + 1
  }

  /** Go's `parseInt` in the semver parser: a numeric field at the start of
      `s` and the text after it, or None when there is no digit or the field
      has a leading zero. */
  function ParseNumber(s: string): (r: Option<(nat, string)>)
    ensures r.Some? ==> |s| > 0 && IsDigit(s[0])
  {
    var n := LeadingDigits(s);
    if n == 0 || (s[0] == '0' && n != 1) then None
    else Some((NumeralValue(s[..n]), s[n..]))
  }

  /** `semver.IsValid` and `semver`'s parser, restricted to
      `vMAJOR[.MINOR[.PATCH]]`: the parsed version, or None when the string
      is invalid. A missing MINOR or PATCH reads as 0. */
  function Parse(s: string): (r: Option<Version>)
    ensures r.Some? ==> |s| >= 2 && s[0] == 'v' && IsDigit(s[1])
  {
    if |s| == 0 || s[0] != 'v' then None else ParseMajor(s[1..])
  }

  /** The text after `v`: MAJOR, then the rest. */
  function ParseMajor(t: string): (r: Option<Version>)
    ensures r.Some? ==> |t| > 0 && IsDigit(t[0])
  {
    match ParseNumber(t)
    case None => None
    case Some((major, rest)) => ParseMinor(major, rest)
  }

  /** The text after MAJOR: nothing, or `.MINOR` and the rest. */
  function ParseMinor(major: nat, t: string): Option<Version>
  {
    if t == [] then Some(Version(major, 0, 0))
    else if t[0] != '.' then None
    else match ParseNumber(t[1..])
      case None => None
      case Some((minor, rest)) => ParsePatch(major, minor, rest)
  }

  /** The text after MINOR: nothing, or `.PATCH` and nothing more. */
  function ParsePatch(major: nat, minor: nat, t: string): Option<Version>
  {
    if t == [] then Some(Version(major, minor, 0))
    else if t[0] != '.' then None
    else match ParseNumber(t[1..])
      case None => None
      case Some((patch, rest)) => if rest == [] then Some(Version(major, minor, patch)) else None
  }

  predicate IsValid(s: string)
    ensures IsValid(s) ==> |s| >= 2 && s[0] == 'v' && IsDigit(s[1])
  {
    Parse(s).Some?
  }

  /** The canonical `vMAJOR.MINOR.PATCH` spelling of a version. */
  function Format(v: Version): string {
    "v" + Decimal(v.major) + "." + Decimal(v.minor) + "." + Decimal(v.patch)
  }

  /** A numeric field followed by text that does not start with a digit
      reads back as its value and leaves that text. */
  lemma ParseNumeral(d: string, rest: string)
    requires IsNumeral(d)
    requires rest == [] || !IsDigit(rest[0])
    ensures ParseNumber(d + rest) == Some((NumeralValue(d), rest))
  {
    var s := d + rest;
    LeadingDigitsPrefix(d, rest);
    assert s[..|d|] == d;
    assert s[|d|..] == rest;
  }

  lemma {:induction false} LeadingDigitsPrefix(d: string, rest: string)
    requires AllDigits(d)
    requires rest == [] || !IsDigit(rest[0])
    ensures LeadingDigits(d + rest) == |d|
  {
    if d != [] {
      assert (d + rest)[1..] == d[1..] + rest;
      LeadingDigitsPrefix(d[1..], rest);
    }
  }

  lemma ParseMajorNumeral(major: string, rest: string)
    requires IsNumeral(major) && (rest == [] || !IsDigit(rest[0]))
    ensures ParseMajor(major + rest) == ParseMinor(NumeralValue(major), rest)
  {
    ParseNumeral(major, rest);
  }

  lemma ParseMinorNumeral(major: nat, minor: string, rest: string)
    requires IsNumeral(minor) && (rest == [] || !IsDigit(rest[0]))
    ensures ParseMinor(major, "." + minor + rest) == ParsePatch(major, NumeralValue(minor), rest)
  {
    var t := "." + minor + rest;
    assert t[0] == '.' && t[1..] == minor + rest;
    ParseNumeral(minor, rest);
  }

  lemma ParsePatchNumeral(major: nat, minor: nat, patch: string)
    requires IsNumeral(patch)
    ensures ParsePatch(major, minor, "." + patch) == Some(Version(major, minor, NumeralValue(patch)))
  {
    var t := "." + patch;
    assert t[0] == '.' && t[1..] == patch + [];
    ParseNumeral(patch, []);
  }

  /** Where the fields of `vMAJOR.MINOR.PATCH` sit in the string. */
  lemma LongFormPieces(major: string, minor: string, patch: string)
    ensures ("v" + major + "." + minor + "." + patch)[0] == 'v'
    ensures ("v" + major + "." + minor + "." + patch)[1..] == major + ("." + minor + ("." + patch))
  {
  }

  /** The full form `vMAJOR.MINOR.PATCH` reads as its three fields. */
  lemma ParseLongForm(major: string, minor: string, patch: string)
    requires IsNumeral(major) && IsNumeral(minor) && IsNumeral(patch)
    ensures Parse("v" + major + "." + minor + "." + patch) ==
            Some(Version(NumeralValue(major), NumeralValue(minor), NumeralValue(patch)))
  {
    LongFormPieces(major, minor, patch);
    ParseMajorNumeral(major, "." + minor + ("." + patch));
    ParseMinorNumeral(NumeralValue(major), minor, "." + patch);
    ParsePatchNumeral(NumeralValue(major), NumeralValue(minor), patch);
  }

  /** Every version parses back from its canonical spelling. */
  lemma ParseFormat(v: Version)
    ensures Parse(Format(v)) == Some(v)
  {
    ParseLongForm(Decimal(v.major), Decimal(v.minor), Decimal(v.patch));
    DecimalValue(v.major);
    DecimalValue(v.minor);
    DecimalValue(v.patch);
  }

  /** The short form `vMAJOR.MINOR` is valid and reads PATCH as 0. */
  lemma ParseShortForm(major: string, minor: string)
    requires IsNumeral(major) && IsNumeral(minor)
    ensures Parse("v" + major + "." + minor) == Some(Version(NumeralValue(major), NumeralValue(minor), 0))
  {
    var s := "v" + major + "." + minor;
    assert s[0] == 'v' && s[1..] == major + ("." + minor);
    ParseMajorNumeral(major, "." + minor);
    assert "." + minor == "." + minor + [];
    ParseMinorNumeral(NumeralValue(major), minor, []);
  }

  /** The one-field form `vMAJOR` is valid and reads MINOR and PATCH as 0. */
  lemma ParseMajorOnly(major: string)
    requires IsNumeral(major)
    ensures Parse("v" + major) == Some(Version(NumeralValue(major), 0, 0))
  {
    var s := "v" + major;
    assert s[0] == 'v' && s[1..] == major + [];
    ParseMajorNumeral(major, []);
  }

  /** A numeral that does not start with '0' denotes a positive number. */
  lemma {:induction false} NumeralPositive(s: string)
    requires |s| > 0 && AllDigits(s) && s[0] != '0'
    ensures NumeralValue(s) > 0
    decreases |s|
  {
    if |s| > 1 {
      var p := s[..|s| - 1];
      assert p[0] == s[0];
      NumeralPositive(p);
    }
  }

  /** A numeric field is the decimal numeral of its own value: a field has
      exactly one spelling. */
  lemma {:induction false} NumeralDecimal(d: string)
    requires IsNumeral(d)
    ensures Decimal(NumeralValue(d)) == d
    decreases |d|
  {
    var last := d[|d| - 1];
    if |d| == 1 {
      assert d == [last];
    } else {
      var p := d[..|d| - 1];
      assert p[0] == d[0];
      NumeralPositive(p);
      NumeralDecimal(p);
      var n := NumeralValue(d);
      assert n / 10 == NumeralValue(p) && n % 10 == DigitValue(last);
      assert d == p + [last];
    }
  }

  /** A numeric field read off the front of `t` is spelled as its decimal
      numeral there. */
  lemma ParseNumberSpelling(t: string)
    requires ParseNumber(t).Some?
    ensures t == Decimal(ParseNumber(t).value.0) + ParseNumber(t).value.1
  {
    var n := LeadingDigits(t);
    assert IsNumeral(t[..n]);
    NumeralDecimal(t[..n]);
    assert t == t[..n] + t[n..];
  }

  lemma ParsePatchSpelling(major: nat, minor: nat, t: string, v: Version)
    requires ParsePatch(major, minor, t) == Some(v)
    ensures v.major == major && v.minor == minor
    ensures (t == [] && v.patch == 0) || t == "." + Decimal(v.patch)
  {
    if t != [] {
      ParseNumberSpelling(t[1..]);
      assert t == [t[0]] + t[1..];
    }
  }

  lemma ParseMinorSpelling(major: nat, t: string, v: Version)
    requires ParseMinor(major, t) == Some(v)
    ensures v.major == major
    ensures || (t == [] && v.minor == 0 && v.patch == 0)
            || (t == "." + Decimal(v.minor) && v.patch == 0)
            || t == "." + Decimal(v.minor) + "." + Decimal(v.patch)
  {
    if t != [] {
      var u := t[1..];
      assert t == "." + u;
      var (minor, rest) := ParseNumber(u).value;
      ParseNumberSpelling(u);
      ParsePatchSpelling(major, minor, rest, v);
      ConcatAssoc(".", Decimal(minor), rest);
      if rest != [] {
        ConcatAssoc("." + Decimal(minor), ".", Decimal(v.patch));
      }
    }
  }

  /** `m` followed by any of the three tails that `ParseMinorSpelling`
      allows is that spelling written out from the left. */
  lemma TailSpelling(m: string, rest: string, b: string, c: string)
    requires || rest == []
             || rest == "." + b
             || rest == "." + b + "." + c
    ensures || m + rest == m
            || m + rest == m + "." + b
            || m + rest == m + "." + b + "." + c
  {
    if rest == [] {
      assert m + rest == m;
    } else if rest == "." + b {
      ConcatAssoc(m, ".", b);
    } else {
      ConcatAssoc(m, "." + b + ".", c);
      ConcatAssoc(m, "." + b, ".");
      ConcatAssoc(m, ".", b);
    }
  }

  lemma ParseMajorSpelling(t: string, v: Version)
    requires ParseMajor(t) == Some(v)
    ensures || (t == Decimal(v.major) && v.minor == 0 && v.patch == 0)
            || (t == Decimal(v.major) + "." + Decimal(v.minor) && v.patch == 0)
            || t == Decimal(v.major) + "." + Decimal(v.minor) + "." + Decimal(v.patch)
  {
    var (major, rest) := ParseNumber(t).value;
    ParseNumberSpelling(t);
    ParseMinorSpelling(major, rest, v);
    TailSpelling(Decimal(v.major), rest, Decimal(v.minor), Decimal(v.patch));
  }

  /** The converse of `ParseFormat`, `ParseShortForm` and `ParseMajorOnly`:
      an accepted string is one of the three spellings of its version, so
      exactly these strings are valid. */
  lemma ParseSpellings(s: string, v: Version)
    requires Parse(s) == Some(v)
    ensures || s == Format(v)
            || (v.patch == 0 && s == "v" + Decimal(v.major) + "." + Decimal(v.minor))
            || (v.minor == 0 && v.patch == 0 && s == "v" + Decimal(v.major))
  {
    var t := s[1..];
    assert s == "v" + t;
    ParseMajorSpelling(t, v);
    PrefixSpelling("v", t, Decimal(v.major), Decimal(v.minor), Decimal(v.patch));
  }

  /** Putting `p` in front of a spelling written out from the left. */
  lemma PrefixSpelling(p: string, t: string, a: string, b: string, c: string)
    ensures t == a ==> p + t == p + a
    ensures t == a + "." + b ==> p + t == p + a + "." + b
    ensures t == a + "." + b + "." + c ==> p + t == p + a + "." + b + "." + c
  {
    if t == a + "." + b {
      ConcatAssoc(p, a + ".", b);
      ConcatAssoc(p, a, ".");
    } else if t == a + "." + b + "." + c {
      ConcatAssoc(p, a + "." + b + ".", c);
      ConcatAssoc(p, a + "." + b, ".");
      ConcatAssoc(p, a + ".", b);
      ConcatAssoc(p, a, ".");
    }
  }

  /** Precedence of two versions: -1, 0 or 1 as `v` is below, equal to or
      above `w`, comparing MAJOR, then MINOR, then PATCH. */
  function CompareVersions(v: Version, w: Version): int {
    if v.major != w.major then (if v.major < w.major then -1 else 1)
    else if v.minor != w.minor then (if v.minor < w.minor then -1 else 1)
    else if v.patch != w.patch then (if v.patch < w.patch then -1 else 1)
    else 0
  }

  /** `semver.Compare(a, b)`. */
  function Compare(a: string, b: string): (r: int)
    ensures r == -1 || r == 0 || r == 1
  {
    match (Parse(a), Parse(b))
    case (None, None) => 0
    case (None, Some(_)) => -1
    case (Some(_), None) => 1
    case (Some(v), Some(w)) => CompareVersions(v, w)
  }

  /** Swapping the operands negates the comparison. */
  lemma CompareAntisymmetric(a: string, b: string)
    ensures Compare(a, b) == -Compare(b, a)
  {
  }

  /** "At or below" is transitive, so the gate is consistent across rules. */
  lemma CompareTransitive(a: string, b: string, c: string)
    requires Compare(a, b) <= 0 && Compare(b, c) <= 0
    ensures Compare(a, c) <= 0
  {
  }

  /** Two valid strings compare equal exactly when they denote the same
      version, so `v1.16` and `v1.16.0` are the same threshold. */
  lemma CompareZeroIff(a: string, b: string)
    requires IsValid(a) && IsValid(b)
    ensures Compare(a, b) == 0 <==> Parse(a) == Parse(b)
  {
  }

  /** An invalid version string orders below every valid one. */
  lemma InvalidBelowValid(a: string, b: string)
    requires !IsValid(a) && IsValid(b)
    ensures Compare(a, b) == -1
  {
  }

  /** The short form that the sample program gates against. */
  lemma ParseV116()
    ensures Parse("v1.16") == Some(Version(1, 16, 0))
  {
    var major, minor := "1", "16";
    assert IsNumeral(major) && NumeralValue(major) == 1;
    assert minor[..1] == major;
    assert IsNumeral(minor) && NumeralValue(minor) == 16;
    assert "v" + major + "." + minor == "v1.16";
    ParseShortForm(major, minor);
  }
}
