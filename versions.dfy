/** The version value: a `major.minor.patch` triple of naturals, its
    parser (`stringToVersion`) and its formatter (`versionToString`). */
module Versions {
  import opened Failures
  import opened Decimal
  import opened Fields

  datatype Version = Version(major: nat, minor: nat, patch: nat)

  /** The strict normal-version form `^(0|[1-9][0-9]*)\.(0|[1-9][0-9]*)\.(0|[1-9][0-9]*)$`:
      three canonical numerals joined by dots, and nothing else. */
  ghost predicate MatchesVersionPattern(s: string) {
    exists a, b, c :: IsCanonical(a) && IsCanonical(b) && IsCanonical(c) && s == a + "." + b + "." + c
  }

  /** Parse a version string; any text outside the pattern is an
      `InvalidVersionString` carrying that text. The match is computed by
      splitting on `.`, since no canonical numeral contains a dot. */
  function StringToVersion(s: string): Result<Version> {
    var f := Split(s, '.');
    if |f| == 3 && IsCanonical(f[0]) && IsCanonical(f[1]) && IsCanonical(f[2]) then
      Ok(Version(ValueOf(f[0]), ValueOf(f[1]), ValueOf(f[2])))
    else
      Err(InvalidVersionString(s))
  }

  function VersionToString(v: Version): string {
    ToDecimal(v.major) + "." + ToDecimal(v.minor) + "." + ToDecimal(v.patch)
  }

  lemma CanonicalHasNoDot(s: string)
    requires IsCanonical(s)
    ensures '.' !in s
  {
  }

  lemma JoinThree(a: string, b: string, c: string)
    ensures Join([a, b, c], '.') == a + "." + b + "." + c
  {
    assert [a, b, c][1..] == [b, c] && [b, c][1..] == [c];
    assert Join([b, c], '.') == b + "." + c;
    assert a + ['.'] + (b + "." + c) == a + "." + b + "." + c;
  }

  /** Three canonical numerals joined by dots split back into themselves. */
  lemma SplitVersionString(a: string, b: string, c: string)
    requires IsCanonical(a) && IsCanonical(b) && IsCanonical(c)
    ensures Split(a + "." + b + "." + c, '.') == [a, b, c]
  {
    CanonicalHasNoDot(a);
    CanonicalHasNoDot(b);
    CanonicalHasNoDot(c);
    JoinThree(a, b, c);
    SplitJoin([a, b, c], '.');
  }

  /** Every rendered version is in the pattern. */
  lemma FormatMatchesPattern(v: Version)
    ensures MatchesVersionPattern(VersionToString(v))
  {
    var a, b, c := ToDecimal(v.major), ToDecimal(v.minor), ToDecimal(v.patch);
    assert IsCanonical(a) && IsCanonical(b) && IsCanonical(c);
  }

  /** Formatting never fails and parsing its output gives the version back. */
  lemma ParseFormat(v: Version)
    ensures StringToVersion(VersionToString(v)) == Ok(v)
  {
    SplitVersionString(ToDecimal(v.major), ToDecimal(v.minor), ToDecimal(v.patch));
  }

  /** Every accepted string is exactly the rendering of the version parsed from it. */
  lemma FormatParse(s: string)
    ensures StringToVersion(s).Ok? ==> VersionToString(StringToVersion(s).value) == s
  {
    var f := Split(s, '.');
    if StringToVersion(s).Ok? {
      CanonicalRoundTrip(f[0]);
      CanonicalRoundTrip(f[1]);
      CanonicalRoundTrip(f[2]);
      JoinSplit(s, '.');
      JoinThree(f[0], f[1], f[2]);
      assert f == [f[0], f[1], f[2]];
    }
  }

  /** The parser accepts exactly the strings of the pattern, and rejects
      every other string with an error that names it. */
  lemma ParseAcceptsExactlyPattern(s: string)
    ensures StringToVersion(s).Ok? <==> MatchesVersionPattern(s)
    ensures StringToVersion(s).Err? ==> StringToVersion(s).error == InvalidVersionString(s)
  {
    if StringToVersion(s).Ok? {
      FormatParse(s);
      FormatMatchesPattern(StringToVersion(s).value);
    }
    if MatchesVersionPattern(s) {
      var a, b, c :| IsCanonical(a) && IsCanonical(b) && IsCanonical(c) && s == a + "." + b + "." + c;
      SplitVersionString(a, b, c);
    }
  }

  /** Two versions with the same rendering are the same version. */
  lemma FormatInjective(v: Version, w: Version)
    ensures VersionToString(v) == VersionToString(w) <==> v == w
  {
    if VersionToString(v) == VersionToString(w) {
      ParseFormat(v);
      ParseFormat(w);
    }
  }

  /** A string that does not start with a digit (a `v` prefix, a sign, a
      space) is never a version. */
  lemma ParseRejectsNonDigitStart(s: string)
    requires s != [] && !IsDigit(s[0])
    ensures StringToVersion(s) == Err(InvalidVersionString(s))
  {
  }

  /** A leading zero in the first component makes the string invalid. */
  lemma ParseRejectsLeadingZero(rest: string)
    requires rest != [] && IsDigit(rest[0])
    ensures StringToVersion("0" + rest) == Err(InvalidVersionString("0" + rest))
  {
  }

  lemma ParseExampleAccepted()
    ensures StringToVersion("1.2.3") == Ok(Version(1, 2, 3))
  {
    assert ToDecimal(1) == "1" && ToDecimal(2) == "2" && ToDecimal(3) == "3";
    assert VersionToString(Version(1, 2, 3)) == "1.2.3";
    ParseFormat(Version(1, 2, 3));
  }

  lemma ParseExampleLeadingZero()
    ensures StringToVersion("1.02.3").Err?
  {
  }

  lemma ParseExampleLeadingZeroPatch()
    ensures StringToVersion("1.2.03").Err?
  {
  }

  lemma ParseExampleTooFew()
    ensures StringToVersion("1.2").Err?
  {
  }

  lemma ParseExampleTooMany()
    ensures StringToVersion("1.2.3.4").Err?
  {
  }

  lemma ParseExampleTrailingNewline()
    ensures StringToVersion("1.2.3\n").Err?
  {
  }
}
