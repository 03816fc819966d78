/** The `version.ts` artifact: one line `export const version = "X.Y.Z";`
    (`versionToTypeScript`) and its strict reader (`typeScriptToVersion`). */
module Codec {
  import opened Failures
  import opened Decimal
  import opened Versions

  const Prefix: string := "export const version = \""
  const Suffix: string := "\";"

  /** The version rendered into the artifact template; never fails. */
  function VersionToTypeScript(v: Version): string {
    Prefix + VersionToString(v) + Suffix
  }

  /** The whole text must be the template around a text matching the
      version pattern (the regular expression is anchored at both ends and
      has no multiline flag, so not even a trailing newline is allowed);
      anything else is `InvalidTypeScript`. Once the template matched, the
      inner parse cannot fail. */
  function TypeScriptToVersion(text: string): Result<Version> {
    if |text| >= |Prefix| + |Suffix|
       && text[..|Prefix|] == Prefix
       && text[|text| - |Suffix|..] == Suffix
       && StringToVersion(text[|Prefix|..|text| - |Suffix|]).Ok?
    then
      StringToVersion(text[|Prefix|..|text| - |Suffix|])
    else
      Err(InvalidTypeScript(text))
  }

  /** The text an accepted artifact embeds between the quotes. */
  lemma EncodingParts(v: Version)
    ensures var t := VersionToTypeScript(v);
      |t| == |Prefix| + |VersionToString(v)| + |Suffix|
      && t[..|Prefix|] == Prefix
      && t[|t| - |Suffix|..] == Suffix
      && t[|Prefix|..|t| - |Suffix|] == VersionToString(v)
  {
  }

  /** Decoding an encoded version gives it back. */
  lemma DecodeEncode(v: Version)
    ensures TypeScriptToVersion(VersionToTypeScript(v)) == Ok(v)
  {
    EncodingParts(v);
    ParseFormat(v);
  }

  /** The decoder accepts only exact encodings: whatever text it accepts is
      the encoding of the version it returns, character for character. */
  lemma DecodeExact(text: string)
    ensures TypeScriptToVersion(text).Ok? ==> VersionToTypeScript(TypeScriptToVersion(text).value) == text
  {
    if TypeScriptToVersion(text).Ok? {
      var inner := text[|Prefix|..|text| - |Suffix|];
      FormatParse(inner);
      assert text == text[..|Prefix|] + inner + text[|text| - |Suffix|..];
    }
  }

  /** Decoding fails exactly on the texts that are not an encoding, and the
      failure always names the whole text as an invalid artifact (never as
      an invalid version string). */
  lemma DecodeRejects(text: string)
    ensures TypeScriptToVersion(text).Err? <==> forall v :: VersionToTypeScript(v) != text
    ensures TypeScriptToVersion(text).Err? ==> TypeScriptToVersion(text).error == InvalidTypeScript(text)
  {
    if TypeScriptToVersion(text).Ok? {
      DecodeExact(text);
    } else {
      forall v ensures VersionToTypeScript(v) != text {
        DecodeEncode(v);
      }
    }
  }

  /** A rendered version holds only digits and dots. */
  lemma {:induction false} VersionStringChars(v: Version)
    ensures forall i :: 0 <= i < |VersionToString(v)| ==>
      IsDigit(VersionToString(v)[i]) || VersionToString(v)[i] == '.'
  {
    var a, b, c := ToDecimal(v.major), ToDecimal(v.minor), ToDecimal(v.patch);
    assert AllDigits(a) && AllDigits(b) && AllDigits(c);
    assert VersionToString(v) == a + "." + b + "." + c;
  }

  /** Text added after an encoding (a trailing newline, a second line) makes
      it invalid. */
  lemma TrailingContentRejected(v: Version, extra: string)
    requires extra != []
    ensures TypeScriptToVersion(VersionToTypeScript(v) + extra) == Err(InvalidTypeScript(VersionToTypeScript(v) + extra))
  {
    var t := VersionToTypeScript(v) + extra;
    DecodeRejects(t);
    if TypeScriptToVersion(t).Ok? {
      var w := TypeScriptToVersion(t).value;
      DecodeExact(t);
      var sv, sw := VersionToString(v), VersionToString(w);
      var k := |Prefix| + |sv|;
      assert t[k] == '"';
      VersionStringChars(w);
    }
  }

  /** Text added before an encoding makes it invalid. */
  lemma LeadingContentRejected(v: Version, extra: string)
    requires extra != []
    ensures TypeScriptToVersion(extra + VersionToTypeScript(v)) == Err(InvalidTypeScript(extra + VersionToTypeScript(v)))
  {
    var t := extra + VersionToTypeScript(v);
    DecodeRejects(t);
    if TypeScriptToVersion(t).Ok? {
      var w := TypeScriptToVersion(t).value;
      DecodeExact(t);
      var sv, sw := VersionToString(v), VersionToString(w);
      var k := |extra| + |Prefix| - 1;
      assert t[k] == '"';
      assert |sw| == |extra| + |sv|;
      VersionStringChars(w);
    }
  }

  lemma DecodeExampleTrailingNewline()
    ensures TypeScriptToVersion("export const version = \"1.2.3\";\n").Err?
  {
  }

  lemma DecodeExampleBadQuotes()
    ensures TypeScriptToVersion("export const version = '1.2.3';").Err?
  {
  }

  lemma DecodeExampleLeadingZero()
    ensures TypeScriptToVersion("export const version = \"1.2.03\";").Err?
  {
    var t := "export const version = \"1.2.03\";";
    assert t[|Prefix|..|t| - |Suffix|] == "1.2.03";
    ParseExampleLeadingZeroPatch();
  }
}
