/**
 * The validation patterns and the UUID-to-colour table of the Tilt service
 * (`brewblox_tilt/const.py`).
 */
module Const {
  import opened Wrappers

  /** A character of the class `[A-F0-9]` of the normalised-address pattern. */
  predicate IsMacChar(c: char) {
    'A' <= c <= 'F' || '0' <= c <= '9'
  }

  /**
   * `NORMALIZED_MAC_PATTERN` as `re.match` applies it: twelve characters of `[A-F0-9]`
   * followed by the end of the string, where Python's `$` also accepts one final newline.
   */
  predicate MatchesMacPatternAsWritten(s: string) {
    && |s| >= 12
    && (forall i :: 0 <= i < 12 ==> IsMacChar(s[i]))
    && (|s| == 12 || (|s| == 13 && s[12] == '\n'))
  }

  /** A normalised address: exactly twelve upper-case hexadecimal digits. */
  predicate IsNormalizedMac(s: string) {
    |s| == 12 && forall i :: 0 <= i < |s| ==> IsMacChar(s[i])
  }

  /** A character of the class `[a-zA-Z0-9 _\-\(\)\|]` of the device-name pattern. */
  predicate IsNameChar(c: char) {
    || 'a' <= c <= 'z' || 'A' <= c <= 'Z' || '0' <= c <= '9'
    || c == ' ' || c == '_' || c == '-' || c == '(' || c == ')' || c == '|'
  }

  /** `INVALID_NAME_CHAR_PATTERN`: the negated class `[^a-zA-Z0-9 _\-\(\)\|]`. */
  predicate IsInvalidNameChar(c: char) {
    !IsNameChar(c)
  }

  /** A valid device name: 1 to 100 characters, each in the allowed class. */
  predicate IsValidDeviceName(s: string) {
    1 <= |s| <= 100 && forall i :: 0 <= i < |s| ==> IsNameChar(s[i])
  }

  /**
   * `DEVICE_NAME_PATTERN` as `re.match` applies it: a valid name, or a valid name
   * followed by one final newline that Python's `$` lets through.
   */
  predicate MatchesNamePatternAsWritten(s: string) {
    || IsValidDeviceName(s)
    || (|s| >= 2 && s[|s| - 1] == '\n' && IsValidDeviceName(s[..|s| - 1]))
  }

  lemma NormalizedMacShape(s: string)
    requires IsNormalizedMac(s)
    ensures |s| == 12
    ensures forall i :: 0 <= i < |s| ==> ('0' <= s[i] <= '9' || 'A' <= s[i] <= 'F')
    ensures MatchesMacPatternAsWritten(s)
  {
  }

  /** The as-written pattern accepts a twelve-digit address with a trailing newline. */
  lemma MacPatternAcceptsTrailingNewline()
    ensures MatchesMacPatternAsWritten("AA7F97FC141E\n")
    ensures !IsNormalizedMac("AA7F97FC141E\n")
  {
  }

  /** On strings that do not end in a newline the as-written pattern and the corrected one agree. */
  lemma MacPatternsAgreeWithoutNewline(s: string)
    requires s == [] || s[|s| - 1] != '\n'
    ensures MatchesMacPatternAsWritten(s) <==> IsNormalizedMac(s)
  {
  }

  /** The as-written name pattern accepts a name with a trailing newline. */
  lemma NamePatternAcceptsTrailingNewline()
    ensures MatchesNamePatternAsWritten("Red\n")
    ensures !IsValidDeviceName("Red\n")
  {
    assert "Red\n"[..3] == "Red";
  }

  lemma NamePatternsAgreeWithoutNewline(s: string)
    requires s == [] || s[|s| - 1] != '\n'
    ensures MatchesNamePatternAsWritten(s) <==> IsValidDeviceName(s)
  {
  }

  /** A name is valid iff it has 1 to 100 characters none of which the invalid-character pattern matches. */
  lemma ValidNameIffNoInvalidChar(s: string)
    ensures IsValidDeviceName(s) <==> 1 <= |s| <= 100 && forall i :: 0 <= i < |s| ==> !IsInvalidNameChar(s[i])
  {
  }

  /** The UUID suffix shared by every Tilt colour. */
  const TiltUuidSuffix: string := "-c5b1-4b44-b512-1370f02d74de"

  /** `TILT_UUID_COLORS`, in the order of its definition. */
  const TiltUuidColors: seq<(string, string)> := [
    ("a495bb10" + TiltUuidSuffix, "Red"),
    ("a495bb20" + TiltUuidSuffix, "Green"),
    ("a495bb30" + TiltUuidSuffix, "Black"),
    ("a495bb40" + TiltUuidSuffix, "Purple"),
    ("a495bb50" + TiltUuidSuffix, "Orange"),
    ("a495bb60" + TiltUuidSuffix, "Blue"),
    ("a495bb70" + TiltUuidSuffix, "Yellow"),
    ("a495bb80" + TiltUuidSuffix, "Pink")
  ]

  predicate IsUuidTextChar(c: char) {
    '0' <= c <= '9' || 'a' <= c <= 'f' || c == '-'
  }

  function FindColor(table: seq<(string, string)>, uuid: string): (r: Option<string>)
    ensures r.Some? ==> exists i :: 0 <= i < |table| && table[i] == (uuid, r.value)
    ensures r.None? <==> forall i :: 0 <= i < |table| ==> table[i].0 != uuid
  {
    if table == [] then None
    else if table[0].0 == uuid then Some(table[0].1)
    else FindColor(table[1..], uuid)
  }

  /** `TILT_UUID_COLORS.get(uuid)`: the colour of a known UUID, None for any other string. */
  function ColorOf(uuid: string): (r: Option<string>)
    ensures r.Some? ==> exists i :: 0 <= i < |TiltUuidColors| && TiltUuidColors[i] == (uuid, r.value)
    ensures r.None? <==> forall i :: 0 <= i < |TiltUuidColors| ==> TiltUuidColors[i].0 != uuid
  {
    FindColor(TiltUuidColors, uuid)
  }

  /** The first eight characters of the i-th table UUID: `a495bb`, the digit i + 1, then `0`. */
  function TablePrefix(i: nat): string
    requires i < 8
  {
    "a495bb" + [(49 + i) as char] + "0"
  }

  lemma TableUuidForm(i: nat)
    requires i < |TiltUuidColors|
    ensures TiltUuidColors[i].0 == TablePrefix(i) + TiltUuidSuffix
  {
    assert TiltUuidColors[i].0[..8] == TablePrefix(i);
    assert TiltUuidColors[i].0 == TiltUuidColors[i].0[..8] + TiltUuidSuffix;
  }

  /** The table has 8 entries with pairwise distinct UUIDs and pairwise distinct colours. */
  lemma TableDistinct()
    ensures |TiltUuidColors| == 8
    ensures forall i, j :: 0 <= i < j < |TiltUuidColors| ==>
      TiltUuidColors[i].0 != TiltUuidColors[j].0 && TiltUuidColors[i].1 != TiltUuidColors[j].1
  {
    forall i, j | 0 <= i < j < |TiltUuidColors|
      ensures TiltUuidColors[i].0 != TiltUuidColors[j].0 && TiltUuidColors[i].1 != TiltUuidColors[j].1
    {
      TableUuidForm(i);
      TableUuidForm(j);
      assert TiltUuidColors[i].0[6] != TiltUuidColors[j].0[6];
      var a, b := TiltUuidColors[i].1, TiltUuidColors[j].1;
      assert a[0] != b[0] || |a| != |b|;
    }
  }

  /** Every table UUID is a 36-character lower-case dashed string ending in the shared suffix. */
  lemma TableUuidShape()
    ensures forall i :: 0 <= i < |TiltUuidColors| ==>
      var u := TiltUuidColors[i].0;
      && |u| == 36
      && u[8..] == TiltUuidSuffix
      && (forall k :: 0 <= k < 36 ==> IsUuidTextChar(u[k]))
      && (forall k :: 0 <= k < 36 ==> (u[k] == '-' <==> k == 8 || k == 13 || k == 18 || k == 23))
  {
    forall i | 0 <= i < |TiltUuidColors|
      ensures var u := TiltUuidColors[i].0;
        && |u| == 36
        && u[8..] == TiltUuidSuffix
        && (forall k :: 0 <= k < 36 ==> IsUuidTextChar(u[k]))
        && (forall k :: 0 <= k < 36 ==> (u[k] == '-' <==> k == 8 || k == 13 || k == 18 || k == 23))
    {
      TableUuidForm(i);
      var u := TablePrefix(i) + TiltUuidSuffix;
      assert u[8..] == TiltUuidSuffix;
      forall k | 8 <= k < 36
        ensures IsUuidTextChar(u[k]) && (u[k] == '-' <==> k == 8 || k == 13 || k == 18 || k == 23)
      {
        assert u[k] == TiltUuidSuffix[k - 8];
      }
    }
  }

  /** Looking a colour up by a table UUID gives that entry's colour (the table is a function). */
  lemma ColorOfTableEntry(i: nat)
    requires i < |TiltUuidColors|
    ensures ColorOf(TiltUuidColors[i].0) == Some(TiltUuidColors[i].1)
  {
    TableDistinct();
  }
}
