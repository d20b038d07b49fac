/**
 * The text conventions of json-lite: the token constants and default
 * node names of JsonStrings, Java's `trim().isEmpty()` test for a blank
 * string, `String.split("[.]")` on field paths, and the first-letter case
 * changes used to build getter names and default object names.
 */
module JsonText {
  import opened Wrappers

  // Structural tokens.
  const StartObject: string := "{"
  const EndObject: string := "}"
  const StartArray: string := "["
  const EndArray: string := "]"
  const Colon: string := ":"
  const Comma: string := ","
  const Quotation: string := "\""
  const Whitespace: string := " "
  const Tab: string := "\t"
  const DefaultLineSeparator: string := "\n"
  const FieldName: string := "name"

  // Default node names, one per node kind.
  const BooleanName: string := "boolean"
  const CollectionName: string := "collection"
  const DateName: string := "date"
  const EnumName: string := "enum"
  const LocalDateName: string := "localDate"
  const LocalTimeName: string := "localTime"
  const LocalDateTimeName: string := "localDateTime"
  const NullName: string := "null"
  const NumberName: string := "number"
  const ObjectName: string := "object"
  const StringName: string := "string"

  /** The single default name of the legacy (com) package. */
  const ValueName: string := "value"

  function DefaultNames(): seq<string>
  {
    [BooleanName, CollectionName, DateName, EnumName, LocalDateName, LocalTimeName,
     LocalDateTimeName, NullName, NumberName, ObjectName, StringName]
  }

  /** Every kind has its own default name. */
  lemma DefaultNamesDistinct()
    ensures |DefaultNames()| == 11
    ensures forall i, j :: 0 <= i < j < |DefaultNames()| ==> DefaultNames()[i] != DefaultNames()[j]
  {
  }

  /** The line separator: the platform property when it is set, "\n" otherwise. */
  function LineSeparator(property: Option<string>): (r: string)
    ensures property.None? ==> r == DefaultLineSeparator
    ensures property.Some? ==> r == property.value
  {
    property.GetOr(DefaultLineSeparator)
  }

  /** Java's `trim` treats every character up to U+0020 as space. */
  predicate IsSpace(c: char)
  {
    c <= ' '
  }

  function TrimStart(s: string): (r: string)
    ensures |r| <= |s| && r == s[|s| - |r|..]
    ensures r == [] || !IsSpace(r[0])
    ensures forall i :: 0 <= i < |s| - |r| ==> IsSpace(s[i])
  {
    if |s| > 0 && IsSpace(s[0]) then TrimStart(s[1..]) else s
  }

  function TrimEnd(s: string): (r: string)
    ensures |r| <= |s| && r == s[..|r|]
    ensures r == [] || !IsSpace(r[|r| - 1])
    ensures forall i :: |r| <= i < |s| ==> IsSpace(s[i])
  {
    if |s| > 0 && IsSpace(s[|s| - 1]) then TrimEnd(s[..|s| - 1]) else s
  }

  /** Java's `String.trim`. */
  function Trim(s: string): string
  {
    TrimEnd(TrimStart(s))
  }

  /** Java's `s.trim().isEmpty()`, the library's test for a blank string. */
  predicate IsBlank(s: string)
  {
    Trim(s) == []
  }

  /** A string is blank exactly when every character is a space character. */
  lemma BlankIffAllSpace(s: string)
    ensures IsBlank(s) <==> forall i :: 0 <= i < |s| ==> IsSpace(s[i])
  {
    var t := TrimStart(s);
    if !forall i :: 0 <= i < |s| ==> IsSpace(s[i]) {
      var k :| 0 <= k < |s| && !IsSpace(s[k]);
      assert |t| > 0;
    }
  }

  /** A null or blank name. */
  predicate IsMissing(name: Option<string>)
  {
    name.None? || IsBlank(name.value)
  }

  /** The items joined with a separator between neighbours. */
  function Join(items: seq<string>, sep: string): string
  {
    if |items| == 0 then ""
    else if |items| == 1 then items[0]
    else items[0] + sep + Join(items[1..], sep)
  }

  /** The pieces between the dots of `s`, empty pieces included. */
  function RawSplit(s: string): (r: seq<string>)
    ensures |r| >= 1
    ensures forall k :: 0 <= k < |r| ==> '.' !in r[k]
  {
    if s == [] then [""]
    else
      var rest := RawSplit(s[1..]);
      if s[0] == '.' then [""] + rest
      else [[s[0]] + rest[0]] + rest[1..]
  }

  /** Joining the pieces with dots gives back the string. */
  lemma {:induction false} RawSplitJoin(s: string)
    ensures Join(RawSplit(s), ".") == s
  {
    if s != [] {
      var rest := RawSplit(s[1..]);
      RawSplitJoin(s[1..]);
      if s[0] == '.' {
        assert RawSplit(s) == [""] + rest;
        assert Join(RawSplit(s), ".") == "" + "." + Join(rest, ".");
      } else {
        if |rest| == 1 {
          assert Join(rest, ".") == rest[0];
        } else {
          assert Join(rest, ".") == rest[0] + "." + Join(rest[1..], ".");
          assert ([[s[0]] + rest[0]] + rest[1..])[1..] == rest[1..];
        }
      }
    }
  }

  function DropTrailingEmpty(parts: seq<string>): (r: seq<string>)
    ensures |r| <= |parts| && r == parts[..|r|]
    ensures r == [] || r[|r| - 1] != ""
    ensures forall k :: |r| <= k < |parts| ==> parts[k] == ""
  {
    if |parts| > 0 && parts[|parts| - 1] == "" then DropTrailingEmpty(parts[..|parts| - 1]) else parts
  }

  /**
   * Java's `s.split("[.]")`: the pieces between dots with the trailing
   * empty pieces removed, except that a string without any dot is
   * returned whole.
   */
  function SplitDot(s: string): (r: seq<string>)
    ensures forall k :: 0 <= k < |r| ==> '.' !in r[k]
  {
    if '.' !in s then [s] else DropTrailingEmpty(RawSplit(s))
  }

  lemma {:induction false} RawSplitLast(s: string)
    requires s != [] && s[|s| - 1] != '.'
    ensures RawSplit(s)[|RawSplit(s)| - 1] != ""
  {
    if |s| > 1 {
      RawSplitLast(s[1..]);
    }
  }

  /** A path that does not end in a dot splits into pieces that join back to it. */
  lemma SplitDotJoin(s: string)
    requires s == [] || s[|s| - 1] != '.'
    ensures Join(SplitDot(s), ".") == s
  {
    if '.' in s {
      RawSplitLast(s);
      RawSplitJoin(s);
    }
  }

  function UpperAscii(c: char): char
  {
    if 'a' <= c <= 'z' then (c as int - 32) as char else c
  }

  function LowerAscii(c: char): char
  {
    if 'A' <= c <= 'Z' then (c as int + 32) as char else c
  }

  /** The string with its first letter upper-cased, as a getter name needs. */
  function Capitalize(s: string): (r: string)
    ensures |r| == |s|
    ensures |s| > 0 ==> r[1..] == s[1..] && r[0] == UpperAscii(s[0])
    ensures |s| > 0 && 'a' <= s[0] <= 'z' ==> 'A' <= r[0] <= 'Z'
  {
    if |s| == 0 then s else [UpperAscii(s[0])] + s[1..]
  }

  /** The string with its first letter lower-cased, as a default object name needs. */
  function Decapitalize(s: string): (r: string)
    ensures |r| == |s|
    ensures |s| > 0 ==> r[1..] == s[1..] && r[0] == LowerAscii(s[0])
    ensures |s| > 0 && 'A' <= s[0] <= 'Z' ==> 'a' <= r[0] <= 'z'
  {
    if |s| == 0 then s else [LowerAscii(s[0])] + s[1..]
  }

  /** Lower-casing undoes upper-casing on a name that starts lower-case. */
  lemma DecapitalizeCapitalize(s: string)
    requires |s| > 0 && 'a' <= s[0] <= 'z'
    ensures Decapitalize(Capitalize(s)) == s
  {
  }

}
