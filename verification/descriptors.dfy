/**
 * The descriptor records: the format descriptor (JsonFormatInfo and its
 * twin JsonPatternInfo: a date pattern, a locale and a time zone) and the
 * field descriptor JsonFieldInfo (a field name, the names it is written or
 * read under, a nested serializer profile and a format). Each is a class
 * whose fields the setters update, with a value view (`Value()`) that the
 * pure parts of the model use.
 */
module Descriptors {
  import opened Wrappers

  /** A locale and a time zone, as the platform lookups return them. */
  datatype Locale = Locale(tag: string)
  datatype TimeZone = TimeZone(id: string)

  /** The contents of a format descriptor; each part may be null. */
  datatype Format = Format(pattern: Option<string>, locale: Option<Locale>, timezone: Option<TimeZone>)

  /** A descriptor with nothing set. */
  const Unset: Format := Format(None, None, None)

  /** The contents after `getPattern`: a null pattern has become "". */
  function PatternRead(f: Format): (r: Format)
    ensures r.pattern.Some?
    ensures f.pattern.Some? ==> r == f
    ensures f.pattern.None? ==> r == f.(pattern := Some(""))
  {
    f.(pattern := Some(f.pattern.GetOr("")))
  }

  /** Reading the pattern a second time changes nothing more. */
  lemma PatternReadIdempotent(f: Format)
    ensures PatternRead(PatternRead(f)) == PatternRead(f)
    ensures PatternRead(f).locale == f.locale && PatternRead(f).timezone == f.timezone
  {
  }

  /**
   * JsonFormatInfo: the format descriptor whose `getPattern` never returns
   * null, because it stores "" in place of a null pattern when read.
   */
  class FormatInfo {
    var pattern: Option<string>
    var locale: Option<Locale>
    var timezone: Option<TimeZone>

    function Value(): Format
      reads this
    {
      Format(pattern, locale, timezone)
    }

    /** Every part unset. */
    constructor ()
      ensures Value() == Unset
    {
      pattern := None;
      locale := None;
      timezone := None;
    }

    /** Each part stored as given. */
    constructor Of(pattern: Option<string>, locale: Option<Locale>, timezone: Option<TimeZone>)
      ensures Value() == Format(pattern, locale, timezone)
    {
      this.pattern := pattern;
      this.locale := locale;
      this.timezone := timezone;
    }

    /** The pattern, never null: a null pattern is replaced by "" in the field itself. */
    method GetPattern() returns (p: string)
      modifies this
      ensures p == old(pattern).GetOr("")
      ensures Value() == PatternRead(old(Value()))
      ensures pattern == Some(p)
    {
      if pattern.None? {
        pattern := Some("");
      }
      p := pattern.value;
    }

    method SetPattern(p: Option<string>)
      modifies this
      ensures Value() == old(Value()).(pattern := p)
    {
      pattern := p;
    }

    method SetLocale(l: Option<Locale>)
      modifies this
      ensures Value() == old(Value()).(locale := l)
    {
      locale := l;
    }

    method SetTimezone(z: Option<TimeZone>)
      modifies this
      ensures Value() == old(Value()).(timezone := z)
    {
      timezone := z;
    }
  }

  /** JsonPatternInfo: the same three parts, with no normalisation on read. */
  class PatternInfo {
    var pattern: Option<string>
    var locale: Option<Locale>
    var timezone: Option<TimeZone>

    function Value(): Format
      reads this
    {
      Format(pattern, locale, timezone)
    }

    constructor ()
      ensures Value() == Unset
    {
      pattern := None;
      locale := None;
      timezone := None;
    }

    constructor Of(pattern: Option<string>, locale: Option<Locale>, timezone: Option<TimeZone>)
      ensures Value() == Format(pattern, locale, timezone)
    {
      this.pattern := pattern;
      this.locale := locale;
      this.timezone := timezone;
    }

    /** The stored pattern, possibly null. */
    function GetPattern(): (p: Option<string>)
      reads this
      ensures p == Value().pattern
    {
      pattern
    }

    method SetPattern(p: Option<string>)
      modifies this
      ensures Value() == old(Value()).(pattern := p)
    {
      pattern := p;
    }

    method SetLocale(l: Option<Locale>)
      modifies this
      ensures Value() == old(Value()).(locale := l)
    {
      locale := l;
    }

    method SetTimezone(z: Option<TimeZone>)
      modifies this
      ensures Value() == old(Value()).(timezone := z)
    {
      timezone := z;
    }
  }

  /** The contents of a field descriptor; each part may be null. */
  datatype FieldDescriptor = FieldDescriptor(
    name: Option<string>,
    customNames: Option<seq<string>>,
    serializerName: Option<string>,
    patternInfo: Option<Format>)

  /** What the (name, customNames, patternInfo) constructor builds: no nested serializer. */
  function Described(name: string, customNames: seq<string>, patternInfo: Option<Format>): (d: FieldDescriptor)
    ensures d.serializerName == Some("")
    ensures d.name == Some(name) && d.customNames == Some(customNames) && d.patternInfo == patternInfo
  {
    FieldDescriptor(Some(name), Some(customNames), Some(""), patternInfo)
  }

  /** JsonFieldInfo, whose four parts have setters. */
  class FieldInfo {
    var name: Option<string>
    var customNames: Option<seq<string>>
    var serializerName: Option<string>
    var patternInfo: Option<Format>

    function Value(): FieldDescriptor
      reads this
    {
      FieldDescriptor(name, customNames, serializerName, patternInfo)
    }

    /** Every part null. */
    constructor ()
      ensures Value() == FieldDescriptor(None, None, None, None)
    {
      name := None;
      customNames := None;
      serializerName := None;
      patternInfo := None;
    }

    /** Every part stored as given, in declaration order. */
    constructor All(name: Option<string>, customNames: Option<seq<string>>,
                    serializerName: Option<string>, patternInfo: Option<Format>)
      ensures Value() == FieldDescriptor(name, customNames, serializerName, patternInfo)
    {
      this.name := name;
      this.customNames := customNames;
      this.serializerName := serializerName;
      this.patternInfo := patternInfo;
    }

    /** A name and custom names, with the nested serializer name set to "". */
    constructor WithNames(name: Option<string>, customNames: Option<seq<string>>, patternInfo: Option<Format>)
      ensures Value() == FieldDescriptor(name, customNames, Some(""), patternInfo)
    {
      this.name := name;
      this.customNames := customNames;
      this.serializerName := Some("");
      this.patternInfo := patternInfo;
    }

    /** A name only: no custom names and the nested serializer name "". */
    constructor Named(name: Option<string>, patternInfo: Option<Format>)
      ensures Value() == FieldDescriptor(name, Some([]), Some(""), patternInfo)
    {
      this.name := name;
      this.customNames := Some([]);
      this.serializerName := Some("");
      this.patternInfo := patternInfo;
    }

    method SetName(n: Option<string>)
      modifies this
      ensures Value() == old(Value()).(name := n)
    {
      name := n;
    }

    method SetCustomNames(c: Option<seq<string>>)
      modifies this
      ensures Value() == old(Value()).(customNames := c)
    {
      customNames := c;
    }

    method SetSerializerName(s: Option<string>)
      modifies this
      ensures Value() == old(Value()).(serializerName := s)
    {
      serializerName := s;
    }

    method SetPatternInfo(p: Option<Format>)
      modifies this
      ensures Value() == old(Value()).(patternInfo := p)
    {
      patternInfo := p;
    }
  }

}
