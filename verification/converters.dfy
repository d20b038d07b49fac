/**
 * The annotation converters: `@JsonField` to a field descriptor for
 * writing (the name a field is written under) and for reading (the names
 * a field is looked up under), and `@JsonPattern` to a format descriptor
 * for reading. A null annotation is refused with a JsonException.
 */
module Converters {
  import opened Wrappers
  import opened JsonText
  import opened Descriptors
  import opened Natives

  /** The first candidate that is not blank, as written (untrimmed), or nothing when all are blank. */
  function FirstNonBlank(candidates: seq<string>): (r: Option<string>)
    ensures r.None? <==> forall i :: 0 <= i < |candidates| ==> IsBlank(candidates[i])
    ensures r.Some? ==> exists k :: 0 <= k < |candidates| && candidates[k] == r.value
                                    && !IsBlank(candidates[k])
                                    && forall i :: 0 <= i < k ==> IsBlank(candidates[i])
  {
    if candidates == [] then None
    else if !IsBlank(candidates[0]) then Some(candidates[0])
    else
      var r := FirstNonBlank(candidates[1..]);
      assert r.Some? ==> exists k :: 0 <= k < |candidates| && candidates[k] == r.value
                                    && !IsBlank(candidates[k])
                                    && forall i :: 0 <= i < k ==> IsBlank(candidates[i]) by {
        if r.Some? {
          var k :| 0 <= k < |candidates[1..]| && candidates[1..][k] == r.value
                   && !IsBlank(candidates[1..][k])
                   && forall i :: 0 <= i < k ==> IsBlank(candidates[1..][i]);
          assert forall i :: 0 <= i < k + 1 ==> IsBlank(candidates[i]) by {
            forall i | 0 <= i < k + 1
              ensures IsBlank(candidates[i])
            {
              if i > 0 {
                assert candidates[i] == candidates[1..][i - 1];
              }
            }
          }
        }
      }
      r
  }

  /** The name a field is written under: `customNameSerialization`, else `customName`, else `value`. */
  function WriterName(a: FieldAnnotation): Option<string>
  {
    FirstNonBlank([a.customNameSerialization, a.customName, a.value])
  }

  /** The precedence spelled out: the first of the three that is not blank wins, untrimmed. */
  lemma WriterNamePrecedence(a: FieldAnnotation)
    ensures !IsBlank(a.customNameSerialization) ==> WriterName(a) == Some(a.customNameSerialization)
    ensures IsBlank(a.customNameSerialization) && !IsBlank(a.customName) ==> WriterName(a) == Some(a.customName)
    ensures IsBlank(a.customNameSerialization) && IsBlank(a.customName) && !IsBlank(a.value)
            ==> WriterName(a) == Some(a.value)
    ensures IsBlank(a.customNameSerialization) && IsBlank(a.customName) && IsBlank(a.value)
            ==> WriterName(a).None?
  {
    var cs := [a.customNameSerialization, a.customName, a.value];
    assert cs[0] == a.customNameSerialization && cs[1] == a.customName && cs[2] == a.value;
  }

  /**
   * JsonFieldInfoSerializationConverter.convert: the field's `value` as its
   * name, the writer name as its one custom name, the annotation's nested
   * serializer, and the pattern converted for writing (null when that
   * conversion fails). A null annotation, or one whose three candidate
   * names are all blank, raises a JsonException.
   */
  function SerializationDescriptor(input: Option<FieldAnnotation>, env: Env): (r: Result<FieldDescriptor, Fault>)
    ensures input.None? ==> r == Err(JsonException)
    ensures input.Some? ==> (r.Ok? <==> WriterName(input.value).Some?)
    ensures r.Err? ==> r.error == JsonException
    ensures r.Ok? ==> r.value.name == Some(input.value.value)
                      && r.value.customNames == Some([WriterName(input.value).value])
                      && r.value.serializerName == Some(input.value.serializerName)
                      && r.value.patternInfo == env.serializationPattern(input.value.pattern)
  {
    match input
    case None => Err(JsonException)
    case Some(a) =>
      match WriterName(a)
      case None => Err(JsonException)
      case Some(w) => Ok(FieldDescriptor(Some(a.value), Some([w]), Some(a.serializerName), env.serializationPattern(a.pattern)))
  }

  /**
   * The names a field is read under: every `customNamesDeserialization`
   * entry as given, then `customName` and `value` when they are not blank.
   */
  function ReaderNames(a: FieldAnnotation): (r: seq<string>)
    ensures |a.customNamesDeserialization| <= |r| <= |a.customNamesDeserialization| + 2
    ensures r[..|a.customNamesDeserialization|] == a.customNamesDeserialization
  {
    a.customNamesDeserialization + Present(a.customName) + Present(a.value)
  }

  /** A name as a one-element list, or the empty list when it is blank. */
  function Present(name: string): (r: seq<string>)
    ensures r == [] <==> IsBlank(name)
    ensures r != [] ==> r == [name]
  {
    if IsBlank(name) then [] else [name]
  }

  /**
   * After the listed aliases come `customName` and then `value`, each only
   * when it is not blank; the aliases themselves are kept even when blank.
   */
  lemma ReaderNamesOrder(a: FieldAnnotation)
    ensures var tail := ReaderNames(a)[|a.customNamesDeserialization|..];
            (!IsBlank(a.customName) && !IsBlank(a.value) ==> tail == [a.customName, a.value])
            && (!IsBlank(a.customName) && IsBlank(a.value) ==> tail == [a.customName])
            && (IsBlank(a.customName) && !IsBlank(a.value) ==> tail == [a.value])
            && (IsBlank(a.customName) && IsBlank(a.value) ==> tail == [])
  {
    var c := a.customNamesDeserialization;
    var p1 := Present(a.customName);
    var p2 := Present(a.value);
    assert ReaderNames(a) == c + (p1 + p2);
    assert (c + (p1 + p2))[|c|..] == p1 + p2;
  }

  /**
   * JsonPatternInfoDeserializationConverter.convert: `deserializePattern`
   * unless it is blank, else `value` (blank or not), with the locale and
   * time zone looked up from the annotation's strings. A null annotation
   * raises a JsonException.
   */
  function DeserializationPattern(input: Option<PatternAnnotation>, env: Env): (r: Result<Format, Fault>)
    ensures r.Ok? <==> input.Some?
    ensures input.None? ==> r == Err(JsonException)
    ensures r.Ok? ==> r.value.pattern.Some?
    ensures r.Ok? && !IsBlank(input.value.deserializePattern) ==> r.value.pattern == Some(input.value.deserializePattern)
    ensures r.Ok? && IsBlank(input.value.deserializePattern) ==> r.value.pattern == Some(input.value.value)
    ensures r.Ok? ==> r.value.locale == env.toLocale(Some(input.value.locale))
                      && r.value.timezone == env.toTimeZone(Some(input.value.timezone))
  {
    match input
    case None => Err(JsonException)
    case Some(p) =>
      var pattern := if IsBlank(p.deserializePattern) then p.value else p.deserializePattern;
      Ok(Format(Some(pattern), env.toLocale(Some(p.locale)), env.toTimeZone(Some(p.timezone))))
  }

  /** The pattern for writing is never consulted when reading. */
  lemma SerializePatternIgnored(p: PatternAnnotation, other: string, env: Env)
    ensures DeserializationPattern(Some(p.(serializePattern := other)), env) == DeserializationPattern(Some(p), env)
  {
  }

  /** A failed conversion is a null format. */
  function OkOrNull<T>(r: Result<T, Fault>): (o: Option<T>)
    ensures o.Some? <==> r.Ok?
    ensures r.Ok? ==> o.value == r.value
  {
    if r.Ok? then Some(r.value) else None
  }

  /**
   * JsonFieldInfoDeserializationConverter.convert: the field's `value` as
   * its name, the reader names as its custom names, no nested serializer
   * and the pattern converted for reading. A null annotation raises a
   * JsonException.
   */
  function DeserializationDescriptor(input: Option<FieldAnnotation>, env: Env): (r: Result<FieldDescriptor, Fault>)
    ensures r.Ok? <==> input.Some?
    ensures input.None? ==> r == Err(JsonException)
    ensures r.Ok? ==> r.value == Described(input.value.value, ReaderNames(input.value),
                                           OkOrNull(DeserializationPattern(Some(input.value.pattern), env)))
    ensures r.Ok? ==> r.value.patternInfo.Some?
  {
    match input
    case None => Err(JsonException)
    case Some(a) => Ok(Described(a.value, ReaderNames(a), OkOrNull(DeserializationPattern(Some(a.pattern), env))))
  }

  /**
   * The singular `customNameDeserialization` and `customNameSerialization`
   * never become reader names.
   */
  lemma ReaderNamesIgnoreSingular(a: FieldAnnotation, x: string, y: string, env: Env)
    ensures ReaderNames(a.(customNameDeserialization := x, customNameSerialization := y)) == ReaderNames(a)
    ensures DeserializationDescriptor(Some(a.(customNameDeserialization := x, customNameSerialization := y)), env)
            == DeserializationDescriptor(Some(a), env)
  {
  }
}
