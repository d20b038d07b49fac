/**
 * The Java side of the library, as values: native objects (the inputs of
 * `Json.toJson` and the results of `toJavaObject`), the classes they are
 * converted to, the annotations on fields and classes, and the platform
 * services the library calls but does not define (locale and time-zone
 * lookup, date formatting and parsing).
 *
 * Reflection is replaced by a class declaration that lists its fields in
 * declaration order, with each field's type, modifiers, getters and
 * annotations; an object is its class declaration plus the value each
 * field's getter returns. Values are finite trees, so cyclic object
 * graphs cannot be expressed.
 */
module Natives {
  import opened Wrappers
  import opened Numbers
  import opened Descriptors

  /** The date-and-time classes the library treats specially. */
  datatype TemporalKind = Date | LocalDate | LocalDateTime | LocalTime

  /** An enum constant: its enum class, `name()`, `ordinal()` and `toString()`. */
  datatype EnumConstant = EnumConstant(enumType: string, name: string, ordinal: nat, text: string)

  /** `@JsonPattern`; every member defaults to "". */
  datatype PatternAnnotation = PatternAnnotation(
    value: string,
    serializePattern: string,
    deserializePattern: string,
    locale: string,
    timezone: string)

  const DefaultPattern: PatternAnnotation := PatternAnnotation("", "", "", "", "")

  /**
   * `@JsonField`; the string members default to "", the alias list to
   * empty and the pattern to a default `@JsonPattern`.
   */
  datatype FieldAnnotation = FieldAnnotation(
    value: string,
    customName: string,
    customNameSerialization: string,
    customNameDeserialization: string,
    customNamesDeserialization: seq<string>,
    serializerName: string,
    pattern: PatternAnnotation)

  /** `@JsonSerializer`: a named serialization profile listing the fields it writes. */
  datatype Profile = Profile(name: string, fields: seq<FieldAnnotation>)

  /** A class's simple name; the anonymous classes, whose simple name is empty, are not modelled. */
  type ClassName = s: string | |s| > 0 witness "Object"

  /** A class a value can be converted to (`Class<T>`). */
  datatype Target =
    | TString
    | TCharacter
    | TBoolean
    | TNumeric(numeric: NumericClass)
    | TEnum(enumType: string)
    | TTemporal(kind: TemporalKind)
    | TCollection
    | TMap
    | TArray
    | TClass(decl: ClassDecl)

  /**
   * A declared field: its name and type, whether it is static, whether it
   * or its type carries `@JsonIgnore`, which getters its class declares
   * (`getX`, `isX`), and its `@JsonField` and `@JsonPattern` annotations.
   */
  datatype FieldDecl = FieldDecl(
    name: string,
    fieldType: Target,
    isStatic: bool,
    ignored: bool,
    hasGet: bool,
    hasIs: bool,
    annotation: Option<FieldAnnotation>,
    pattern: Option<PatternAnnotation>)

  /**
   * A user class: its simple name, its declared fields in order, its
   * `@JsonSerializers` container and single `@JsonSerializer` annotations,
   * whether `newInstance` succeeds, and the field values of a freshly
   * constructed instance.
   */
  datatype ClassDecl = ClassDecl(
    simpleName: ClassName,
    fields: seq<FieldDecl>,
    serializers: Option<seq<Profile>>,
    serializer: Option<Profile>,
    instantiable: bool,
    defaults: seq<Native>)

  /** A Java value. `NNull` is null. */
  datatype Native =
    | NNull
    | NBool(b: bool)
    | NArray(elements: seq<Native>)
    | NCollection(elements: seq<Native>)
    | NTemporal(kind: TemporalKind, instant: int)
    | NEnum(constant: EnumConstant)
    | NNumber(number: Number)
    | NChar(c: char)
    | NString(s: string)
    | NMap(entries: seq<MapEntry>)
    | NObject(decl: ClassDecl, values: seq<Native>)

  /** A map entry, in the map's iteration order. */
  datatype MapEntry = MapEntry(key: Native, value: Native)

  /** The exceptions the library lets escape. */
  datatype Fault = JsonException | NullPointer | IndexOutOfBounds

  /** The value of the `i`-th field of an object; a missing entry reads as null. */
  function FieldValue(values: seq<Native>, i: nat): Native
  {
    if i < |values| then values[i] else NNull
  }

  /**
   * A size for values, with null the smallest, used to show that the
   * recursions over nested values end.
   */
  function Size(v: Native): nat
  {
    match v
    case NNull => 0
    case NArray(es) => 1 + SizeOfAll(es)
    case NCollection(es) => 1 + SizeOfAll(es)
    case NMap(es) => 1 + SizeOfEntries(es)
    case NObject(_, vs) => 1 + SizeOfAll(vs)
    case _ => 1
  }

  function SizeOfAll(vs: seq<Native>): nat
  {
    if vs == [] then 0 else Size(vs[0]) + SizeOfAll(vs[1..])
  }

  function SizeOfEntries(es: seq<MapEntry>): nat
  {
    if es == [] then 0 else SizeOfEntry(es[0]) + SizeOfEntries(es[1..])
  }

  function SizeOfEntry(e: MapEntry): nat
  {
    Size(e.key) + Size(e.value)
  }

  /** Every element of a sequence is at most as large as the whole. */
  lemma {:induction false} SizeOfElement(vs: seq<Native>, i: nat)
    requires i < |vs|
    ensures Size(vs[i]) <= SizeOfAll(vs)
  {
    if i > 0 {
      SizeOfElement(vs[1..], i - 1);
    }
  }

  /** The numeric class of a target, if it has one. */
  predicate IsNumericTarget(t: Target)
  {
    t.TNumeric?
  }

  /**
   * The classes `JsonObject.toJavaObject` refuses: arrays, booleans,
   * characters, collections, dates, enums, maps, numbers and strings.
   */
  predicate IsBuiltIn(t: Target)
  {
    !t.TClass?
  }

  /** The class of a non-null value (`obj.getClass()`). */
  function ClassOf(v: Native): (t: Target)
    requires !v.NNull?
    ensures v.NObject? <==> t.TClass?
  {
    match v
    case NBool(_) => TBoolean
    case NArray(_) => TArray
    case NCollection(_) => TCollection
    case NTemporal(k, _) => TTemporal(k)
    case NEnum(e) => TEnum(e.enumType)
    case NNumber(n) => TNumeric(Numbers.ClassOf(n))
    case NChar(_) => TCharacter
    case NString(_) => TString
    case NMap(_) => TMap
    case NObject(d, _) => TClass(d)
  }

  /**
   * The platform services the library calls but does not define:
   * `Util.toLocale` and `Util.toTimeZone` (applied to a possibly null
   * string), the serialization-side pattern converter, and the
   * date-family nodes' formatting (`toJavaObject(String.class)`), their
   * conversion to other classes, and the parsing of text into dates.
   */
  datatype Env = Env(
    toLocale: Option<string> -> Option<Locale>,
    toTimeZone: Option<string> -> Option<TimeZone>,
    serializationPattern: PatternAnnotation -> Option<Format>,
    dateText: (TemporalKind, int, Option<Format>) -> string,
    dateConvert: (TemporalKind, int, Option<Format>, Target, Option<Format>) -> Native,
    dateParse: (string, TemporalKind, Option<Format>) -> Native)

}
