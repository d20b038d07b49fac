/**
 * Building a tree from a native value (`Json.toJson(name, obj, info)`):
 * the first matching kind decides the node (null, boolean, array,
 * collection, the date family, enum, number, character or string, and
 * anything else as an object), and a null or blank name is replaced by the
 * kind's default name. Arrays and collections become one element per
 * item; maps become one member per String key; other objects one member
 * per readable field (the JsonObject and JsonCollection constructors).
 */
module Construct {
  import opened Wrappers
  import opened JsonText
  import opened Numbers
  import opened Descriptors
  import opened Natives
  import opened Converters
  import opened Tree

  /** The default name of each kind; an object is named after its class, first letter lower-cased. */
  function DefaultName(v: Native): string
  {
    match v
    case NNull => NullName
    case NBool(_) => BooleanName
    case NArray(_) => CollectionName
    case NCollection(_) => CollectionName
    case NTemporal(k, _) =>
      (match k
       case Date => DateName
       case LocalDate => LocalDateName
       case LocalDateTime => LocalDateTimeName
       case LocalTime => LocalTimeName)
    case NEnum(_) => EnumName
    case NNumber(_) => NumberName
    case NChar(_) => StringName
    case NString(_) => StringName
    case NMap(_) => ObjectName
    case NObject(d, _) => Decapitalize(d.simpleName)
  }

  /** The given name, or the default when it is null or blank. */
  function NameOr(name: Option<string>, default: string): (r: string)
    ensures IsMissing(name) ==> r == default
    ensures !IsMissing(name) ==> r == name.value
  {
    if IsMissing(name) then default else name.value
  }

  /** The tree of a native value. */
  function ToJson(name: Option<string>, v: Native, info: Option<Format>, env: Env): (r: Node)
    ensures r.name == NameOr(name, DefaultName(v))
    ensures r.JNull? <==> v.NNull?
    ensures r.JBool? <==> v.NBool?
    ensures r.JCollection? <==> v.NArray? || v.NCollection?
    ensures r.JTemporal? <==> v.NTemporal?
    ensures r.JEnum? <==> v.NEnum?
    ensures r.JNumber? <==> v.NNumber?
    ensures r.JString? <==> v.NChar? || v.NString?
    ensures r.JObject? <==> v.NMap? || v.NObject?
    ensures WellFormed(r)
    decreases Size(v), 2, 0
  {
    var n := NameOr(name, DefaultName(v));
    match v
    case NNull => JNull(n)
    case NBool(b) => JBool(n, b)
    case NArray(es) => JCollection(n, NCollection(es), Items(es, info, env), info)
    case NCollection(es) => JCollection(n, v, Items(es, info, env), info)
    case NTemporal(k, t) => JTemporal(n, k, t, info)
    case NEnum(e) => JEnum(n, e)
    case NNumber(x) => JNumber(n, x)
    case NChar(c) => JString(n, [c])
    case NString(s) => JString(n, s)
    case NMap(_) => JObject(n, v, ObjectMembers(v, info, env), info)
    case NObject(_, _) => JObject(n, v, ObjectMembers(v, info, env), info)
  }

  /**
   * The members of an object node built from `v` (JsonObject.init): the
   * entries of a map, the fields of any other object, none for null.
   */
  function ObjectMembers(v: Native, info: Option<Format>, env: Env): (r: seq<Node>)
    requires v.NNull? || v.NMap? || v.NObject?
    ensures DistinctNames(r) && AllWellFormed(r)
    ensures v.NNull? ==> r == []
    decreases Size(v), 1, 0
  {
    match v
    case NNull => []
    case NMap(es) => MapMembers(es, [], info, env)
    case NObject(d, vs) => FieldMembers(d, vs, 0, [], info, env)
  }

  /** The elements of an array or a collection, each built with a null name, in order. */
  function Items(es: seq<Native>, info: Option<Format>, env: Env): (r: seq<Node>)
    ensures |r| == |es|
    ensures AllWellFormed(r)
    decreases SizeOfAll(es), 3, |es|
  {
    if es == [] then [] else [ToJson(None, es[0], info, env)] + Items(es[1..], info, env)
  }

  /** The members of a map: each String-keyed entry inserted in iteration order under its key. */
  function MapMembers(es: seq<MapEntry>, acc: seq<Node>, info: Option<Format>, env: Env): (r: seq<Node>)
    requires DistinctNames(acc) && AllWellFormed(acc)
    ensures DistinctNames(r) && AllWellFormed(r)
    decreases SizeOfEntries(es), 4, |es|
  {
    if es == [] then acc
    else
      assert SizeOfEntry(es[0]) <= SizeOfEntries(es);
      MapMembers(es[1..], MapStep(es[0], acc, info, env), info, env)
  }

  /** One entry of a map: inserted under its key when the key is a String, skipped otherwise. */
  function MapStep(e: MapEntry, acc: seq<Node>, info: Option<Format>, env: Env): (r: seq<Node>)
    requires DistinctNames(acc) && AllWellFormed(acc)
    ensures DistinctNames(r) && AllWellFormed(r)
    ensures !e.key.NString? ==> r == acc
    decreases SizeOfEntry(e), 3, 0
  {
    if e.key.NString? then
      assert Size(e.value) <= SizeOfEntry(e);
      var child := ToJson(Some(e.key.s), e.value, info, env);
      InsertWellFormed(acc, child);
      Insert(acc, child)
    else acc
  }

  /** Whether a field is written: not static, not ignored, and with a `get` or `is` getter. */
  predicate Written(f: FieldDecl)
  {
    !f.isStatic && !f.ignored && (f.hasGet || f.hasIs)
  }

  /**
   * The name a field is written under and the format its value is built
   * with: from `@JsonField` through the serialization converter, or the
   * field's own name and the caller's format when the field has no such
   * annotation or the converter refuses it.
   */
  function FieldWriting(f: FieldDecl, info: Option<Format>, env: Env): (r: (string, Option<Format>))
    ensures f.annotation.None? || WriterName(f.annotation.value).None? ==> r == (f.name, info)
    ensures f.annotation.Some? && WriterName(f.annotation.value).Some?
            ==> r == (WriterName(f.annotation.value).value, env.serializationPattern(f.annotation.value.pattern))
  {
    var converted := SerializationDescriptor(f.annotation, env);
    var d := if f.annotation.Some? && converted.Ok? then converted.value else Described(f.name, [f.name], info);
    (d.customNames.value[0], d.patternInfo)
  }

  /** The members of an object from its fields `i..`, inserted in declaration order. */
  function FieldMembers(d: ClassDecl, vs: seq<Native>, i: nat, acc: seq<Node>, info: Option<Format>, env: Env): (r: seq<Node>)
    requires i <= |d.fields|
    requires DistinctNames(acc) && AllWellFormed(acc)
    ensures DistinctNames(r) && AllWellFormed(r)
    decreases SizeOfAll(vs), 3, |d.fields| - i
  {
    if i == |d.fields| then acc
    else
      var f := d.fields[i];
      if !Written(f) then FieldMembers(d, vs, i + 1, acc, info, env)
      else
        var (member, format) := FieldWriting(f, info, env);
        FieldValueBound(vs, i);
        var child := ToJson(Some(member), FieldValue(vs, i), format, env);
        InsertWellFormed(acc, child);
        FieldMembers(d, vs, i + 1, Insert(acc, child), info, env)
  }

  lemma FieldValueBound(vs: seq<Native>, i: nat)
    ensures Size(FieldValue(vs, i)) <= SizeOfAll(vs)
  {
    if i < |vs| {
      SizeOfElement(vs, i);
    }
  }

  /** The elements are built one by one from the items, in order. */
  lemma {:induction false} ItemsInOrder(es: seq<Native>, info: Option<Format>, env: Env)
    ensures forall i :: 0 <= i < |es| ==> Items(es, info, env)[i] == ToJson(None, es[i], info, env)
  {
    if es != [] {
      ItemsInOrder(es[1..], info, env);
      forall i | 0 <= i < |es|
        ensures Items(es, info, env)[i] == ToJson(None, es[i], info, env)
      {
        if i > 0 {
          assert es[i] == es[1..][i - 1];
        }
      }
    }
  }

  /** A native array becomes a collection of the same length with its elements in order. */
  lemma ArrayKeepsOrder(name: Option<string>, es: seq<Native>, info: Option<Format>, env: Env)
    ensures var r := ToJson(name, NArray(es), info, env);
            r.JCollection? && |r.children| == |es|
            && (forall i :: 0 <= i < |es| ==> r.children[i] == ToJson(None, es[i], info, env))
            && NodeValue(r) == NCollection(es)
  {
    ItemsInOrder(es, info, env);
  }

  /** Every element of a collection is named after its kind. */
  lemma ElementsHaveDefaultNames(es: seq<Native>, info: Option<Format>, env: Env)
    ensures forall i :: 0 <= i < |es| ==> Items(es, info, env)[i].name == DefaultName(es[i])
  {
    ItemsInOrder(es, info, env);
  }

  /** Members already present keep their place and name while a map's entries are inserted. */
  lemma {:induction false} MapMembersKeepNames(es: seq<MapEntry>, acc: seq<Node>, info: Option<Format>, env: Env)
    requires DistinctNames(acc) && AllWellFormed(acc)
    ensures |acc| <= |MapMembers(es, acc, info, env)|
    ensures forall i :: 0 <= i < |acc| ==> MapMembers(es, acc, info, env)[i].name == acc[i].name
    decreases |es|
  {
    if es != [] {
      var next := MapStep(es[0], acc, info, env);
      MapStepKeepsNames(es[0], acc, info, env);
      MapMembersKeepNames(es[1..], next, info, env);
    }
  }

  /** One entry keeps the members already present in place. */
  lemma MapStepKeepsNames(e: MapEntry, acc: seq<Node>, info: Option<Format>, env: Env)
    requires DistinctNames(acc) && AllWellFormed(acc)
    ensures |acc| <= |MapStep(e, acc, info, env)|
    ensures forall i :: 0 <= i < |acc| ==> MapStep(e, acc, info, env)[i].name == acc[i].name
  {
    if e.key.NString? {
      var child := ToJson(Some(e.key.s), e.value, info, env);
      InsertWellFormed(acc, child);
      InsertKeepsNames(acc, child);
    }
  }

  /** One entry under a String key makes its key a member. */
  lemma MapStepMakesPresent(e: MapEntry, acc: seq<Node>, info: Option<Format>, env: Env)
    requires DistinctNames(acc) && AllWellFormed(acc)
    requires e.key.NString? && !IsBlank(e.key.s)
    ensures HasChildNamed(MapStep(e, acc, info, env), e.key.s)
  {
    var child := ToJson(Some(e.key.s), e.value, info, env);
    assert child.name == e.key.s;
    InsertWellFormed(acc, child);
    InsertMakesPresent(acc, child);
  }

  /** The first entry's String key is a member of the object. */
  lemma MapKeyPresentHere(es: seq<MapEntry>, acc: seq<Node>, info: Option<Format>, env: Env)
    requires DistinctNames(acc) && AllWellFormed(acc)
    requires es != [] && es[0].key.NString? && !IsBlank(es[0].key.s)
    ensures HasChildNamed(MapMembers(es, acc, info, env), es[0].key.s)
  {
    var r0 := MapStep(es[0], acc, info, env);
    MapStepMakesPresent(es[0], acc, info, env);
    var j :| 0 <= j < |r0| && r0[j].name == es[0].key.s;
    MapMembersKeepNames(es[1..], r0, info, env);
    assert MapMembers(es[1..], r0, info, env)[j].name == es[0].key.s;
  }

  /** Every entry of a map under a non-blank String key is a member of its object. */
  lemma {:induction false} MapKeysPresent(es: seq<MapEntry>, acc: seq<Node>, info: Option<Format>, env: Env, k: nat)
    requires DistinctNames(acc) && AllWellFormed(acc)
    requires k < |es| && es[k].key.NString? && !IsBlank(es[k].key.s)
    ensures HasChildNamed(MapMembers(es, acc, info, env), es[k].key.s)
    decreases |es|
  {
    if k == 0 {
      MapKeyPresentHere(es, acc, info, env);
    } else {
      var next := MapStep(es[0], acc, info, env);
      assert es[1..][k - 1] == es[k];
      MapKeysPresent(es[1..], next, info, env, k - 1);
      assert MapMembers(es, acc, info, env) == MapMembers(es[1..], next, info, env);
    }
  }

  /** Fields that are static, ignored or without a getter contribute nothing. */
  lemma {:induction false} UnwrittenFieldsSkipped(d: ClassDecl, vs: seq<Native>, i: nat, acc: seq<Node>, info: Option<Format>, env: Env)
    requires i <= |d.fields|
    requires DistinctNames(acc) && AllWellFormed(acc)
    requires forall k :: i <= k < |d.fields| ==> !Written(d.fields[k])
    ensures FieldMembers(d, vs, i, acc, info, env) == acc
    decreases |d.fields| - i
  {
    if i < |d.fields| {
      UnwrittenFieldsSkipped(d, vs, i + 1, acc, info, env);
    }
  }

  /**
   * The older `Json.toJson` of the com package: a null or blank name
   * becomes "value", and the dispatch is the io one. Its collection node
   * adds each element through the same older `toJson` with a null name,
   * so every element is named "value" too. The members of an object come
   * from the io `JsonObject`, the com one not being part of this model.
   */
  function LegacyToJson(name: Option<string>, v: Native, info: Option<Format>, env: Env): (r: Node)
    ensures r.name == NameOr(name, ValueName)
    ensures r.JCollection? <==> v.NArray? || v.NCollection?
    ensures r.JObject? <==> v.NMap? || v.NObject?
    ensures (v.NArray? || v.NCollection?) ==> |r.children| == |v.elements|
    ensures WellFormed(r)
    decreases Size(v), 3, 0
  {
    var n := NameOr(name, ValueName);
    if v.NArray? then LegacyCollection(n, NCollection(v.elements), v.elements, info, env)
    else if v.NCollection? then LegacyCollection(n, v, v.elements, info, env)
    else ToJson(Some(n), v, info, env)
  }

  /** The com `JsonCollection(name, value, info)`: its elements added one by one through the older `toJson`. */
  function LegacyCollection(name: string, raw: Native, es: seq<Native>, info: Option<Format>, env: Env): (r: Node)
    ensures r.JCollection? && r.name == name && r.raw == raw
    ensures r.children == LegacyItems(es, info, env) && |r.children| == |es|
    ensures WellFormed(r)
    decreases SizeOfAll(es), 5, 0
  {
    JCollection(name, raw, LegacyItems(es, info, env), info)
  }

  /** The elements of a collection in the com package: each built by the older `toJson` with a null name. */
  function LegacyItems(es: seq<Native>, info: Option<Format>, env: Env): (r: seq<Node>)
    ensures |r| == |es|
    ensures AllWellFormed(r)
    decreases SizeOfAll(es), 4, |es|
  {
    if es == [] then [] else [LegacyToJson(None, es[0], info, env)] + LegacyItems(es[1..], info, env)
  }

  /** The element at `i` of a com collection is the older `toJson` of the element at `i`. */
  lemma {:induction false} LegacyItemAt(es: seq<Native>, i: nat, info: Option<Format>, env: Env)
    requires i < |es|
    ensures LegacyItems(es, info, env)[i] == LegacyToJson(None, es[i], info, env)
    decreases i
  {
    if i > 0 {
      LegacyItemAt(es[1..], i - 1, info, env);
      assert es[1..][i - 1] == es[i];
    }
  }

  /** Every element of a collection built by the com package is named "value", whatever its kind. */
  lemma LegacyItemsNamedValue(es: seq<Native>, info: Option<Format>, env: Env)
    ensures forall i :: 0 <= i < |es| ==> LegacyItems(es, info, env)[i].name == ValueName
  {
    forall i | 0 <= i < |es|
      ensures LegacyItems(es, info, env)[i].name == ValueName
    {
      LegacyItemAt(es, i, info, env);
    }
  }

  /**
   * Outside collections the two packages agree once the name is given:
   * the older `toJson` differs only in the default name it supplies.
   */
  lemma LegacyAgreesOnScalars(name: Option<string>, v: Native, info: Option<Format>, env: Env)
    requires !v.NArray? && !v.NCollection?
    ensures LegacyToJson(name, v, info, env) == ToJson(Some(NameOr(name, ValueName)), v, info, env)
    ensures !IsMissing(name) ==> LegacyToJson(name, v, info, env) == ToJson(name, v, info, env)
  {
  }
}
