/**
 * The named-profile serializer (JsonSerializerImpl of the io package) and
 * the `Json.serialize` / `Json.fromSerializer` entry points that call it.
 *
 * A class may carry several named profiles (`@JsonSerializers`) or a single
 * one (`@JsonSerializer`). A profile lists fields by dotted property path;
 * each path is read through "get" getters, and each segment becomes an
 * object named by the matching segment of the field's custom name. The
 * result is an object named "object". Reflection is replaced by the
 * described object of `Natives`: a declaration with its fields, each with
 * or without a `get` getter, and the field values.
 */
module Profiles {
  import opened Wrappers
  import opened JsonText
  import opened Descriptors
  import opened Natives
  import opened Converters
  import opened Tree
  import Construct
  import Render

  /** `getterName`: "get" followed by the field name with its first letter upper-cased. */
  function GetterName(name: string): (r: string)
    requires name != ""
    ensures |r| == |name| + 3 && r[..3] == "get"
    ensures r[4..] == name[1..] && r[3] == UpperAscii(name[0])
  {
    "get" + Capitalize(name)
  }

  /** A getter name gives back the field name, for a field whose name starts with a lower-case letter. */
  lemma GetterNameRoundTrip(name: string)
    requires name != "" && 'a' <= name[0] <= 'z'
    ensures Decapitalize(GetterName(name)[3..]) == name
  {
    assert GetterName(name)[3..] == Capitalize(name);
    DecapitalizeCapitalize(name);
  }

  /** The index of the first declared field with that name, or the number of fields. */
  function FieldIndex(fs: seq<FieldDecl>, name: string): (k: nat)
    ensures k <= |fs|
    ensures forall i :: 0 <= i < k ==> fs[i].name != name
    ensures k < |fs| ==> fs[k].name == name
  {
    if fs == [] then 0 else if fs[0].name == name then 0 else 1 + FieldIndex(fs[1..], name)
  }

  /**
   * `getValue(name, obj)`: what the field's `get` getter returns, or null
   * when the class declares no such field or no such getter. A null object
   * throws a NullPointerException, which is not caught.
   */
  function GetValue(name: string, obj: Native): (r: Result<Native, Fault>)
    ensures r.Err? <==> obj.NNull?
    ensures r.Err? ==> r.error == NullPointer
    ensures r.Ok? ==> Size(r.value) < Size(obj)
    ensures obj.NObject? && FieldIndex(obj.decl.fields, name) < |obj.decl.fields|
            && obj.decl.fields[FieldIndex(obj.decl.fields, name)].hasGet
            ==> r == Ok(FieldValue(obj.values, FieldIndex(obj.decl.fields, name)))
    ensures !obj.NObject? && !obj.NNull? ==> r == Ok(NNull)
  {
    match obj
    case NNull => Err(NullPointer)
    case NObject(d, vs) =>
      var k := FieldIndex(d.fields, name);
      if k < |d.fields| && d.fields[k].hasGet then
        Construct.FieldValueBound(vs, k);
        Ok(FieldValue(vs, k))
      else Ok(NNull)
    case _ => Ok(NNull)
  }

  /** A field that is not declared, or declared without a `get` getter, reads as null. */
  lemma MissingGetterReadsNull(name: string, obj: Native)
    requires obj.NObject?
    requires forall i :: 0 <= i < |obj.decl.fields| && obj.decl.fields[i].name == name ==> !obj.decl.fields[i].hasGet
    ensures GetValue(name, obj) == Ok(NNull)
  {
    var k := FieldIndex(obj.decl.fields, name);
    if k < |obj.decl.fields| {
      assert obj.decl.fields[k].name == name;
    }
  }

  /** The index of the first profile with that name, or the number of profiles. */
  function ProfileIndex(ps: seq<Profile>, name: string): (k: nat)
    ensures k <= |ps|
    ensures forall i :: 0 <= i < k ==> ps[i].name != name
    ensures k < |ps| ==> ps[k].name == name
  {
    if ps == [] then 0 else if ps[0].name == name then 0 else 1 + ProfileIndex(ps[1..], name)
  }

  /**
   * The custom segments padded in front with the leading path segments
   * when the path has more segments (the first loop of `toJson(obj, fieldInfo)`).
   */
  function Padded(names: seq<string>, customs: seq<string>): (r: seq<string>)
    ensures |r| == if |names| > |customs| then |names| else |customs|
    ensures |names| > |customs| ==> r[..|names| - |customs|] == names[..|names| - |customs|]
    ensures r[|r| - |customs|..] == customs
  {
    if |names| > |customs| then names[..|names| - |customs|] + customs else customs
  }

  /** The segment at index `i` once a blank custom segment is replaced by the path segment. */
  function Segment(names: seq<string>, padded: seq<string>, i: nat): string
    requires i < |padded|
  {
    if IsBlank(padded[i]) && i < |names| then names[i] else padded[i]
  }

  /**
   * The padded custom names with every blank segment replaced by the path
   * segment at the same index (the second loop of `toJson(obj, fieldInfo)`).
   * A blank segment past the end of the path has no such segment and throws
   * an IndexOutOfBoundsException.
   */
  function Fill(names: seq<string>, padded: seq<string>): (r: Result<seq<string>, Fault>)
    ensures r.Err? <==> exists i :: |names| <= i < |padded| && IsBlank(padded[i])
    ensures r.Err? ==> r.error == IndexOutOfBounds
    ensures r.Ok? ==> |r.value| == |padded|
  {
    if exists i :: |names| <= i < |padded| && IsBlank(padded[i]) then Err(IndexOutOfBounds)
    else Ok(seq(|padded|, i requires 0 <= i < |padded| => Segment(names, padded, i)))
  }

  /** The custom names aligned to a path: padded in front, then filled in. */
  function Align(names: seq<string>, customs: seq<string>): (r: Result<seq<string>, Fault>)
    ensures r.Err? <==> exists i :: |names| <= i < |customs| && IsBlank(customs[i])
    ensures r.Err? ==> r.error == IndexOutOfBounds
    ensures r.Ok? ==> |r.value| >= |names| && |r.value| >= |customs|
  {
    var padded := Padded(names, customs);
    assert |customs| > |names| ==> padded == customs;
    Fill(names, padded)
  }

  /** The first loop of `toJson(obj, fieldInfo)`: the missing leading path segments inserted one by one. */
  method PadFront(names: seq<string>, customNames: seq<string>) returns (customs: seq<string>)
    ensures customs == Padded(names, customNames)
  {
    customs := customNames;
    var size := |names|;
    var customSize := |customs|;
    if size > customSize {
      for i := 0 to size - customSize
        invariant customs == names[..i] + customNames
      {
        customs := customs[..i] + [names[i]] + customs[i..];
      }
    }
  }

  /** The second loop of `toJson(obj, fieldInfo)`: each blank segment set to the path segment. */
  method FillBlanks(names: seq<string>, padded: seq<string>) returns (r: Result<seq<string>, Fault>)
    ensures r == Fill(names, padded)
  {
    var customs := padded;
    for i := 0 to |customs|
      invariant |customs| == |padded|
      invariant forall k :: 0 <= k < i ==> customs[k] == Segment(names, padded, k)
      invariant forall k :: i <= k < |customs| ==> customs[k] == padded[k]
      invariant forall k :: |names| <= k < i ==> !IsBlank(padded[k])
    {
      if IsBlank(customs[i]) {
        if i >= |names| {
          return Err(IndexOutOfBounds);
        }
        customs := customs[i := names[i]];
      }
    }
    assert customs == seq(|padded|, i requires 0 <= i < |padded| => Segment(names, padded, i));
    return Ok(customs);
  }

  /** Both loops of `toJson(obj, fieldInfo)`, before the path is built. */
  method AlignNames(names: seq<string>, customNames: seq<string>) returns (r: Result<seq<string>, Fault>)
    ensures r == Align(names, customNames)
  {
    var customs := PadFront(names, customNames);
    r := FillBlanks(names, customs);
  }

  /** The leading segments of the path fill the custom names in front when the custom name is shorter. */
  lemma AlignPadsFront(names: seq<string>, customs: seq<string>)
    requires Align(names, customs).Ok? && |names| > |customs|
    ensures Align(names, customs).value[..|names| - |customs|] == names[..|names| - |customs|]
  {
    var padded := Padded(names, customs);
    var a := Fill(names, padded).value;
    forall i | 0 <= i < |names| - |customs|
      ensures a[i] == names[i]
    {
      assert padded[i] == names[i];
      assert a[i] == Segment(names, padded, i);
    }
  }

  /** The custom segments sit at the end of the aligned names, a blank one replaced by the path segment. */
  lemma AlignKeepsCustoms(names: seq<string>, customs: seq<string>, k: nat)
    requires Align(names, customs).Ok? && k < |customs|
    ensures var a := Align(names, customs).value;
            var i := |a| - |customs| + k;
            a[i] == if IsBlank(customs[k]) && i < |names| then names[i] else customs[k]
  {
    var padded := Padded(names, customs);
    var a := Fill(names, padded).value;
    var i := |a| - |customs| + k;
    assert padded[i] == customs[k];
    assert a[i] == Segment(names, padded, i);
  }

  /** A custom name equal to the path leaves the path as it is. */
  lemma AlignSelf(names: seq<string>)
    ensures Align(names, names) == Ok(names)
  {
    assert Padded(names, names) == names;
    var a := Fill(names, names).value;
    forall i | 0 <= i < |names|
      ensures a[i] == names[i]
    {
      assert a[i] == Segment(names, names, i);
    }
    assert a == names;
  }

  /** A one-segment path with a non-blank one-segment custom name takes the custom name. */
  lemma AlignSingle(name: string, custom: string)
    requires !IsBlank(custom)
    ensures Align([name], [custom]) == Ok([custom])
  {
    assert Padded([name], [custom]) == [custom];
    var a := Fill([name], [custom]).value;
    assert a[0] == Segment([name], [custom], 0);
    assert a == [custom];
  }

  /** Aligning an already aligned list of custom names changes nothing. */
  lemma AlignIdempotent(names: seq<string>, customs: seq<string>)
    requires Align(names, customs).Ok?
    ensures Align(names, Align(names, customs).value) == Align(names, customs)
  {
    var padded := Padded(names, customs);
    var a := Fill(names, padded).value;
    assert Padded(names, a) == a;
    forall i | 0 <= i < |a|
      ensures Segment(names, a, i) == a[i]
      ensures i >= |names| ==> !IsBlank(a[i])
    {
      assert a[i] == Segment(names, padded, i);
    }
    FillSettled(names, a);
  }

  /** Names that filling would not change, with no blank past the path, fill to themselves. */
  lemma FillSettled(names: seq<string>, a: seq<string>)
    requires forall i :: 0 <= i < |a| ==> Segment(names, a, i) == a[i]
    requires forall i :: |names| <= i < |a| ==> !IsBlank(a[i])
    ensures Fill(names, a) == Ok(a)
  {
    var b := seq(|a|, i requires 0 <= i < |a| => Segment(names, a, i));
    assert b == a;
  }

  /** The node of a value read through a profile by name: null when the name or the value does not select a profile. */
  function Serialize(name: Option<string>, obj: Native, env: Env): (r: Result<Option<Node>, Fault>)
    ensures IsMissing(name) || !obj.NObject? ==> r == Ok(None)
    ensures r == Err(JsonException) <==>
              !IsMissing(name) && obj.NObject? && obj.decl.serializers.Some?
              && ProfileIndex(obj.decl.serializers.value, name.value) == |obj.decl.serializers.value|
    ensures !IsMissing(name) && obj.NObject? && obj.decl.serializers.None?
            && (obj.decl.serializer.None? || obj.decl.serializer.value.name != name.value)
            ==> r == Ok(None)
    ensures r.Ok? && r.value.Some? ==> r.value.value.JObject? && r.value.value.name == ObjectName && WellFormed(r.value.value)
    decreases Size(obj), 4, 0
  {
    if IsMissing(name) || !obj.NObject? then Ok(None)
    else
      var d := obj.decl;
      if d.serializers.Some? then
        var k := ProfileIndex(d.serializers.value, name.value);
        if k == |d.serializers.value| then Err(JsonException)
        else
          Output(SerializeWith(d.serializers.value[k], obj, env))
      else if d.serializer.Some? && d.serializer.value.name == name.value then
        Output(SerializeWith(d.serializer.value, obj, env))
      else Ok(None)
  }

  /** The profile's object as a possibly null result, or the exception that ended it. */
  function Output(s: Result<Node, Fault>): (r: Result<Option<Node>, Fault>)
    ensures r.Ok? <==> s.Ok?
    ensures r.Ok? ==> r.value == Some(s.value)
    ensures r.Err? ==> r.error == s.error
  {
    if s.Ok? then Ok(Some(s.value)) else Err(s.error)
  }

  /**
   * `serialize(serializer, obj)`: an object named "object" into which the
   * node of every profile field is added in the declared order.
   */
  function SerializeWith(p: Profile, obj: Native, env: Env): (r: Result<Node, Fault>)
    ensures r.Err? ==> r.error != JsonException
    ensures r.Ok? ==> r.value.JObject? && r.value.name == ObjectName && r.value.raw == NNull && r.value.info.None?
    ensures r.Ok? ==> WellFormed(r.value)
    decreases Size(obj), 3, 0
  {
    var members := ProfileMembers(p.fields, obj, [], env);
    if members.Ok? then Ok(JObject(ObjectName, NNull, members.value, None)) else Err(members.error)
  }

  /**
   * The children of the profile's object after the fields `fs` are added to
   * `acc`, one `MemberStep` per field in the declared order. The first
   * exception ends the stream.
   */
  function ProfileMembers(fs: seq<FieldAnnotation>, obj: Native, acc: seq<Node>, env: Env): (r: Result<seq<Node>, Fault>)
    requires DistinctNames(acc) && AllWellFormed(acc)
    ensures r.Ok? ==> DistinctNames(r.value) && AllWellFormed(r.value)
    ensures r.Err? ==> r.error != JsonException
    decreases Size(obj), 2, |fs|
  {
    if fs == [] then Ok(acc)
    else
      var step := MemberStep(fs[0], obj, acc, env);
      if step.Err? then Err(step.error) else ProfileMembers(fs[1..], obj, step.value, env)
  }

  /**
   * One field added to the children collected so far: a field with a blank
   * `value` is skipped, so is one the serialization converter refuses, and
   * a null node is dropped by `addChild`; otherwise the node is added.
   */
  function MemberStep(f: FieldAnnotation, obj: Native, acc: seq<Node>, env: Env): (r: Result<seq<Node>, Fault>)
    requires DistinctNames(acc) && AllWellFormed(acc)
    ensures r.Ok? ==> DistinctNames(r.value) && AllWellFormed(r.value)
    ensures r.Err? ==> r.error != JsonException
    ensures IsBlank(f.value) ==> r == Ok(acc)
    decreases Size(obj), 2, 0
  {
    if IsBlank(f.value) then Ok(acc)
    else
      var fi := SerializationDescriptor(Some(f), env);
      if fi.Err? then Ok(acc)
      else
        var j := FieldJson(obj, fi.value, env);
        if j.Err? then Err(j.error)
        else if j.value.None? then Ok(acc)
        else
          InsertWellFormed(acc, j.value.value);
          Ok(Insert(acc, j.value.value))
  }

  /** `toJson(obj, fieldInfo)`: the node of one profile field, from its path and its aligned custom name. */
  function FieldJson(obj: Native, fi: FieldDescriptor, env: Env): (r: Result<Option<Node>, Fault>)
    requires fi.name.Some? && fi.customNames.Some? && |fi.customNames.value| > 0 && fi.serializerName.Some?
    ensures r.Err? ==> r.error != JsonException
    ensures r.Ok? && r.value.Some? ==> WellFormed(r.value.value)
    decreases Size(obj), 1, 0
  {
    var names := SplitDot(fi.name.value);
    var customs := Align(names, SplitDot(fi.customNames.value[0]));
    if customs.Err? then Err(customs.error) else Build(names, customs.value, obj, fi, env)
  }

  /** The node `new JsonObject(name)` creates: an empty object without a value or a format. */
  function Holder(name: string): (r: Node)
    ensures r.JObject? && r.name == name && r.children == [] && WellFormed(r)
  {
    JObject(name, NNull, [], None)
  }

  /**
   * `toJson(names, customNames, obj, fieldInfo)`. The first segment's value
   * is read from `obj`. With a nested serializer name, the node is an
   * object named by the custom segment holding the children of the nested
   * profile's output, empty when that profile is missing; a null output
   * throws, and the rest of the path is not used. Otherwise a non-final
   * segment wraps the node of the rest of the path, and a final one is the
   * value's own node, or null when the value is null.
   */
  function Build(names: seq<string>, customs: seq<string>, obj: Native, fi: FieldDescriptor, env: Env): (r: Result<Option<Node>, Fault>)
    requires |customs| >= |names|
    requires fi.serializerName.Some?
    ensures names == [] ==> r == Err(IndexOutOfBounds)
    ensures names != [] && obj.NNull? ==> r == Err(NullPointer)
    ensures r.Err? ==> r.error != JsonException
    ensures r.Ok? && r.value.Some? ==> WellFormed(r.value.value)
    ensures r.Ok? && r.value.Some? && !IsBlank(customs[0]) ==> r.value.value.name == customs[0]
    ensures r.Ok? && r.value.Some? && (|names| > 1 || !IsBlank(fi.serializerName.value)) ==> r.value.value.JObject?
    decreases Size(obj), 0, |names|
  {
    if names == [] then Err(IndexOutOfBounds)
    else
      var v := GetValue(names[0], obj);
      if v.Err? then Err(v.error)
      else
        var holder := Holder(customs[0]);
        if !IsBlank(fi.serializerName.value) then SerializedHolder(customs[0], fi.serializerName, v.value, env)
        else if |names| > 1 then
          var c := Build(names[1..], customs[1..], v.value, fi, env);
          if c.Err? then Err(c.error)
          else if c.value.None? then Ok(Some(holder))
          else
            AddChildWellFormed(holder, c.value.value);
            Ok(Some(AddChild(holder, c.value.value)))
        else if v.value.NNull? then Ok(None)
        else Ok(Some(Construct.ToJson(Some(customs[0]), v.value, fi.patternInfo, env)))
  }

  /**
   * The node for a value with a nested serializer name: an object under
   * the given name holding the members the named profile gives the value,
   * empty when no profile bears the name.
   */
  function SerializedHolder(name: string, serializer: Option<string>, v: Native, env: Env): (r: Result<Option<Node>, Fault>)
    ensures r.Err? ==> r.error != JsonException
    ensures r.Ok? ==> r.value.Some? && r.value.value.JObject? && r.value.value.name == name && WellFormed(r.value.value)
    decreases Size(v), 5, 0
  {
    var holder := Holder(name);
    var s := Serialize(serializer, v, env);
    if s == Err(JsonException) then Ok(Some(holder))
    else if s.Err? then Err(s.error)
    else if s.value.None? then Err(NullPointer)
    else
      HolderTakesMembers(name, s.value.value);
      Ok(Some(AddChildren(holder, s.value.value.children)))
  }

  /** The members of a well-formed object added to an empty holder make a well-formed object of the holder's name. */
  lemma HolderTakesMembers(name: string, n: Node)
    requires n.JObject? && WellFormed(n)
    ensures var r := AddChildren(Holder(name), n.children);
            r.JObject? && r.name == name && WellFormed(r)
  {
    InsertAllWellFormed([], n.children);
    AddChildrenIsInsertAll(Holder(name), n.children);
  }

  /** `Json.fromSerializer`: a missing profile (a JsonException) gives null; other exceptions escape. */
  function FromSerializer(name: Option<string>, obj: Native, env: Env): (r: Result<Option<Node>, Fault>)
    ensures r.Err? ==> r.error != JsonException
    ensures r.Ok? && r.value.Some? ==> r.value.value.JObject? && r.value.value.name == ObjectName
  {
    var s := Serialize(name, obj, env);
    if s == Err(JsonException) then Ok(None) else s
  }

  /**
   * `Json.serialize`: the compact text of the profile's output. A null
   * output, or a NullPointerException on the way, gives null; only an
   * IndexOutOfBoundsException escapes.
   */
  function JsonSerialize(name: Option<string>, obj: Native, env: Env): (r: Result<Option<string>, Fault>)
    ensures r.Err? ==> r.error == IndexOutOfBounds
    ensures r.Ok? && r.value.Some? ==> FromSerializer(name, obj, env).Ok? && FromSerializer(name, obj, env).value.Some?
  {
    var s := FromSerializer(name, obj, env);
    if s.Ok? && s.value.Some? then Ok(Some(Render.Compact(s.value.value, Render.Root, env)))
    else if s.Ok? || s.error == NullPointer then Ok(None)
    else Err(s.error)
  }

  /** `Json.prettySerialize(name, obj, tab)`: the same, with the indented text. */
  function JsonPrettySerialize(name: Option<string>, obj: Native, tab: string, sep: string, env: Env): (r: Result<Option<string>, Fault>)
    ensures r.Err? ==> r.error == IndexOutOfBounds
  {
    var s := FromSerializer(name, obj, env);
    if s.Ok? && s.value.Some? then Ok(Some(Render.Pretty(s.value.value, Render.Root, 0, tab, sep, env)))
    else if s.Ok? || s.error == NullPointer then Ok(None)
    else Err(s.error)
  }

  /** The pretty text is the compact text with layout added, and both give null or throw alike. */
  lemma PrettySerializeIsSerialize(name: Option<string>, obj: Native, tab: string, sep: string, env: Env)
    requires Render.AllLayout(tab) && Render.AllLayout(sep)
    ensures JsonPrettySerialize(name, obj, tab, sep, env).Ok? <==> JsonSerialize(name, obj, env).Ok?
    ensures JsonPrettySerialize(name, obj, tab, sep, env).Ok?
            ==> (JsonPrettySerialize(name, obj, tab, sep, env).value.None? <==> JsonSerialize(name, obj, env).value.None?)
    ensures JsonPrettySerialize(name, obj, tab, sep, env).Ok? && JsonSerialize(name, obj, env).Ok?
            && JsonSerialize(name, obj, env).value.Some?
            ==> Render.Strip(JsonPrettySerialize(name, obj, tab, sep, env).value.value)
                == Render.Strip(JsonSerialize(name, obj, env).value.value)
  {
    var s := FromSerializer(name, obj, env);
    if s.Ok? && s.value.Some? {
      Render.PrettyIsCompactWithLayout(s.value.value, Render.Root, 0, tab, sep, env);
    }
  }

  /** The first profile with the requested name is the one used, whatever follows it. */
  lemma FirstMatchingProfileUsed(name: string, obj: Native, env: Env, k: nat)
    requires !IsBlank(name) && obj.NObject? && obj.decl.serializers.Some?
    requires k < |obj.decl.serializers.value| && obj.decl.serializers.value[k].name == name
    requires forall i :: 0 <= i < k ==> obj.decl.serializers.value[i].name != name
    ensures Serialize(Some(name), obj, env) == Output(SerializeWith(obj.decl.serializers.value[k], obj, env))
  {
    var ps := obj.decl.serializers.value;
    var j := ProfileIndex(ps, name);
    assert j <= k;
    assert j == k;
  }

  /** A single profile whose name matches is used. */
  lemma SingleProfileUsed(name: string, obj: Native, env: Env)
    requires !IsBlank(name) && obj.NObject? && obj.decl.serializers.None?
    requires obj.decl.serializer.Some? && obj.decl.serializer.value.name == name
    ensures Serialize(Some(name), obj, env) == Output(SerializeWith(obj.decl.serializer.value, obj, env))
  {
  }

  /** Neither entry point throws because a profile is missing: both give null. */
  lemma MissingProfileGivesNull(name: string, obj: Native, env: Env)
    requires !IsBlank(name) && obj.NObject? && obj.decl.serializers.Some?
    requires forall i :: 0 <= i < |obj.decl.serializers.value| ==> obj.decl.serializers.value[i].name != name
    ensures FromSerializer(Some(name), obj, env) == Ok(None)
    ensures JsonSerialize(Some(name), obj, env) == Ok(None)
  {
    var ps := obj.decl.serializers.value;
    assert ProfileIndex(ps, name) == |ps|;
  }

  /** Any field with a non-blank `value` is accepted by the serialization converter. */
  lemma ConverterAcceptsNamedFields(a: FieldAnnotation, env: Env)
    requires !IsBlank(a.value)
    ensures SerializationDescriptor(Some(a), env).Ok?
  {
    WriterNamePrecedence(a);
  }

  /** Removing a field with a blank `value` from a profile changes nothing. */
  lemma {:induction false} BlankFieldSkipped(fs: seq<FieldAnnotation>, i: nat, obj: Native, acc: seq<Node>, env: Env)
    requires i < |fs| && IsBlank(fs[i].value)
    requires DistinctNames(acc) && AllWellFormed(acc)
    ensures ProfileMembers(fs[..i] + fs[i + 1..], obj, acc, env) == ProfileMembers(fs, obj, acc, env)
    decreases i
  {
    var rest := fs[..i] + fs[i + 1..];
    DropAt(fs, i);
    ProfileMembersUnfold(fs, obj, acc, env);
    var step := MemberStep(fs[0], obj, acc, env);
    if i > 0 {
      ProfileMembersUnfold(rest, obj, acc, env);
      if step.Ok? {
        BlankFieldSkipped(fs[1..], i - 1, obj, step.value, env);
      }
    }
  }

  /** One field taken off the front of the stream. */
  lemma ProfileMembersUnfold(fs: seq<FieldAnnotation>, obj: Native, acc: seq<Node>, env: Env)
    requires fs != [] && DistinctNames(acc) && AllWellFormed(acc)
    ensures var step := MemberStep(fs[0], obj, acc, env);
            ProfileMembers(fs, obj, acc, env) == if step.Err? then Err(step.error) else ProfileMembers(fs[1..], obj, step.value, env)
  {
  }

  /** The list without position `i`: the tail when `i` is 0, else the same head before the tail without position `i - 1`. */
  lemma DropAt<T>(fs: seq<T>, i: nat)
    requires i < |fs|
    ensures i == 0 ==> fs[..i] + fs[i + 1..] == fs[1..]
    ensures i > 0 ==> var rest := fs[..i] + fs[i + 1..];
                      rest != [] && rest[0] == fs[0] && rest[1..] == fs[1..][..i - 1] + fs[1..][i..] && fs[1..][i - 1] == fs[i]
  {
    var rest := fs[..i] + fs[i + 1..];
    if i > 0 {
      assert rest[1..] == fs[1..][..i - 1] + fs[1..][i..];
    }
  }


  /** A one-segment field whose value is null, without a nested serializer, adds nothing. */
  lemma NullLeafDropped(f: FieldAnnotation, fs: seq<FieldAnnotation>, obj: Native, acc: seq<Node>, env: Env)
    requires !IsBlank(f.value) && '.' !in f.value && IsBlank(f.serializerName)
    requires WriterName(f).Some? && '.' !in WriterName(f).value
    requires GetValue(f.value, obj) == Ok(NNull)
    requires DistinctNames(acc) && AllWellFormed(acc)
    ensures ProfileMembers([f] + fs, obj, acc, env) == ProfileMembers(fs, obj, acc, env)
  {
    NullLeafStep(f, obj, acc, env);
    assert ([f] + fs)[1..] == fs;
    ProfileMembersUnfold([f] + fs, obj, acc, env);
  }

  /** The turn of such a field leaves the children as they are. */
  lemma NullLeafStep(f: FieldAnnotation, obj: Native, acc: seq<Node>, env: Env)
    requires !IsBlank(f.value) && '.' !in f.value && IsBlank(f.serializerName)
    requires WriterName(f).Some? && '.' !in WriterName(f).value
    requires GetValue(f.value, obj) == Ok(NNull)
    requires DistinctNames(acc) && AllWellFormed(acc)
    ensures MemberStep(f, obj, acc, env) == Ok(acc)
  {
    var fi := SerializationDescriptor(Some(f), env);
    var w := WriterName(f).value;
    assert !IsBlank(w) by { WriterNamePrecedence(f); }
    NullLeafJson(f.value, w, obj, fi.value, env);
  }

  /** The node of a one-segment path whose value is null is null. */
  lemma NullLeafJson(name: string, w: string, obj: Native, fi: FieldDescriptor, env: Env)
    requires fi.name == Some(name) && fi.customNames == Some([w])
    requires fi.serializerName.Some? && IsBlank(fi.serializerName.value)
    requires '.' !in name && '.' !in w && !IsBlank(w)
    requires GetValue(name, obj) == Ok(NNull)
    ensures FieldJson(obj, fi, env) == Ok(None)
  {
    assert SplitDot(name) == [name];
    assert SplitDot(w) == [w];
    AlignSingle(name, w);
  }


  /**
   * A two-segment path without a nested serializer becomes an object named
   * by the first custom segment holding the node of the second property.
   */
  lemma DottedPathNests(a: string, b: string, x: string, y: string, obj: Native, fi: FieldDescriptor, env: Env, u: Native, w: Native)
    requires fi.serializerName.Some? && IsBlank(fi.serializerName.value)
    requires GetValue(a, obj) == Ok(u) && GetValue(b, u) == Ok(w) && !w.NNull?
    ensures Build([a, b], [x, y], obj, fi, env) == Ok(Some(JObject(x, NNull, [Construct.ToJson(Some(y), w, fi.patternInfo, env)], None)))
  {
    var leaf := Construct.ToJson(Some(y), w, fi.patternInfo, env);
    assert Build([b], [y], u, fi, env) == Ok(Some(leaf));
    assert IndexOfName([], leaf.name) == 0;
    assert Insert([], leaf) == [leaf];
  }

  /** A null property in the middle of a path throws a NullPointerException, which `Json.serialize` turns into null. */
  lemma NullIntermediateThrows(names: seq<string>, customs: seq<string>, obj: Native, fi: FieldDescriptor, env: Env)
    requires |names| > 1 && |customs| >= |names|
    requires fi.serializerName.Some? && IsBlank(fi.serializerName.value)
    requires GetValue(names[0], obj) == Ok(NNull)
    ensures Build(names, customs, obj, fi, env) == Err(NullPointer)
  {
    assert Build(names[1..], customs[1..], NNull, fi, env) == Err(NullPointer);
  }

  /** Custom segments beyond the length of the path are never used. */
  lemma {:induction false} ExtraCustomsIgnored(names: seq<string>, customs: seq<string>, extra: seq<string>, obj: Native, fi: FieldDescriptor, env: Env)
    requires |customs| >= |names| && fi.serializerName.Some?
    ensures Build(names, customs + extra, obj, fi, env) == Build(names, customs, obj, fi, env)
    decreases |names|
  {
    if names != [] {
      assert (customs + extra)[0] == customs[0];
      var v := GetValue(names[0], obj);
      if v.Ok? && IsBlank(fi.serializerName.value) && |names| > 1 {
        assert (customs + extra)[1..] == customs[1..] + extra;
        ExtraCustomsIgnored(names[1..], customs[1..], extra, v.value, fi, env);
      }
    }
  }
}
