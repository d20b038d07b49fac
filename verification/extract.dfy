/**
 * Converting a tree back to native values (`toJavaObject(clazz, info)` and
 * `toJavaCollection(clazz, info)` of every node kind, and the guards of
 * `Json.toJavaObject` and `Json.toJavaCollection`). A null class is
 * `None`; a null result is `NNull`.
 */
module Extract {
  import opened Wrappers
  import opened JsonText
  import opened Numbers
  import opened Descriptors
  import opened Natives
  import opened Converters
  import opened Tree
  import Construct

  /** JsonBoolean: its text for String, itself for Boolean, otherwise null. */
  function BoolToJava(b: bool, clazz: Target): (r: Native)
  {
    match clazz
    case TString => NString(if b then "true" else "false")
    case TBoolean => NBool(b)
    case _ => NNull
  }

  /** JsonNumber: `String.valueOf` for String, the width conversion for a numeric class, otherwise null. */
  function NumberToJava(n: Number, clazz: Target): (r: Native)
  {
    match clazz
    case TString => NString(NumberText(n))
    case TNumeric(c) => NNumber(Convert(n, c))
    case _ => NNull
  }

  /**
   * JsonString: itself for String; its first character for Character
   * unless it is blank; the parsed value for the integral classes and
   * BigDecimal (null when the text does not parse or does not fit); the
   * platform's date parsing for the date family; otherwise null.
   */
  function StringToJava(s: string, clazz: Target, info: Option<Format>, env: Env): (r: Native)
  {
    match clazz
    case TString => NString(s)
    case TCharacter => if IsBlank(s) then NNull else NonBlankNotEmpty(s); NChar(s[0])
    case TNumeric(IntClass(w)) => OrNull(ParseIntegral(s, w))
    case TNumeric(DecimalClass) => OrNull(ParseDecimal(s))
    case TTemporal(k) => env.dateParse(s, k, info)
    case _ => NNull
  }

  /** A number, or null when parsing failed. */
  function OrNull(x: Option<Number>): (r: Native)
    ensures x.None? <==> r.NNull?
    ensures x.Some? ==> r == NNumber(x.value)
  {
    if x.Some? then NNumber(x.value) else NNull
  }

  lemma NonBlankNotEmpty(s: string)
    requires !IsBlank(s)
    ensures |s| > 0
  {
    BlankIffAllSpace(s);
  }

  /** JsonEnum: the ordinal for Integer, `name()` for String, itself for its own enum class, otherwise null. */
  function EnumToJava(e: EnumConstant, clazz: Target): (r: Native)
  {
    if clazz == TNumeric(IntClass(Int)) then NNumber(Integral(Int, e.ordinal))
    else if clazz == TString then NString(e.name)
    else if clazz == TEnum(e.enumType) then NEnum(e)
    else NNull
  }

  /**
   * The field descriptor an object reads a field with: the reading
   * converter's, with the field's own name when its name is blank, or
   * the field's name, no aliases and the caller's format when the field
   * has no `@JsonField`.
   */
  function ReadingDescriptor(f: FieldDecl, info: Option<Format>, env: Env): (d: FieldDescriptor)
    ensures d.name.Some? && d.customNames.Some?
    ensures f.annotation.None? ==> d == Described(f.name, [], info)
    ensures f.annotation.Some? ==> d.customNames == Some(ReaderNames(f.annotation.value))
    ensures f.annotation.Some? && IsBlank(f.annotation.value.value) ==> d.name == Some(f.name)
    ensures f.annotation.Some? && !IsBlank(f.annotation.value.value) ==> d.name == Some(f.annotation.value.value)
  {
    match DeserializationDescriptor(f.annotation, env)
    case Ok(d) => if IsBlank(d.name.value) then d.(name := Some(f.name)) else d
    case Err(_) => Described(f.name, [], info)
  }

  /**
   * The position of the child a field is read from: the first alias, in
   * order, that some child bears, else the descriptor's name; blank names
   * never match (`getChild(name)` is null for them). The length of the
   * list when nothing matches.
   */
  function FindChild(cs: seq<Node>, aliases: seq<string>, name: string): (k: nat)
    ensures k <= |cs|
  {
    if aliases == [] then (if IsBlank(name) then |cs| else IndexOfName(cs, name))
    else if !IsBlank(aliases[0]) && IndexOfName(cs, aliases[0]) < |cs| then IndexOfName(cs, aliases[0])
    else FindChild(cs, aliases[1..], name)
  }

  /** The raw values of a list of nodes (`getValue` of each). */
  function Values(cs: seq<Node>): (r: seq<Native>)
    ensures |r| == |cs| && forall i :: 0 <= i < |cs| ==> r[i] == NodeValue(cs[i])
  {
    seq(|cs|, i requires 0 <= i < |cs| => NodeValue(cs[i]))
  }

  /**
   * `toJavaObject(clazz, info)` of any node. A collection gives the first
   * of its converted children, or null (the corrected reading of
   * JsonCollection.toJavaObject, see `CollectionToJavaObjectAsWritten`).
   * An object gives null for a built-in class or one that cannot be
   * instantiated, otherwise a new instance whose fields are read from its
   * children.
   */
  function ToJavaObject(n: Node, clazz: Option<Target>, info: Option<Format>, env: Env): (r: Native)
    ensures clazz.None? ==> r.NNull?
    decreases Weight(n), 1, 0
  {
    if clazz.None? then NNull
    else
      var c := clazz.value;
      match n
      case JNull(_) => NNull
      case JBool(_, b) => BoolToJava(b, c)
      case JNumber(_, x) => NumberToJava(x, c)
      case JString(_, s) => StringToJava(s, c, info, env)
      case JEnum(_, e) => EnumToJava(e, c)
      case JTemporal(_, k, t, own) => env.dateConvert(k, t, own, c, info)
      case JCollection(_, _, cs, _) => FirstOrNull(Elements(cs, c, info, env))
      case JObject(_, _, cs, _) =>
        if IsBuiltIn(c) || !c.decl.instantiable then NNull
        else NObject(c.decl, Filled(cs, c.decl, info, env))
  }

  /** The first value of a list, or null when it is empty. */
  function FirstOrNull(vs: seq<Native>): (r: Native)
    ensures vs == [] ==> r.NNull?
    ensures vs != [] ==> r == vs[0]
  {
    if vs == [] then NNull else vs[0]
  }

  /** Every child converted to the same class, in order (`JsonCollection.toJavaCollection`). */
  function Elements(cs: seq<Node>, c: Target, info: Option<Format>, env: Env): (r: seq<Native>)
    ensures |r| == |cs|
    decreases WeightAll(cs), 2, 0
  {
    if cs == [] then [] else [ToJavaObject(cs[0], Some(c), info, env)] + Elements(cs[1..], c, info, env)
  }

  /**
   * The value a field of type `t` takes from the child it is read from:
   * the raw collection for a collection field, the constant for an enum
   * field (null when the child is of another kind), the child's raw values
   * for an array field, otherwise the child converted to `t`.
   */
  function FieldFromChild(t: Target, child: Node, d: FieldDescriptor, env: Env): (r: Native)
    decreases Weight(child), 2, 0
  {
    match t
    case TArray => ArrayField(child)
    case TCollection => if child.JCollection? then child.raw else NNull
    case TEnum(_) => if child.JEnum? then NEnum(child.constant) else NNull
    case _ => ToJavaObject(child, Some(t), d.patternInfo, env)
  }

  /** An array field read from a collection child: an array of the children's raw values. */
  function ArrayField(child: Node): (r: Native)
    ensures child.JCollection? ==> r == NArray(Values(child.children))
    ensures !child.JCollection? ==> r.NNull?
  {
    if child.JCollection? then NArray(Values(child.children)) else NNull
  }

  /** The position of the child field `f` is read from (the list's length when none). */
  function FieldChild(cs: seq<Node>, f: FieldDecl, info: Option<Format>, env: Env): (k: nat)
    ensures k <= |cs|
  {
    var desc := ReadingDescriptor(f, info, env);
    FindChild(cs, desc.customNames.value, desc.name.value)
  }

  /** The value a field is read as, or nothing when no child matches it. */
  function ReadField(cs: seq<Node>, f: FieldDecl, info: Option<Format>, env: Env): (r: Option<Native>)
    ensures r.None? <==> FieldChild(cs, f, info, env) == |cs|
    decreases WeightAll(cs), 1, 0
  {
    var k := FieldChild(cs, f, info, env);
    if k == |cs| then None
    else
      WeightElement(cs, k);
      Some(FieldFromChild(f.fieldType, cs[k], ReadingDescriptor(f, info, env), env))
  }

  /**
   * The field values of the new instance: a field some child matches
   * takes the value read from that child, the others keep the value a
   * fresh instance gives them.
   */
  function Filled(cs: seq<Node>, d: ClassDecl, info: Option<Format>, env: Env): (r: seq<Native>)
    ensures |r| == |d.fields|
    ensures forall j :: 0 <= j < |d.fields| && FieldChild(cs, d.fields[j], info, env) == |cs|
                        ==> r[j] == FieldValue(d.defaults, j)
    ensures forall j :: 0 <= j < |d.fields| && FieldChild(cs, d.fields[j], info, env) < |cs|
                        ==> r[j] == ReadField(cs, d.fields[j], info, env).value
    decreases WeightAll(cs), 2, 0
  {
    seq(|d.fields|, j requires 0 <= j < |d.fields| => ReadField(cs, d.fields[j], info, env).GetOr(FieldValue(d.defaults, j)))
  }

  /**
   * A field some child matches is read from that child: as an array of
   * its raw values for an array field, as the child's own raw collection
   * or enum constant for a collection or enum field (null when the child
   * is of another kind), and through `toJavaObject` with the field's
   * reading format for a field of any other type.
   */
  lemma MatchedFieldReadFromChild(cs: seq<Node>, d: ClassDecl, info: Option<Format>, env: Env, j: nat)
    requires j < |d.fields| && FieldChild(cs, d.fields[j], info, env) < |cs|
    ensures var f := d.fields[j];
            var child := cs[FieldChild(cs, f, info, env)];
            var r := Filled(cs, d, info, env)[j];
            r == FieldFromChild(f.fieldType, child, ReadingDescriptor(f, info, env), env)
            && (f.fieldType.TArray? ==> r == ArrayField(child))
            && (f.fieldType.TCollection? ==> r == (if child.JCollection? then child.raw else NNull))
            && (f.fieldType.TEnum? ==> r == (if child.JEnum? then NEnum(child.constant) else NNull))
            && (!f.fieldType.TArray? && !f.fieldType.TCollection? && !f.fieldType.TEnum?
                ==> r == ToJavaObject(child, Some(f.fieldType), ReadingDescriptor(f, info, env).patternInfo, env))
  {
    var f := d.fields[j];
    var k := FieldChild(cs, f, info, env);
    assert Filled(cs, d, info, env)[j] == FieldFromChild(f.fieldType, cs[k], ReadingDescriptor(f, info, env), env);
    FieldFromChildCases(f.fieldType, cs[k], ReadingDescriptor(f, info, env), env);
  }

  /** Position `j` of the filled fields: read from the matching child, or the declared default when none matches. */
  lemma FilledAt(cs: seq<Node>, d: ClassDecl, info: Option<Format>, env: Env, j: nat)
    requires j < |d.fields|
    ensures var f := d.fields[j];
            var desc := ReadingDescriptor(f, info, env);
            var k := FindChild(cs, desc.customNames.value, desc.name.value);
            Filled(cs, d, info, env)[j]
            == if k < |cs| then FieldFromChild(f.fieldType, cs[k], desc, env) else FieldValue(d.defaults, j)
  {
  }

  /** How a child is read for a field of each type. */
  lemma FieldFromChildCases(t: Target, child: Node, d: FieldDescriptor, env: Env)
    ensures var r := FieldFromChild(t, child, d, env);
            (t.TArray? ==> r == ArrayField(child))
            && (t.TCollection? ==> r == (if child.JCollection? then child.raw else NNull))
            && (t.TEnum? ==> r == (if child.JEnum? then NEnum(child.constant) else NNull))
            && (!t.TArray? && !t.TCollection? && !t.TEnum? ==> r == ToJavaObject(child, Some(t), d.patternInfo, env))
  {
  }

  /** An object read as an instantiable class is a new instance holding the filled field values. */
  lemma ObjectReadsFilled(n: Node, c: Target, info: Option<Format>, env: Env)
    requires n.JObject? && c.TClass? && c.decl.instantiable
    ensures ToJavaObject(n, Some(c), info, env) == NObject(c.decl, Filled(n.children, c.decl, info, env))
  {
  }

  /** `toJavaCollection(clazz, info)`: null for a null class; a collection's converted children; any other node as a one-element list. */
  function ToJavaCollection(n: Node, clazz: Option<Target>, info: Option<Format>, env: Env): (r: Option<seq<Native>>)
    ensures clazz.None? <==> r.None?
    ensures r.Some? && n.JCollection? ==>
              |r.value| == |n.children|
              && forall i :: 0 <= i < |n.children| ==> r.value[i] == ToJavaObject(n.children[i], clazz, info, env)
    ensures r.Some? && !n.JCollection? ==> r.value == [ToJavaObject(n, clazz, info, env)]
  {
    if clazz.None? then None
    else if n.JCollection? then ElementsInOrder(n.children, clazz.value, info, env); Some(Elements(n.children, clazz.value, info, env))
    else Some([ToJavaObject(n, clazz, info, env)])
  }

  /** The converted children are the children converted one by one. */
  lemma {:induction false} ElementsInOrder(cs: seq<Node>, c: Target, info: Option<Format>, env: Env)
    ensures forall i :: 0 <= i < |cs| ==> Elements(cs, c, info, env)[i] == ToJavaObject(cs[i], Some(c), info, env)
  {
    if cs != [] {
      ElementsInOrder(cs[1..], c, info, env);
      forall i | 0 <= i < |cs|
        ensures Elements(cs, c, info, env)[i] == ToJavaObject(cs[i], Some(c), info, env)
      {
        if i > 0 {
          assert cs[i] == cs[1..][i - 1];
        }
      }
    }
  }

  /** A collection converted to one value is its first child converted, or null when it has none. */
  lemma CollectionGivesFirst(n: Node, c: Target, info: Option<Format>, env: Env)
    requires n.JCollection?
    ensures n.children == [] ==> ToJavaObject(n, Some(c), info, env).NNull?
    ensures n.children != [] ==> ToJavaObject(n, Some(c), info, env) == ToJavaObject(n.children[0], Some(c), info, env)
  {
  }

  /**
   * JsonCollection.toJavaObject as written: the converted list is null
   * for a null class, and `findFirst` throws a NullPointerException both
   * on that null list and when the first converted child is null.
   */
  function CollectionToJavaObjectAsWritten(n: Node, clazz: Option<Target>, info: Option<Format>, env: Env): (r: Result<Native, Fault>)
    requires n.JCollection?
  {
    match ToJavaCollection(n, clazz, info, env)
    case None => Err(NullPointer)
    case Some(vs) =>
      if vs == [] then Ok(NNull)
      else if vs[0].NNull? then Err(NullPointer)
      else Ok(vs[0])
  }

  /**
   * A collection whose first child is a null node, read as a String,
   * throws instead of giving null; the corrected reading gives null. The
   * two agree whenever the as-written one returns.
   */
  lemma CollectionFirstNullThrows(info: Option<Format>, env: Env)
    ensures var n := JCollection(CollectionName, NNull, [JNull(NullName)], None);
            CollectionToJavaObjectAsWritten(n, Some(TString), info, env) == Err(NullPointer)
            && ToJavaObject(n, Some(TString), info, env) == NNull
  {
  }

  lemma CollectionAsWrittenAgrees(n: Node, clazz: Option<Target>, info: Option<Format>, env: Env)
    requires n.JCollection?
    ensures CollectionToJavaObjectAsWritten(n, clazz, info, env).Ok? ==>
              CollectionToJavaObjectAsWritten(n, clazz, info, env).value == ToJavaObject(n, clazz, info, env)
    ensures CollectionToJavaObjectAsWritten(n, clazz, info, env).Err? <==>
              clazz.None? || (n.children != [] && ToJavaObject(n.children[0], clazz, info, env).NNull?)
  {
  }

  /**
   * The array branch of JsonObject.toJavaObject as written: it asks the
   * field type for its component type twice, which for a one-dimensional
   * array is null, and `Array.newInstance` throws a NullPointerException
   * as soon as the child is a collection.
   */
  function ArrayFieldAsWritten(child: Node): (r: Result<Native, Fault>)
  {
    if child.JCollection? then Err(NullPointer) else Ok(NNull)
  }

  /** Every collection child throws as written; the corrected branch gives an array of the same length. */
  lemma ArrayFieldThrows(child: Node)
    requires child.JCollection?
    ensures ArrayFieldAsWritten(child) == Err(NullPointer)
    ensures ArrayField(child).NArray? && |ArrayField(child).elements| == |child.children|
    ensures forall i :: 0 <= i < |child.children| ==> ArrayField(child).elements[i] == NodeValue(child.children[i])
  {
  }

  /** Whether some child bears a name is whether its first position is inside the list. */
  lemma PresentIffIndexed(cs: seq<Node>, name: string)
    ensures HasChildNamed(cs, name) <==> IndexOfName(cs, name) < |cs|
  {
    if HasChildNamed(cs, name) {
      var i :| 0 <= i < |cs| && cs[i].name == name;
      assert IndexOfName(cs, name) <= i;
    }
  }

  /** The first alias, in order, that is not blank and that a child bears decides the child. */
  lemma {:induction false} AliasDecides(cs: seq<Node>, aliases: seq<string>, name: string, j: nat)
    requires j < |aliases| && !IsBlank(aliases[j]) && HasChildNamed(cs, aliases[j])
    requires forall i :: 0 <= i < j ==> IsBlank(aliases[i]) || !HasChildNamed(cs, aliases[i])
    ensures FindChild(cs, aliases, name) == IndexOfName(cs, aliases[j]) < |cs|
  {
    PresentIffIndexed(cs, aliases[0]);
    PresentIffIndexed(cs, aliases[j]);
    if j > 0 {
      var rest := aliases[1..];
      assert rest[j - 1] == aliases[j];
      forall i | 0 <= i < j - 1
        ensures IsBlank(rest[i]) || !HasChildNamed(cs, rest[i])
      {
        assert rest[i] == aliases[i + 1];
      }
      AliasDecides(cs, rest, name, j - 1);
    }
  }

  /** With no alias present, the child bearing the descriptor's name, if it is not blank. */
  lemma {:induction false} NameDecides(cs: seq<Node>, aliases: seq<string>, name: string)
    requires forall i :: 0 <= i < |aliases| ==> IsBlank(aliases[i]) || !HasChildNamed(cs, aliases[i])
    ensures FindChild(cs, aliases, name) == (if IsBlank(name) then |cs| else IndexOfName(cs, name))
  {
    if aliases != [] {
      PresentIffIndexed(cs, aliases[0]);
      var rest := aliases[1..];
      forall i | 0 <= i < |rest|
        ensures IsBlank(rest[i]) || !HasChildNamed(cs, rest[i])
      {
        assert rest[i] == aliases[i + 1];
      }
      NameDecides(cs, rest, name);
    }
  }

  /** An object read as a built-in class, or as a class that cannot be instantiated, gives null. */
  lemma ObjectBuiltInGivesNull(n: Node, c: Target, info: Option<Format>, env: Env)
    requires n.JObject? && (IsBuiltIn(c) || !c.decl.instantiable)
    ensures ToJavaObject(n, Some(c), info, env).NNull?
  {
  }

  /**
   * A scalar built from a value reads back as that value when asked for
   * the value's own class: booleans, strings, enum constants, numbers of
   * their width's range, and characters that are not blank.
   */
  lemma ScalarRoundTrip(name: Option<string>, v: Native, info: Option<Format>, env: Env)
    requires v.NBool? || v.NString? || v.NEnum? || (v.NNumber? && ValidNumber(v.number)) || (v.NChar? && !IsSpace(v.c))
    ensures ToJavaObject(Construct.ToJson(name, v, info, env), Some(Natives.ClassOf(v)), info, env) == v
  {
    match v
    case NNumber(x) => NumberRoundTrip(name, x, info, env);
    case NChar(c) => CharRoundTrip(name, c, info, env);
    case NBool(_) => PlainRoundTrip(name, v, info, env);
    case NString(_) => PlainRoundTrip(name, v, info, env);
    case NEnum(_) => PlainRoundTrip(name, v, info, env);
  }

  /** A boolean, a string or an enum constant reads back as itself. */
  lemma PlainRoundTrip(name: Option<string>, v: Native, info: Option<Format>, env: Env)
    requires v.NBool? || v.NString? || v.NEnum?
    ensures ToJavaObject(Construct.ToJson(name, v, info, env), Some(Natives.ClassOf(v)), info, env) == v
  {
    if v.NBool? {
      assert Natives.ClassOf(v) == TBoolean;
    } else if v.NString? {
      assert Natives.ClassOf(v) == TString;
    } else {
      assert Natives.ClassOf(v) == TEnum(v.constant.enumType);
    }
  }

  /** A valid number reads back as itself from its number node. */
  lemma NumberRoundTrip(name: Option<string>, x: Number, info: Option<Format>, env: Env)
    requires ValidNumber(x)
    ensures ToJavaObject(Construct.ToJson(name, NNumber(x), info, env), Some(Natives.ClassOf(NNumber(x))), info, env) == NNumber(x)
  {
    ConvertSameClass(x);
  }

  /** A character that is not blank reads back as itself from its one-character string node. */
  lemma CharRoundTrip(name: Option<string>, c: char, info: Option<Format>, env: Env)
    requires !IsSpace(c)
    ensures ToJavaObject(Construct.ToJson(name, NChar(c), info, env), Some(TCharacter), info, env) == NChar(c)
  {
    BlankIffAllSpace([c]);
  }

  /** A blank character does not survive: it reads back as null. */
  lemma BlankCharReadsNull(name: Option<string>, c: char, info: Option<Format>, env: Env)
    requires IsSpace(c)
    ensures ToJavaObject(Construct.ToJson(name, NChar(c), info, env), Some(TCharacter), info, env) == NNull
  {
    BlankIffAllSpace([c]);
  }

  /**
   * A number written as text and read back from a string node at its own
   * width gives the number again; read as a BigDecimal it gives the same
   * value at scale zero.
   */
  lemma IntegralTextRoundTrip(name: string, w: IntWidth, v: int, info: Option<Format>, env: Env)
    requires Fits(w, v)
    ensures var text := ToJavaObject(JNumber(name, Integral(w, v)), Some(TString), info, env);
            text.NString?
            && ToJavaObject(JString(name, text.s), Some(TNumeric(IntClass(w))), info, env) == NNumber(Integral(w, v))
            && ToJavaObject(JString(name, text.s), Some(TNumeric(DecimalClass)), info, env) == NNumber(Decimal(v, 0))
  {
    IntegralAsText(name, w, v, info, env);
    TextAsIntegral(name, w, v, info, env);
    TextAsDecimal(name, v, info, env);
  }

  /** An integral number node read as a String is the number's text. */
  lemma IntegralAsText(name: string, w: IntWidth, v: int, info: Option<Format>, env: Env)
    requires Fits(w, v)
    ensures ToJavaObject(JNumber(name, Integral(w, v)), Some(TString), info, env) == NString(IntText(v))
  {
  }

  /** The text of an integral value read back at its own width. */
  lemma TextAsIntegral(name: string, w: IntWidth, v: int, info: Option<Format>, env: Env)
    requires Fits(w, v)
    ensures ToJavaObject(JString(name, IntText(v)), Some(TNumeric(IntClass(w))), info, env) == NNumber(Integral(w, v))
  {
    ParseIntegralText(w, v);
    assert StringToJava(IntText(v), TNumeric(IntClass(w)), info, env) == NNumber(Integral(w, v));
  }

  /** The text of an integral value read back as a BigDecimal of scale zero. */
  lemma TextAsDecimal(name: string, v: int, info: Option<Format>, env: Env)
    ensures ToJavaObject(JString(name, IntText(v)), Some(TNumeric(DecimalClass)), info, env) == NNumber(Decimal(v, 0))
  {
    ParseDecimalOfIntText(v);
    assert StringToJava(IntText(v), TNumeric(DecimalClass), info, env) == NNumber(Decimal(v, 0));
  }

  /** The enum matrix: the ordinal as an Integer, `name()` as a String, the constant for its own class. */
  lemma EnumMatrix(e: EnumConstant, info: Option<Format>, env: Env)
    ensures ToJavaObject(JEnum(EnumName, e), Some(TNumeric(IntClass(Int))), info, env) == NNumber(Integral(Int, e.ordinal))
    ensures ToJavaObject(JEnum(EnumName, e), Some(TString), info, env) == NString(e.name)
    ensures ToJavaObject(JEnum(EnumName, e), Some(TEnum(e.enumType)), info, env) == NEnum(e)
    ensures forall t :: t != TNumeric(IntClass(Int)) && t != TString && t != TEnum(e.enumType)
                        ==> ToJavaObject(JEnum(EnumName, e), Some(t), info, env) == NNull
  {
  }

  /** The null node reads as null for every class, alone or as a one-element list. */
  lemma NullReadsNull(name: string, clazz: Option<Target>, info: Option<Format>, env: Env)
    ensures ToJavaObject(JNull(name), clazz, info, env) == NNull
    ensures clazz.Some? ==> ToJavaCollection(JNull(name), clazz, info, env) == Some([NNull])
  {
  }

  /** The format the class-only entry points pass on: no pattern, and the lookups of a null locale and time zone. */
  function CallFormat(env: Env): (f: Format)
    ensures f.pattern.None?
  {
    Format(None, env.toLocale(None), env.toTimeZone(None))
  }

  /** `Json.toJavaObject(json, clazz, info)`: null for a null tree or class, otherwise the tree's own conversion. */
  function JsonToJavaObject(json: Option<Node>, clazz: Option<Target>, info: Option<Format>, env: Env): (r: Native)
    ensures json.None? || clazz.None? ==> r.NNull?
    ensures json.Some? ==> r == ToJavaObject(json.value, clazz, info, env)
  {
    if json.None? || clazz.None? then NNull else ToJavaObject(json.value, clazz, info, env)
  }

  /**
   * `Json.toJavaObject(json, obj, info)`: null for a null tree or object
   * and for a collection tree, otherwise the tree read as `obj`'s class.
   */
  function JsonToJavaObjectLike(json: Option<Node>, obj: Native, info: Option<Format>, env: Env): (r: Native)
    ensures json.None? || obj.NNull? || json.value.JCollection? ==> r.NNull?
    ensures json.Some? && !obj.NNull? && !json.value.JCollection? ==> r == ToJavaObject(json.value, Some(Natives.ClassOf(obj)), info, env)
  {
    if json.None? || obj.NNull? || json.value.JCollection? then NNull
    else JsonToJavaObject(json, Some(Natives.ClassOf(obj)), info, env)
  }

  /**
   * `Json.toJavaCollection(json, clazz)`: null for a null tree or class;
   * a collection's children each read through `Json.toJavaObject(child,
   * clazz)`, in order; any other tree as a one-element list.
   */
  function JsonToJavaCollection(json: Option<Node>, clazz: Option<Target>, env: Env): (r: Option<seq<Native>>)
    ensures json.None? || clazz.None? <==> r.None?
    ensures r.Some? && json.value.JCollection? ==>
              |r.value| == |json.value.children|
              && forall i :: 0 <= i < |json.value.children| ==>
                   r.value[i] == ToJavaObject(json.value.children[i], clazz, Some(CallFormat(env)), env)
    ensures r.Some? && !json.value.JCollection? ==> r.value == [ToJavaObject(json.value, clazz, Some(CallFormat(env)), env)]
  {
    if json.None? || clazz.None? then None
    else
      var n := json.value;
      if n.JCollection? then
        Some(seq(|n.children|, i requires 0 <= i < |n.children| => JsonToJavaObject(Some(n.children[i]), clazz, Some(CallFormat(env)), env)))
      else Some([JsonToJavaObject(json, clazz, Some(CallFormat(env)), env)])
  }

  /** `Json.toJavaCollection(json, obj)`: null for a null tree or object, otherwise read as `obj`'s class. */
  function JsonToJavaCollectionLike(json: Option<Node>, obj: Native, env: Env): (r: Option<seq<Native>>)
    ensures json.None? || obj.NNull? ==> r.None?
    ensures json.Some? && !obj.NNull? ==> r == JsonToJavaCollection(json, Some(Natives.ClassOf(obj)), env)
  {
    if json.None? || obj.NNull? then None else JsonToJavaCollection(json, Some(Natives.ClassOf(obj)), env)
  }
}
