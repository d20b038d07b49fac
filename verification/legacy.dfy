/**
 * The older `com` package's `Json.toJavaObject(json, clazz, info)`: a new
 * instance whose declared fields are each looked up by their own name
 * only (the `@JsonField` aliases are not consulted), and a format
 * descriptor that the loop completes from each field's `@JsonPattern` as
 * it goes. A null call descriptor is replaced, field by field, by a fresh
 * one; a non-null one is updated in place, so a later field sees what an
 * earlier field's annotation put in it, and so does the caller.
 */
module Legacy {
  import opened Wrappers
  import opened JsonText
  import opened Descriptors
  import opened Natives
  import opened Tree
  import Extract

  /** The pattern an annotation supplies: `deserializePattern` trimmed, else `value` trimmed, else none. */
  function AnnotationPattern(p: PatternAnnotation): (r: Option<string>)
    ensures !IsBlank(p.deserializePattern) ==> r == Some(Trim(p.deserializePattern))
    ensures IsBlank(p.deserializePattern) && !IsBlank(p.value) ==> r == Some(Trim(p.value))
    ensures IsBlank(p.deserializePattern) && IsBlank(p.value) ==> r.None?
    ensures r.Some? ==> !IsBlank(r.value)
  {
    if !IsBlank(p.deserializePattern) then
      TrimmedNonBlank(p.deserializePattern);
      Some(Trim(p.deserializePattern))
    else if !IsBlank(p.value) then
      TrimmedNonBlank(p.value);
      Some(Trim(p.value))
    else None
  }

  /** Trimming a string that is not blank leaves one that is not blank. */
  lemma TrimmedNonBlank(s: string)
    requires !IsBlank(s)
    ensures !IsBlank(Trim(s))
  {
    var t := Trim(s);
    assert TrimStart(t) == t;
  }

  /**
   * A descriptor after one field's `@JsonPattern` is merged into it. The
   * pattern is read first, so a null one becomes ""; a blank pattern is
   * replaced by the annotation's when it supplies one; a null locale or
   * time zone is looked up from the annotation's strings; a part already
   * set is kept.
   */
  function Merged(f: Format, p: PatternAnnotation, env: Env): (r: Format)
    ensures r.pattern.Some?
    ensures f.pattern.Some? && !IsBlank(f.pattern.value) ==> r.pattern == f.pattern
    ensures (f.pattern.None? || IsBlank(f.pattern.value)) && AnnotationPattern(p).Some? ==> r.pattern == AnnotationPattern(p)
    ensures (f.pattern.None? || IsBlank(f.pattern.value)) && AnnotationPattern(p).None? ==> r.pattern == Some(f.pattern.GetOr(""))
    ensures f.locale.Some? ==> r.locale == f.locale
    ensures f.locale.None? ==> r.locale == env.toLocale(Some(p.locale))
    ensures f.timezone.Some? ==> r.timezone == f.timezone
    ensures f.timezone.None? ==> r.timezone == env.toTimeZone(Some(p.timezone))
  {
    var g := PatternRead(f);
    Format(
      if IsBlank(g.pattern.value) && AnnotationPattern(p).Some? then AnnotationPattern(p) else g.pattern,
      if g.locale.None? then env.toLocale(Some(p.locale)) else g.locale,
      if g.timezone.None? then env.toTimeZone(Some(p.timezone)) else g.timezone)
  }

  /** Merging the same annotation twice changes nothing more. */
  lemma MergedIdempotent(f: Format, p: PatternAnnotation, env: Env)
    ensures Merged(Merged(f, p, env), p, env) == Merged(f, p, env)
  {
  }

  /** A descriptor whose three parts are set is left as it is by every later annotation. */
  lemma MergedSettled(f: Format, p: PatternAnnotation, env: Env)
    requires f.pattern.Some? && !IsBlank(f.pattern.value) && f.locale.Some? && f.timezone.Some?
    ensures Merged(f, p, env) == f
  {
  }

  /**
   * The merge as the loop performs it, on the descriptor object: read the
   * pattern, set it from the annotation when it is blank, then fill in a
   * null locale and a null time zone.
   */
  method Merge(info: FormatInfo, p: PatternAnnotation, env: Env)
    modifies info
    ensures info.Value() == Merged(old(info.Value()), p, env)
  {
    var current := info.GetPattern();
    if IsBlank(current) {
      if !IsBlank(p.deserializePattern) {
        info.SetPattern(Some(Trim(p.deserializePattern)));
      } else if !IsBlank(p.value) {
        info.SetPattern(Some(Trim(p.value)));
      }
    }
    if info.locale.None? {
      info.SetLocale(env.toLocale(Some(p.locale)));
    }
    if info.timezone.None? {
      info.SetTimezone(env.toTimeZone(Some(p.timezone)));
    }
  }

  /**
   * Whether the loop merges field `f`'s `@JsonPattern`: a child is found
   * under the field's name, the field is not an array, a collection or an
   * enum, and it carries the annotation.
   */
  predicate MergesAt(json: Node, f: FieldDecl)
  {
    GetChildNamed(json, Some(f.name)).Some?
    && !f.fieldType.TArray? && !f.fieldType.TCollection? && !f.fieldType.TEnum?
    && f.pattern.Some?
  }

  /**
   * The descriptor field `f` is read with, from the call's descriptor as
   * it stands before the field: merged into (a fresh one in place of
   * null) when the field merges its annotation, otherwise as it stands.
   */
  function FieldFormat(json: Node, f: FieldDecl, carried: Option<Format>, env: Env): (r: Option<Format>)
    ensures !MergesAt(json, f) ==> r == carried
    ensures MergesAt(json, f) ==> r == Some(Merged(carried.GetOr(Unset), f.pattern.value, env))
  {
    if MergesAt(json, f) then Some(Merged(carried.GetOr(Unset), f.pattern.value, env)) else carried
  }

  /**
   * The call's descriptor after the first `i` fields: a null one stays
   * null, because each merge goes into a fresh descriptor; a non-null one
   * takes every merge in turn.
   */
  function Carried(json: Node, d: ClassDecl, i: nat, start: Option<Format>, env: Env): (r: Option<Format>)
    requires i <= |d.fields|
    decreases i
  {
    if i == 0 then start
    else
      var c := Carried(json, d, i - 1, start, env);
      if c.None? then None else FieldFormat(json, d.fields[i - 1], c, env)
  }

  /**
   * The value field `f` is set to, or nothing when no child bears its
   * name: an array of the child's raw values for an array field, the
   * child's raw collection or enum constant for a collection or enum
   * field (null when the child is of another kind), otherwise the child
   * converted to the field's type with the field's descriptor.
   */
  function LegacyField(json: Node, f: FieldDecl, carried: Option<Format>, env: Env): (r: Option<Native>)
    ensures r.None? <==> GetChildNamed(json, Some(f.name)).None?
    ensures r.Some? && !f.fieldType.TArray? && !f.fieldType.TCollection? && !f.fieldType.TEnum? ==>
              r.value == Extract.ToJavaObject(GetChildNamed(json, Some(f.name)).value, Some(f.fieldType),
                                              FieldFormat(json, f, carried, env), env)
  {
    LegacyRead(json, f.name, f.fieldType, FieldFormat(json, f, carried, env), env)
  }

  /** The value read for a field of that name and type with descriptor `format`. */
  function LegacyRead(json: Node, name: string, t: Target, format: Option<Format>, env: Env): Option<Native>
  {
    match GetChildNamed(json, Some(name))
    case None => None
    case Some(child) =>
      Some(match t
           case TArray => Extract.ArrayField(child)
           case TCollection => if child.JCollection? then child.raw else NNull
           case TEnum(_) => if child.JEnum? then NEnum(child.constant) else NNull
           case _ => Extract.ToJavaObject(child, Some(t), format, env))
  }

  /** The value field `j` ends with: the one read for it, or the constructed one when it is skipped. */
  function LegacyAt(json: Node, d: ClassDecl, j: nat, start: Option<Format>, env: Env): Native
    requires j < |d.fields|
  {
    LegacyField(json, d.fields[j], Carried(json, d, j, start, env), env).GetOr(FieldValue(d.defaults, j))
  }

  /** The field values of a freshly constructed instance. */
  function Fresh(d: ClassDecl): (r: seq<Native>)
    ensures |r| == |d.fields| && forall j :: 0 <= j < |r| ==> r[j] == FieldValue(d.defaults, j)
  {
    seq(|d.fields|, j requires 0 <= j < |d.fields| => FieldValue(d.defaults, j))
  }

  /** The instance's field values after the first `i` turns of the loop. */
  function Assigned(json: Node, d: ClassDecl, i: nat, start: Option<Format>, env: Env): (r: seq<Native>)
    requires i <= |d.fields|
    ensures |r| == |d.fields|
    decreases i
  {
    if i == 0 then Fresh(d)
    else
      var prev := Assigned(json, d, i - 1, start, env);
      match LegacyField(json, d.fields[i - 1], Carried(json, d, i - 1, start, env), env)
      case None => prev
      case Some(v) => prev[i - 1 := v]
  }

  /**
   * After `i` turns, each field before `i` holds the value read for it
   * (or the constructed one when it was skipped), and every later field
   * still holds the constructed one.
   */
  lemma {:induction false} AssignedAt(json: Node, d: ClassDecl, i: nat, start: Option<Format>, env: Env)
    requires i <= |d.fields|
    ensures forall j :: 0 <= j < i ==> Assigned(json, d, i, start, env)[j] == LegacyAt(json, d, j, start, env)
    ensures forall j :: i <= j < |d.fields| ==> Assigned(json, d, i, start, env)[j] == FieldValue(d.defaults, j)
    decreases i
  {
    if i > 0 {
      AssignedAt(json, d, i - 1, start, env);
      AssignedStep(json, d, i, start, env);
      var prev := Assigned(json, d, i - 1, start, env);
      var cur := Assigned(json, d, i, start, env);
      forall j | 0 <= j < |d.fields| && j != i - 1
        ensures cur[j] == (if j < i then LegacyAt(json, d, j, start, env) else FieldValue(d.defaults, j))
      {
        assert cur[j] == prev[j];
      }
    }
  }

  /** The values and the descriptor after one more turn of the loop. */
  lemma AssignedNext(json: Node, d: ClassDecl, i: nat, start: Option<Format>, env: Env)
    requires i < |d.fields|
    ensures var c := Carried(json, d, i, start, env);
            var v := LegacyField(json, d.fields[i], c, env);
            && Assigned(json, d, i + 1, start, env) == (if v.None? then Assigned(json, d, i, start, env) else Assigned(json, d, i, start, env)[i := v.value])
            && Carried(json, d, i + 1, start, env) == (if c.None? then None else FieldFormat(json, d.fields[i], c, env))
  {
  }

  /** Turn `i` sets field `i - 1`, until then as constructed, to its final value and leaves every other field alone. */
  lemma AssignedStep(json: Node, d: ClassDecl, i: nat, start: Option<Format>, env: Env)
    requires 0 < i <= |d.fields|
    requires Assigned(json, d, i - 1, start, env)[i - 1] == FieldValue(d.defaults, i - 1)
    ensures Assigned(json, d, i, start, env)[i - 1] == LegacyAt(json, d, i - 1, start, env)
    ensures forall j :: 0 <= j < |d.fields| && j != i - 1 ==>
              Assigned(json, d, i, start, env)[j] == Assigned(json, d, i - 1, start, env)[j]
  {
  }

  /** The field values of the new instance: each field found by name takes its value, the others keep the constructed one. */
  function LegacyFilled(json: Node, d: ClassDecl, start: Option<Format>, env: Env): (r: seq<Native>)
    ensures |r| == |d.fields|
    ensures forall j :: 0 <= j < |d.fields| ==> r[j] == LegacyAt(json, d, j, start, env)
  {
    AssignedAt(json, d, |d.fields|, start, env);
    Assigned(json, d, |d.fields|, start, env)
  }

  /**
   * `toJavaObject(json, clazz, info)`: null for a null tree or class, or
   * a declared class without an accessible no-argument constructor;
   * otherwise the filled instance. A built-in target (String, a number,
   * a collection, a date) is read as null here: the Java code would
   * instantiate those with a no-argument constructor and write their
   * JDK-internal fields, which this model does not describe.
   */
  function LegacyToJavaObject(json: Option<Node>, clazz: Option<Target>, info: Option<Format>, env: Env): (r: Native)
    ensures json.None? || clazz.None? ==> r.NNull?
    ensures json.Some? && clazz.Some? && clazz.value.TClass? && clazz.value.decl.instantiable ==>
              r == NObject(clazz.value.decl, LegacyFilled(json.value, clazz.value.decl, info, env))
  {
    if json.None? || clazz.None? || !clazz.value.TClass? || !clazz.value.decl.instantiable then NNull
    else NObject(clazz.value.decl, LegacyFilled(json.value, clazz.value.decl, info, env))
  }

  /**
   * The loop of `toJavaObject(json, clazz, info)`. The result is the
   * specified instance; a non-null descriptor ends holding every merge
   * the fields made, in declaration order.
   */
  method ToJavaObject(json: Option<Node>, clazz: Option<Target>, info: FormatInfo?, env: Env) returns (r: Native)
    modifies info
    ensures r == LegacyToJavaObject(json, clazz, if info == null then None else Some(old(info.Value())), env)
    ensures info != null && json.Some? && clazz.Some? && clazz.value.TClass? && clazz.value.decl.instantiable ==>
              Some(info.Value()) == Carried(json.value, clazz.value.decl, |clazz.value.decl.fields|, Some(old(info.Value())), env)
    ensures info != null && !(json.Some? && clazz.Some? && clazz.value.TClass? && clazz.value.decl.instantiable) ==>
              info.Value() == old(info.Value())
  {
    if json.None? || clazz.None? || !clazz.value.TClass? || !clazz.value.decl.instantiable {
      return NNull;
    }
    var vs := FillFields(json.value, clazz.value.decl, info, env);
    r := NObject(clazz.value.decl, vs);
  }

  /** The field loop: every declared field in order, starting from the values a fresh instance holds. */
  method FillFields(n: Node, d: ClassDecl, info: FormatInfo?, env: Env) returns (vs: seq<Native>)
    modifies info
    ensures vs == LegacyFilled(n, d, if info == null then None else Some(old(info.Value())), env)
    ensures info != null ==> Some(info.Value()) == Carried(n, d, |d.fields|, Some(old(info.Value())), env)
  {
    ghost var start := if info == null then None else Some(info.Value());
    vs := Fresh(d);
    for i := 0 to |d.fields|
      invariant vs == Assigned(n, d, i, start, env)
      invariant Carried(n, d, i, start, env) == (if info == null then None else Some(info.Value()))
    {
      ghost var carried := Carried(n, d, i, start, env);
      AssignedNext(n, d, i, start, env);
      var value := ReadField(n, d.fields[i], info, env);
      assert value == LegacyField(n, d.fields[i], carried, env);
      if value.Some? {
        vs := vs[i := value.value];
      }
      assert vs == Assigned(n, d, i + 1, start, env);
      assert Carried(n, d, i + 1, start, env) == (if info == null then None else Some(info.Value()));
    }
  }

  /**
   * One turn of the loop: the value field `f` is set to (nothing when no
   * child bears its name), merging the field's `@JsonPattern` on the way
   * into the call's descriptor when there is one, or into a fresh one.
   */
  method ReadField(json: Node, f: FieldDecl, info: FormatInfo?, env: Env) returns (value: Option<Native>)
    modifies info
    ensures value == LegacyField(json, f, if info == null then None else Some(old(info.Value())), env)
    ensures info != null ==> Some(info.Value()) == FieldFormat(json, f, Some(old(info.Value())), env)
  {
    ghost var carried := if info == null then None else Some(info.Value());
    ghost var spec := LegacyRead(json, f.name, f.fieldType, FieldFormat(json, f, carried, env), env);
    assert LegacyField(json, f, carried, env) == spec;
    var child := GetChildNamed(json, Some(f.name));
    if child.None? {
      return None;
    }
    if f.fieldType.TArray? {
      value := Some(Extract.ArrayField(child.value));
    } else if f.fieldType.TCollection? {
      value := Some(if child.value.JCollection? then child.value.raw else NNull);
    } else if f.fieldType.TEnum? {
      value := Some(if child.value.JEnum? then NEnum(child.value.constant) else NNull);
    } else {
      var format := FieldDescriptor(json, f, info, env);
      value := Some(Extract.ToJavaObject(child.value, Some(f.fieldType), format, env));
    }
  }

  /**
   * The descriptor a field found under its name and read through
   * `toJavaObject` is read with: its `@JsonPattern` merged into the call's
   * descriptor, or into a fresh one when the call's is null; the call's
   * descriptor as it stands when the field has no such annotation.
   */
  method FieldDescriptor(json: Node, f: FieldDecl, info: FormatInfo?, env: Env) returns (format: Option<Format>)
    requires GetChildNamed(json, Some(f.name)).Some?
    requires !f.fieldType.TArray? && !f.fieldType.TCollection? && !f.fieldType.TEnum?
    modifies info
    ensures format == FieldFormat(json, f, if info == null then None else Some(old(info.Value())), env)
    ensures info != null ==> Some(info.Value()) == format
  {
    var info0 := info;
    if f.pattern.Some? {
      if info0 == null {
        info0 := new FormatInfo();
      }
      Merge(info0, f.pattern.value, env);
    }
    format := if info0 == null then None else Some(info0.Value());
  }

  /** A null call descriptor is never carried from one field to the next. */
  lemma {:induction false} NullNeverCarried(json: Node, d: ClassDecl, i: nat, env: Env)
    requires i <= |d.fields|
    ensures Carried(json, d, i, None, env) == None
  {
    if i > 0 {
      NullNeverCarried(json, d, i - 1, env);
    }
  }

  /**
   * Once the carried descriptor holds a pattern that is not blank, no
   * later field's annotation changes it.
   */
  lemma {:induction false} CarriedPatternSticks(json: Node, d: ClassDecl, i: nat, k: nat, start: Option<Format>, env: Env)
    requires i <= k <= |d.fields|
    requires Carried(json, d, i, start, env).Some?
    requires Carried(json, d, i, start, env).value.pattern.Some?
    requires !IsBlank(Carried(json, d, i, start, env).value.pattern.value)
    ensures Carried(json, d, k, start, env).Some?
    ensures Carried(json, d, k, start, env).value.pattern == Carried(json, d, i, start, env).value.pattern
    decreases k - i
  {
    if k > i {
      CarriedPatternSticks(json, d, i, k - 1, start, env);
    }
  }

  /** Each field is looked up only under its declared name: the `@JsonField` annotation plays no part. */
  lemma LookupIgnoresAliases(json: Node, f: FieldDecl, a: Option<FieldAnnotation>, carried: Option<Format>, env: Env)
    ensures LegacyField(json, f.(annotation := a), carried, env) == LegacyField(json, f, carried, env)
  {
    var g := f.(annotation := a);
    assert MergesAt(json, g) == MergesAt(json, f);
    assert FieldFormat(json, g, carried, env) == FieldFormat(json, f, carried, env);
  }

  /**
   * With a null call descriptor every field is read with its own
   * annotation merged into a fresh descriptor, whatever came before it.
   */
  lemma NullDescriptorFieldsIndependent(json: Node, d: ClassDecl, k: nat, env: Env)
    requires k < |d.fields|
    ensures var f := d.fields[k];
            FieldFormat(json, f, Carried(json, d, k, None, env), env)
            == (if MergesAt(json, f) then Some(Merged(Unset, f.pattern.value, env)) else None)
  {
    NullNeverCarried(json, d, k, env);
  }

  /**
   * With a non-null call descriptor, a field is read with the pattern an
   * earlier field put there, its own annotation notwithstanding.
   */
  lemma SharedDescriptorKeepsEarlierPattern(json: Node, d: ClassDecl, k: nat, start: Format, env: Env)
    requires k < |d.fields|
    requires Carried(json, d, k, Some(start), env).Some?
    requires Carried(json, d, k, Some(start), env).value.pattern.Some?
    requires !IsBlank(Carried(json, d, k, Some(start), env).value.pattern.value)
    ensures FieldFormat(json, d.fields[k], Carried(json, d, k, Some(start), env), env).Some?
    ensures FieldFormat(json, d.fields[k], Carried(json, d, k, Some(start), env), env).value.pattern
            == Carried(json, d, k, Some(start), env).value.pattern
  {
  }
}
