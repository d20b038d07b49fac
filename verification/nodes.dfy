/**
 * The two container nodes as objects whose children list is changed in
 * place: JsonObject (children keyed by name, a same-named object child
 * absorbs an insertion) and JsonCollection (children by position). Each
 * operation is proved to leave the node equal to the value the matching
 * function of module Tree computes from the old one.
 */
module Nodes {
  import opened Wrappers
  import opened JsonText
  import opened Descriptors
  import opened Natives
  import opened Tree
  import Construct
  import Extract

  /** io JsonObject. */
  class ObjectNode {
    var name: string
    var raw: Native
    var info: Option<Format>
    var children: seq<Node>

    /** The node as a value. */
    function ToNode(): (n: Node)
      reads this
      ensures n.JObject? && n.name == name && n.raw == raw && n.children == children && n.info == info
    {
      JObject(name, raw, children, info)
    }

    /** No two children share a non-blank name and every child is well formed. */
    predicate Valid()
      reads this
    {
      DistinctNames(children) && AllWellFormed(children)
    }

    /**
     * `new JsonObject(name, value, info)`: no members for a null value, the
     * String-keyed entries of a map, otherwise the readable fields, each
     * added with `addChild` in turn.
     */
    constructor (name: string, value: Native, info: Option<Format>, env: Env)
      requires value.NNull? || value.NMap? || value.NObject?
      ensures this.name == name && raw == value && this.info == info
      ensures children == Construct.ObjectMembers(value, info, env)
      ensures Valid()
    {
      this.name := name;
      raw := value;
      this.info := info;
      children := [];
      new;
      match value {
        case NNull =>
        case NMap(es) =>
          assert es[0..] == es;
          for k := 0 to |es|
            invariant Valid() && this.name == name && raw == value && this.info == info
            invariant Construct.MapMembers(es[k..], children, info, env) == Construct.MapMembers(es, [], info, env)
          {
            var e := es[k];
            assert es[k..][0] == e && es[k..][1..] == es[k + 1..];
            ghost var next := Construct.MapStep(e, children, info, env);
            if e.key.NString? {
              var child := Construct.ToJson(Some(e.key.s), e.value, info, env);
              InsertWellFormed(children, child);
              AddChild(Some(child));
            }
          }
        case NObject(d, vs) =>
          for k := 0 to |d.fields|
            invariant Valid() && this.name == name && raw == value && this.info == info
            invariant Construct.FieldMembers(d, vs, k, children, info, env) == Construct.FieldMembers(d, vs, 0, [], info, env)
          {
            var f := d.fields[k];
            if Construct.Written(f) {
              var (member, format) := Construct.FieldWriting(f, info, env);
              var child := Construct.ToJson(Some(member), FieldValue(vs, k), format, env);
              InsertWellFormed(children, child);
              AddChild(Some(child));
            }
          }
      }
    }

    /**
     * `addChild(json)`: nothing for null; a node whose name is blank or not
     * yet present is appended; when the first child of that name is an
     * object the node is merged into it; otherwise the node is dropped.
     */
    method AddChild(json: Option<Node>)
      modifies this
      ensures name == old(name) && raw == old(raw) && info == old(info)
      ensures json.None? ==> children == old(children)
      ensures json.Some? ==> children == Insert(old(children), json.value)
      ensures old(Valid()) && (json.None? || WellFormed(json.value)) ==> Valid()
    {
      if json.Some? {
        var j := json.value;
        var cs := children;
        var next: seq<Node>;
        if IsBlank(j.name) {
          next := cs + [j];
        } else {
          var k := FindName(cs, j.name);
          if k == |cs| {
            next := cs + [j];
          } else if cs[k].JObject? {
            WeightElement(cs, k);
            next := cs[k := Absorb(cs[k], j)];
          } else {
            next := cs;
          }
        }
        assert next == Insert(cs, j);
        if Valid() && WellFormed(j) {
          InsertWellFormed(cs, j);
        }
        children := next;
      }
    }

    /** The scan `addChild` makes for the first child bearing a name: its position, or the count when none does. */
    static method FindName(cs: seq<Node>, name: string) returns (k: nat)
      ensures k == IndexOfName(cs, name)
      ensures k <= |cs| && (k < |cs| ==> cs[k].name == name)
      ensures forall i :: 0 <= i < k ==> cs[i].name != name
    {
      k := 0;
      while k < |cs| && cs[k].name != name
        invariant 0 <= k <= |cs|
        invariant forall i :: 0 <= i < k ==> cs[i].name != name
      {
        k := k + 1;
      }
      IndexOfNameAt(cs, name, k);
    }

    /** `addChildren(jsons)`: nothing for null, otherwise `addChild` for each node in turn. */
    method AddChildren(jsons: Option<seq<Node>>)
      modifies this
      ensures name == old(name) && raw == old(raw) && info == old(info)
      ensures jsons.None? ==> children == old(children)
      ensures jsons.Some? ==> children == InsertAll(old(children), jsons.value)
      ensures old(Valid()) && (jsons.None? || AllWellFormed(jsons.value)) ==> Valid()
    {
      if jsons.Some? {
        var js := jsons.value;
        assert js[..0] == [];
        for i := 0 to |js|
          invariant name == old(name) && raw == old(raw) && info == old(info)
          invariant children == InsertAll(old(children), js[..i])
          invariant old(Valid()) && AllWellFormed(js) ==> Valid()
        {
          InsertAllSnoc(old(children), js[..i], js[i]);
          assert js[..i + 1] == js[..i] + [js[i]];
          AddChild(Some(js[i]));
        }
        assert js[..|js|] == js;
      }
    }

    /**
     * `toJavaObject(clazz, info)`: null for a null class, a built-in class
     * or one without a usable no-argument constructor; otherwise a fresh
     * instance whose fields, in declaration order, are each set from the
     * child found under the field's reading names, and left as constructed
     * when no child matches.
     */
    method ToJavaObject(clazz: Option<Target>, info: Option<Format>, env: Env) returns (r: Native)
      ensures r == Extract.ToJavaObject(ToNode(), clazz, info, env)
    {
      if clazz.None? || IsBuiltIn(clazz.value) || !clazz.value.decl.instantiable {
        assert Extract.ToJavaObject(ToNode(), clazz, info, env) == NNull;
        return NNull;
      }
      var d := clazz.value.decl;
      var vs := FillFields(children, d, info, env);
      Extract.ObjectReadsFilled(ToNode(), clazz.value, info, env);
      r := NObject(d, vs);
    }

    /** The loop of `toJavaObject`: a fresh instance's fields, in declaration order, each set from its matching child. */
    static method FillFields(cs: seq<Node>, d: ClassDecl, info: Option<Format>, env: Env) returns (vs: seq<Native>)
      ensures vs == Extract.Filled(cs, d, info, env)
    {
      vs := seq(|d.fields|, j requires 0 <= j < |d.fields| => FieldValue(d.defaults, j));
      ghost var filled := Extract.Filled(cs, d, info, env);
      for i := 0 to |d.fields|
        invariant |vs| == |d.fields|
        invariant forall j :: 0 <= j < i ==> vs[j] == filled[j]
        invariant forall j :: i <= j < |d.fields| ==> vs[j] == FieldValue(d.defaults, j)
      {
        var v := ReadFieldAt(cs, d, i, info, env);
        vs := vs[i := v];
      }
    }

    /**
     * One turn of `toJavaObject`'s loop over the fields: the child found
     * under the field's reading names read as the field's type, or the
     * value the field was constructed with when no child matches.
     */
    static method ReadFieldAt(cs: seq<Node>, d: ClassDecl, i: nat, info: Option<Format>, env: Env) returns (v: Native)
      requires i < |d.fields|
      ensures v == Extract.Filled(cs, d, info, env)[i]
    {
      var f := d.fields[i];
      var desc := Extract.ReadingDescriptor(f, info, env);
      var k := Extract.FindChild(cs, desc.customNames.value, desc.name.value);
      Extract.FilledAt(cs, d, info, env, i);
      if k < |cs| {
        v := Extract.FieldFromChild(f.fieldType, cs[k], desc, env);
      } else {
        v := FieldValue(d.defaults, i);
      }
    }

    /** `getChild(index)`: the child at a position inside the list, otherwise null. */
    method GetChildAt(index: int) returns (r: Option<Node>)
      ensures r.Some? <==> 0 <= index < |children|
      ensures r.Some? ==> r.value == children[index]
    {
      if index < 0 || index > |children| {
        return None;
      }
      var i := 0;
      while i < |children|
        invariant 0 <= i <= |children| && i <= index
      {
        if i == index {
          return Some(children[i]);
        }
        i := i + 1;
      }
      return None;
    }

    /** `getChild(name)`: null for a null or blank name, otherwise the first child of that name. */
    function GetChildNamed(name: Option<string>): (r: Option<Node>)
      reads this
      ensures r.Some? <==> !IsMissing(name) && HasChildNamed(children, name.value)
      ensures r.Some? ==> r.value.name == name.value && r.value in children
      ensures r.Some? ==> forall i :: 0 <= i < |children| && children[i].name == name.value ==> r.value == children[IndexOfName(children, name.value)]
    {
      Tree.GetChildNamed(ToNode(), name)
    }

    /**
     * `removeChild(index)`: the scan drops the child at `index` when that is
     * a position in the list; any other index changes nothing.
     */
    method RemoveChildAt(index: int)
      modifies this
      ensures name == old(name) && raw == old(raw) && info == old(info)
      ensures children == RemoveAt(old(children), index)
      ensures 0 <= index < |old(children)| ==> |children| == |old(children)| - 1
      ensures old(Valid()) ==> Valid()
    {
      ghost var before := children;
      if Valid() {
        RemoveAtKeepsValid(before, index);
      }
      if index > 0 || index < |children| {
        var i := 0;
        while i < |children|
          invariant 0 <= i <= |children| && children == old(children)
          invariant name == old(name) && raw == old(raw) && info == old(info)
          invariant !(0 <= index < i)
        {
          if i == index {
            children := children[..i] + children[i + 1..];
            break;
          }
          i := i + 1;
        }
      }
    }

    /** `removeChild(name)`: every child of that name is dropped, none for a null name. */
    method RemoveChildNamed(name: Option<string>)
      modifies this
      ensures this.name == old(this.name) && raw == old(raw) && info == old(info)
      ensures name.None? ==> children == old(children)
      ensures name.Some? ==> children == WithoutName(old(children), name.value)
      ensures old(Valid()) ==> Valid()
    {
      if name.Some? {
        var n := name.value;
        var cs := children;
        var kept := [];
        for i := 0 to |cs|
          invariant unchanged(this)
          invariant kept == WithoutName(cs[..i], n)
        {
          WithoutNameSnoc(cs[..i], cs[i], n);
          assert cs[..i + 1] == cs[..i] + [cs[i]];
          if cs[i].name != n {
            kept := kept + [cs[i]];
          }
        }
        assert cs[..|cs|] == cs;
        if Valid() {
          WithoutNameKeepsValid(cs, n);
        }
        children := kept;
      }
    }
  }

  /** Dropping the child at a position never breaks distinct names or well-formedness. */
  lemma RemoveAtKeepsValid(cs: seq<Node>, index: int)
    requires DistinctNames(cs) && AllWellFormed(cs)
    ensures DistinctNames(RemoveAt(cs, index)) && AllWellFormed(RemoveAt(cs, index))
  {
    if 0 <= index < |cs| {
      RemoveAtDistinct(cs, index);
      RemoveAtWellFormed(cs, index);
    }
  }

  lemma RemoveAtDistinct(cs: seq<Node>, index: nat)
    requires index < |cs| && DistinctNames(cs)
    ensures DistinctNames(cs[..index] + cs[index + 1..])
  {
    var r := cs[..index] + cs[index + 1..];
    forall i, k | 0 <= i < k < |r| && !IsBlank(r[k].name)
      ensures r[i].name != r[k].name
    {
      RemovedAt(cs, index, i);
      RemovedAt(cs, index, k);
    }
  }

  /** Position j of the list without position `index`. */
  lemma RemovedAt(cs: seq<Node>, index: nat, j: nat)
    requires index < |cs| && j < |cs| - 1
    ensures (cs[..index] + cs[index + 1..])[j] == cs[if j < index then j else j + 1]
  {
  }

  lemma RemoveAtWellFormed(cs: seq<Node>, index: nat)
    requires index < |cs| && AllWellFormed(cs)
    ensures AllWellFormed(cs[..index] + cs[index + 1..])
  {
    var r := cs[..index] + cs[index + 1..];
    forall i | 0 <= i < |r|
      ensures WellFormed(r[i])
    {
      assert r[i] == cs[if i < index then i else i + 1];
    }
  }

  /** Dropping children never breaks distinct names or well-formedness. */
  lemma WithoutNameKeepsValid(cs: seq<Node>, name: string)
    requires DistinctNames(cs) && AllWellFormed(cs)
    ensures DistinctNames(WithoutName(cs, name)) && AllWellFormed(WithoutName(cs, name))
  {
    WithoutNameDistinct(cs, name);
    WithoutNameWellFormed(cs, name);
  }

  /** Dropping children keeps the names distinct. */
  lemma {:induction false} WithoutNameDistinct(cs: seq<Node>, name: string)
    requires DistinctNames(cs)
    ensures DistinctNames(WithoutName(cs, name))
  {
    if cs != [] {
      var rest := cs[1..];
      DistinctTail(cs);
      WithoutNameDistinct(rest, name);
      WithoutNameMembers(rest, name);
      var tail := WithoutName(rest, name);
      if cs[0].name != name {
        forall m | 0 <= m < |tail| && !IsBlank(tail[m].name)
          ensures tail[m].name != cs[0].name
        {
          assert tail[m] in rest;
          var p :| 0 <= p < |rest| && rest[p] == tail[m];
          assert cs[p + 1] == tail[m];
        }
        ConsDistinct(cs[0], tail);
      }
    }
  }

  /** The names after the first child are distinct too. */
  lemma DistinctTail(cs: seq<Node>)
    requires cs != [] && DistinctNames(cs)
    ensures DistinctNames(cs[1..])
  {
    var rest := cs[1..];
    forall i, k | 0 <= i < k < |rest| && !IsBlank(rest[k].name)
      ensures rest[i].name != rest[k].name
    {
      assert rest[i] == cs[i + 1] && rest[k] == cs[k + 1];
    }
  }

  /** Dropping children keeps every remaining one well formed. */
  lemma WithoutNameWellFormed(cs: seq<Node>, name: string)
    requires AllWellFormed(cs)
    ensures AllWellFormed(WithoutName(cs, name))
  {
    WithoutNameMembers(cs, name);
    forall i | 0 <= i < |WithoutName(cs, name)|
      ensures WellFormed(WithoutName(cs, name)[i])
    {
      var x := WithoutName(cs, name)[i];
      assert x in cs;
      var m :| 0 <= m < |cs| && cs[m] == x;
    }
  }

  /** A node placed in front of a list with distinct names whose non-blank names avoid its own. */
  lemma ConsDistinct(c: Node, tail: seq<Node>)
    requires DistinctNames(tail)
    requires forall m :: 0 <= m < |tail| && !IsBlank(tail[m].name) ==> tail[m].name != c.name
    ensures DistinctNames([c] + tail)
  {
    var r := [c] + tail;
    forall i, k | 0 <= i < k < |r| && !IsBlank(r[k].name)
      ensures r[i].name != r[k].name
    {
      ConsAt(c, tail, i);
      ConsAt(c, tail, k);
    }
  }

  /** Position `i` of a list with a node in front. */
  lemma ConsAt(c: Node, tail: seq<Node>, i: nat)
    requires i <= |tail|
    ensures ([c] + tail)[i] == if i == 0 then c else tail[i - 1]
  {
  }

  /** io JsonCollection. */
  class CollectionNode {
    var name: string
    var raw: Native
    var info: Option<Format>
    var children: seq<Node>

    /** The node as a value. */
    function ToNode(): (n: Node)
      reads this
      ensures n.JCollection? && n.name == name && n.raw == raw && n.children == children && n.info == info
    {
      JCollection(name, raw, children, info)
    }

    /**
     * `new JsonCollection(name, value, info)`: no children for a null
     * collection, otherwise one child per item, in iteration order, each
     * built with a null name.
     */
    constructor (name: string, value: Option<seq<Native>>, info: Option<Format>, env: Env)
      ensures this.name == name && this.info == info
      ensures raw == (if value.Some? then NCollection(value.value) else NNull)
      ensures value.None? ==> children == []
      ensures value.Some? ==> children == Construct.Items(value.value, info, env)
    {
      this.name := name;
      raw := if value.Some? then NCollection(value.value) else NNull;
      this.info := info;
      children := [];
      new;
      if value.Some? {
        var es := value.value;
        for k := 0 to |es|
          invariant this.name == name && this.info == info
          invariant raw == (if value.Some? then NCollection(value.value) else NNull)
          invariant |children| == k
          invariant forall i :: 0 <= i < k ==> children[i] == Construct.ToJson(None, es[i], info, env)
        {
          AddChild(Construct.ToJson(None, es[k], info, env));
        }
        Construct.ItemsInOrder(es, info, env);
      }
    }

    /** `addChild(json)`: the node is appended, with no check of its name. */
    method AddChild(json: Node)
      modifies this
      ensures name == old(name) && raw == old(raw) && info == old(info)
      ensures children == old(children) + [json]
    {
      children := children + [json];
    }

    /** `addChildren(jsons)`: nothing for null, otherwise every node appended in order. */
    method AddChildren(jsons: Option<seq<Node>>)
      modifies this
      ensures name == old(name) && raw == old(raw) && info == old(info)
      ensures jsons.None? ==> children == old(children)
      ensures jsons.Some? ==> children == old(children) + jsons.value
    {
      if jsons.Some? {
        var js := jsons.value;
        for i := 0 to |js|
          invariant name == old(name) && raw == old(raw) && info == old(info)
          invariant children == old(children) + js[..i]
        {
          assert js[..i + 1] == js[..i] + [js[i]];
          AddChild(js[i]);
        }
        assert js[..|js|] == js;
      }
    }

    /** `getChild(index)`: the child at a position inside the list, otherwise null. */
    method GetChildAt(index: int) returns (r: Option<Node>)
      ensures r.Some? <==> 0 <= index < |children|
      ensures r.Some? ==> r.value == children[index]
    {
      if index < 0 || index >= |children| {
        return None;
      }
      r := None;
      var i := 0;
      while i < |children|
        invariant 0 <= i <= index
        invariant r.None?
      {
        if i == index {
          r := Some(children[i]);
          break;
        }
        i := i + 1;
      }
    }

    /**
     * `removeChild(index)`: the loop runs over the shrinking list and drops
     * the child at `index` when it reaches it; an index outside the list
     * changes nothing.
     */
    method RemoveChildAt(index: int)
      modifies this
      ensures name == old(name) && raw == old(raw) && info == old(info)
      ensures children == RemoveAt(old(children), index)
      ensures 0 <= index < |old(children)| ==> |children| == |old(children)| - 1
    {
      if index > 0 || index < |children| {
        var i := 0;
        while i < |children|
          invariant 0 <= i
          invariant name == old(name) && raw == old(raw) && info == old(info)
          invariant 0 <= index < i ==> children == RemoveAt(old(children), index)
          invariant !(0 <= index < i) ==> children == old(children) && i <= |children|
          decreases |children| - i
        {
          if i == index {
            children := children[..i] + children[i + 1..];
          }
          i := i + 1;
        }
      }
    }
  }
}
