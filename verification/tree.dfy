/**
 * The JSON value tree: one node per JsonEntry subclass (null, boolean,
 * number, string, enum, the date family, collection, object), each with
 * its name. Objects and collections hold their children as a sequence; an
 * object keys them by name and merges a same-named object child on
 * insertion, a collection keeps them by position. The scalar nodes ignore
 * every child operation.
 *
 * The functions here are the values of the container operations; the
 * classes in module Nodes perform them in place.
 */
module Tree {
  import opened Wrappers
  import opened JsonText
  import opened Numbers
  import opened Descriptors
  import opened Natives

  /**
   * A JSON node. A collection and an object keep, besides their children,
   * the native value they were built from (`getValue`) and their format.
   */
  datatype Node =
    | JNull(name: string)
    | JBool(name: string, b: bool)
    | JNumber(name: string, number: Number)
    | JString(name: string, text: string)
    | JEnum(name: string, constant: EnumConstant)
    | JTemporal(name: string, kind: TemporalKind, instant: int, info: Option<Format>)
    | JCollection(name: string, raw: Native, children: seq<Node>, info: Option<Format>)
    | JObject(name: string, raw: Native, children: seq<Node>, info: Option<Format>)

  predicate IsContainer(n: Node)
  {
    n.JCollection? || n.JObject?
  }

  /** `getChildren`: a scalar's is empty. */
  function Children(n: Node): (cs: seq<Node>)
    ensures !IsContainer(n) ==> cs == []
  {
    if IsContainer(n) then n.children else []
  }

  /** A container with its children replaced. */
  function WithChildren(n: Node, cs: seq<Node>): (r: Node)
    requires IsContainer(n)
    ensures r.JObject? == n.JObject? && IsContainer(r) && r.name == n.name
    ensures r.children == cs && r.raw == n.raw && r.info == n.info
  {
    if n.JObject? then JObject(n.name, n.raw, cs, n.info) else JCollection(n.name, n.raw, cs, n.info)
  }

  /** `childrenSize`. */
  function ChildrenSize(n: Node): nat
  {
    |Children(n)|
  }

  /** A size for trees that counts every node and every list, used to show that the merges end. */
  function Weight(n: Node): nat
  {
    match n
    case JCollection(_, _, cs, _) => 1 + WeightAll(cs)
    case JObject(_, _, cs, _) => 1 + WeightAll(cs)
    case _ => 1
  }

  function WeightAll(js: seq<Node>): nat
  {
    if js == [] then 0 else Weight(js[0]) + WeightAll(js[1..]) + 1
  }

  /** Each child of a list weighs less than the list. */
  lemma {:induction false} WeightElement(js: seq<Node>, i: nat)
    requires i < |js|
    ensures Weight(js[i]) < WeightAll(js)
  {
    if i > 0 {
      WeightElement(js[1..], i - 1);
    }
  }

  /** The position of the first child called `name`, or the length when there is none. */
  function IndexOfName(cs: seq<Node>, name: string): (k: nat)
    ensures k <= |cs|
    ensures k < |cs| ==> cs[k].name == name
    ensures forall i :: 0 <= i < k ==> cs[i].name != name
  {
    if cs == [] then 0
    else if cs[0].name == name then 0
    else 1 + IndexOfName(cs[1..], name)
  }

  predicate HasChildNamed(cs: seq<Node>, name: string)
  {
    exists i :: 0 <= i < |cs| && cs[i].name == name
  }

  /** `isChildPresent(name)`: false for a null or blank name, else whether some child bears it. */
  function IsChildPresentNamed(n: Node, name: Option<string>): (r: bool)
    ensures r <==> !IsMissing(name) && IndexOfName(Children(n), name.value) < |Children(n)|
  {
    !IsMissing(name) && HasChildNamed(Children(n), name.value)
  }

  /** `isChildPresent(index)`, written with the source's `index <= size - 1`. */
  function IsChildPresentAt(n: Node, index: int): (r: bool)
    ensures r <==> 0 <= index < ChildrenSize(n)
  {
    index >= 0 && index <= ChildrenSize(n) - 1
  }

  /**
   * No two children share a non-blank name. Children with a blank name
   * are always appended, so they may repeat.
   */
  predicate DistinctNames(cs: seq<Node>)
  {
    forall i, k :: 0 <= i < k < |cs| && !IsBlank(cs[k].name) ==> cs[i].name != cs[k].name
  }

  /** Every object in the tree has distinct child names. */
  predicate WellFormed(n: Node)
    decreases n
  {
    match n
    case JObject(_, _, cs, _) => DistinctNames(cs) && forall i :: 0 <= i < |cs| ==> WellFormed(cs[i])
    case JCollection(_, _, cs, _) => forall i :: 0 <= i < |cs| ==> WellFormed(cs[i])
    case _ => true
  }

  predicate AllWellFormed(cs: seq<Node>)
  {
    forall i :: 0 <= i < |cs| ==> WellFormed(cs[i])
  }

  /**
   * `JsonObject.addChild(json)` on an object whose children are `cs`: a
   * node whose name is blank or not yet present is appended; when the
   * first child of that name is an object, the node is merged into it;
   * otherwise the node is dropped.
   */
  function Insert(cs: seq<Node>, j: Node): (r: seq<Node>)
    decreases Weight(j), WeightAll(cs), 1
  {
    if IsBlank(j.name) then cs + [j]
    else
      var k := IndexOfName(cs, j.name);
      if k == |cs| then cs + [j]
      else if cs[k].JObject? then WeightElement(cs, k); cs[k := Absorb(cs[k], j)]
      else cs
  }

  /**
   * The merge into an existing object child: an incoming object gives up
   * its children one by one (`addChildren`), any other node is added
   * itself (`addChild`).
   */
  function Absorb(child: Node, j: Node): (r: Node)
    requires child.JObject?
    ensures r.JObject? && r.name == child.name
    decreases Weight(j), Weight(child), 0
  {
    if j.JObject? then WithChildren(child, InsertAll(child.children, j.children))
    else WithChildren(child, Insert(child.children, j))
  }

  /** `addChildren(js)` on an object: each node inserted in turn. */
  function InsertAll(cs: seq<Node>, js: seq<Node>): (r: seq<Node>)
    decreases WeightAll(js), 0, 0
  {
    if js == [] then cs
    else WeightElement(js, 0); InsertAll(Insert(cs, js[0]), js[1..])
  }

  /** Inserting one more node after a list of them is one more `Insert`. */
  lemma {:induction false} InsertAllSnoc(cs: seq<Node>, js: seq<Node>, j: Node)
    ensures InsertAll(cs, js + [j]) == Insert(InsertAll(cs, js), j)
    decreases |js|
  {
    if js == [] {
      assert [] + [j] == [j];
      assert [j][1..] == [];
    } else {
      assert (js + [j])[0] == js[0];
      assert (js + [j])[1..] == js[1..] + [j];
      InsertAllSnoc(Insert(cs, js[0]), js[1..], j);
    }
  }

  /** The first position of a name, as found by a scan that stopped at `k`. */
  lemma IndexOfNameAt(cs: seq<Node>, name: string, k: nat)
    requires k <= |cs| && forall i :: 0 <= i < k ==> cs[i].name != name
    requires k < |cs| ==> cs[k].name == name
    ensures IndexOfName(cs, name) == k
  {
  }

  /** A node whose name no child bears, or a blank-named one, is appended. */
  lemma InsertNew(cs: seq<Node>, j: Node)
    requires IsBlank(j.name) || !HasChildNamed(cs, j.name)
    ensures Insert(cs, j) == cs + [j]
  {
  }

  /**
   * When a child already bears the name, the list keeps its length and its
   * names, every child except the first of that name is untouched, and a
   * child of that name that is not an object is left as it was.
   */
  lemma InsertExisting(cs: seq<Node>, j: Node, k: nat)
    requires !IsBlank(j.name) && k < |cs| && cs[k].name == j.name
    requires forall i :: 0 <= i < k ==> cs[i].name != j.name
    ensures |Insert(cs, j)| == |cs|
    ensures forall i :: 0 <= i < |cs| && i != k ==> Insert(cs, j)[i] == cs[i]
    ensures Insert(cs, j)[k].name == j.name
    ensures !cs[k].JObject? ==> Insert(cs, j) == cs
    ensures cs[k].JObject? ==> Insert(cs, j)[k] == Absorb(cs[k], j)
  {
    assert IndexOfName(cs, j.name) == k;
  }

  /** After an insertion the node's name is present, whichever way it went. */
  lemma InsertMakesPresent(cs: seq<Node>, j: Node)
    ensures HasChildNamed(Insert(cs, j), j.name)
  {
    var r := Insert(cs, j);
    if IsBlank(j.name) || IndexOfName(cs, j.name) == |cs| {
      assert r[|cs|] == j;
    } else {
      var k := IndexOfName(cs, j.name);
      InsertExisting(cs, j, k);
      assert r[k].name == j.name;
    }
  }

  /** Insertion never renames or reorders the existing children. */
  lemma InsertKeepsNames(cs: seq<Node>, j: Node)
    ensures |cs| <= |Insert(cs, j)| <= |cs| + 1
    ensures forall i :: 0 <= i < |cs| ==> Insert(cs, j)[i].name == cs[i].name
  {
  }

  /** Insertion keeps the children's names distinct and every child well formed. */
  lemma {:induction false} InsertWellFormed(cs: seq<Node>, j: Node)
    requires DistinctNames(cs) && AllWellFormed(cs) && WellFormed(j)
    ensures DistinctNames(Insert(cs, j)) && AllWellFormed(Insert(cs, j))
    decreases Weight(j), WeightAll(cs), 1
  {
    if IsBlank(j.name) {
      AppendWellFormed(cs, j);
    } else {
      var k := IndexOfName(cs, j.name);
      if k == |cs| {
        AppendWellFormed(cs, j);
      } else if cs[k].JObject? {
        WeightElement(cs, k);
        AbsorbWellFormed(cs[k], j);
        ReplaceWellFormed(cs, k, Absorb(cs[k], j));
      }
    }
  }

  lemma AppendWellFormed(cs: seq<Node>, j: Node)
    requires DistinctNames(cs) && AllWellFormed(cs) && WellFormed(j)
    requires IsBlank(j.name) || forall i :: 0 <= i < |cs| ==> cs[i].name != j.name
    ensures DistinctNames(cs + [j]) && AllWellFormed(cs + [j])
  {
  }

  lemma ReplaceWellFormed(cs: seq<Node>, k: nat, a: Node)
    requires DistinctNames(cs) && AllWellFormed(cs) && WellFormed(a)
    requires k < |cs| && a.name == cs[k].name
    ensures DistinctNames(cs[k := a]) && AllWellFormed(cs[k := a])
  {
  }

  lemma {:induction false} AbsorbWellFormed(child: Node, j: Node)
    requires child.JObject? && WellFormed(child) && WellFormed(j)
    ensures WellFormed(Absorb(child, j))
    decreases Weight(j), Weight(child), 0
  {
    if j.JObject? {
      InsertAllWellFormed(child.children, j.children);
    } else {
      InsertWellFormed(child.children, j);
    }
  }

  lemma {:induction false} InsertAllWellFormed(cs: seq<Node>, js: seq<Node>)
    requires DistinctNames(cs) && AllWellFormed(cs) && AllWellFormed(js)
    ensures DistinctNames(InsertAll(cs, js)) && AllWellFormed(InsertAll(cs, js))
    decreases WeightAll(js), 0, 0
  {
    if js != [] {
      WeightElement(js, 0);
      InsertWellFormed(cs, js[0]);
      InsertAllWellFormed(Insert(cs, js[0]), js[1..]);
    }
  }

  /** Inserting nodes whose names are new and distinct appends them all, in order. */
  lemma {:induction false} InsertAllFresh(cs: seq<Node>, js: seq<Node>)
    requires DistinctNames(cs + js)
    ensures InsertAll(cs, js) == cs + js
    decreases |js|
  {
    if js != [] {
      var j := js[0];
      if !IsBlank(j.name) {
        forall i | 0 <= i < |cs|
          ensures cs[i].name != j.name
        {
          assert (cs + js)[i] == cs[i] && (cs + js)[|cs|] == j;
        }
      }
      InsertNew(cs, j);
      assert cs + js == (cs + [j]) + js[1..];
      InsertAllFresh(cs + [j], js[1..]);
    }
  }

  /**
   * `addChild(json)` for every kind of node: an object inserts, a
   * collection appends, a scalar returns itself unchanged.
   */
  function AddChild(n: Node, j: Node): (r: Node)
    ensures r.name == n.name && (IsContainer(r) <==> IsContainer(n))
    ensures n.JCollection? ==> Children(r) == Children(n) + [j]
    ensures n.JObject? ==> Children(r) == Insert(Children(n), j)
    ensures !IsContainer(n) ==> r == n
  {
    match n
    case JObject(_, _, cs, _) => WithChildren(n, Insert(cs, j))
    case JCollection(_, _, cs, _) => WithChildren(n, cs + [j])
    case _ => n
  }

  /** `addChildren(js)`: `addChild` for each node in turn. */
  function AddChildren(n: Node, js: seq<Node>): (r: Node)
    ensures r.name == n.name && (IsContainer(r) <==> IsContainer(n))
    ensures !IsContainer(n) ==> r == n
    decreases |js|
  {
    if js == [] then n else AddChildren(AddChild(n, js[0]), js[1..])
  }

  /** On an object, adding several children is the merge of `InsertAll`; on a collection, an append. */
  lemma {:induction false} AddChildrenIsInsertAll(n: Node, js: seq<Node>)
    ensures n.JObject? ==> AddChildren(n, js) == WithChildren(n, InsertAll(n.children, js))
    ensures n.JCollection? ==> AddChildren(n, js) == WithChildren(n, n.children + js)
    decreases |js|
  {
    if js != [] {
      AddChildrenIsInsertAll(AddChild(n, js[0]), js[1..]);
      if n.JCollection? {
        assert n.children + [js[0]] + js[1..] == n.children + js;
      }
    }
  }

  /** Adding a child to a well-formed node keeps it well formed. */
  lemma AddChildWellFormed(n: Node, j: Node)
    requires WellFormed(n) && WellFormed(j)
    ensures WellFormed(AddChild(n, j))
  {
    if n.JObject? {
      InsertWellFormed(n.children, j);
    }
  }

  /** `getChild(index)`: the child at a position inside the list, otherwise null. */
  function GetChildAt(n: Node, index: int): (r: Option<Node>)
    ensures r.Some? <==> IsChildPresentAt(n, index)
    ensures r.Some? ==> r.value == Children(n)[index]
  {
    if 0 <= index < ChildrenSize(n) then Some(Children(n)[index]) else None
  }

  /**
   * `getChild(name)`: an object gives its first child of that name (null
   * for a null or blank name); a collection gives itself whatever the
   * name; a scalar gives null.
   */
  function GetChildNamed(n: Node, name: Option<string>): (r: Option<Node>)
    ensures n.JObject? ==> (r.Some? <==> IsChildPresentNamed(n, name))
    ensures n.JObject? && r.Some? ==> r.value == n.children[IndexOfName(n.children, name.value)]
    ensures n.JCollection? ==> r == Some(n)
    ensures !IsContainer(n) ==> r.None?
  {
    match n
    case JObject(_, _, cs, _) =>
      if IsMissing(name) then None
      else
        var k := IndexOfName(cs, name.value);
        if k < |cs| then Some(cs[k]) else None
    case JCollection(_, _, _, _) => Some(n)
    case _ => None
  }

  /** After an insertion into an object, looking the name up finds the inserted node or the one it merged into. */
  lemma GetAfterAddChild(n: Node, j: Node)
    requires n.JObject? && !IsBlank(j.name)
    ensures GetChildNamed(AddChild(n, j), Some(j.name)).Some?
    ensures !HasChildNamed(n.children, j.name) ==> GetChildNamed(AddChild(n, j), Some(j.name)) == Some(j)
  {
    var r := AddChild(n, j);
    InsertMakesPresent(n.children, j);
    assert r.JObject? && r.children == Insert(n.children, j);
    if !HasChildNamed(n.children, j.name) {
      AddedChildFound(n.children, j);
    }
  }

  /** A node with a name no child bears is found under that name once appended. */
  lemma AddedChildFound(cs: seq<Node>, j: Node)
    requires !IsBlank(j.name) && !HasChildNamed(cs, j.name)
    ensures Insert(cs, j) == cs + [j]
    ensures IndexOfName(cs + [j], j.name) == |cs|
  {
    InsertNew(cs, j);
    IndexOfNameAt(cs + [j], j.name, |cs|);
  }

  /** The list without the element at `index`, when `index` is a position in it. */
  function RemoveAt(cs: seq<Node>, index: int): (r: seq<Node>)
    ensures 0 <= index < |cs| ==> |r| == |cs| - 1
    ensures 0 <= index < |cs| ==> forall i :: 0 <= i < |r| ==> r[i] == (if i < index then cs[i] else cs[i + 1])
    ensures !(0 <= index < |cs|) ==> r == cs
  {
    if 0 <= index < |cs| then cs[..index] + cs[index + 1..] else cs
  }

  /** The list without the children called `name`, the others kept in order. */
  function WithoutName(cs: seq<Node>, name: string): (r: seq<Node>)
    ensures |r| <= |cs|
    ensures forall i :: 0 <= i < |r| ==> r[i].name != name
  {
    if cs == [] then []
    else (if cs[0].name == name then [] else [cs[0]]) + WithoutName(cs[1..], name)
  }

  /** Removal by name keeps exactly the children that do not bear the name. */
  lemma {:induction false} WithoutNameMembers(cs: seq<Node>, name: string)
    ensures forall c :: c in WithoutName(cs, name) <==> c in cs && c.name != name
  {
    if cs != [] {
      WithoutNameMembers(cs[1..], name);
      assert cs == [cs[0]] + cs[1..];
    }
  }

  /** Filtering a list extended by one child filters that child on its own. */
  lemma {:induction false} WithoutNameSnoc(cs: seq<Node>, c: Node, name: string)
    ensures WithoutName(cs + [c], name) == WithoutName(cs, name) + (if c.name == name then [] else [c])
  {
    if cs == [] {
      assert [] + [c] == [c];
      assert [c][1..] == [];
    } else {
      assert (cs + [c])[0] == cs[0];
      assert (cs + [c])[1..] == cs[1..] + [c];
      WithoutNameSnoc(cs[1..], c, name);
    }
  }

  /** A list with no child of that name loses nothing. */
  lemma {:induction false} WithoutAbsentName(cs: seq<Node>, name: string)
    requires !HasChildNamed(cs, name)
    ensures WithoutName(cs, name) == cs
  {
    if cs != [] {
      assert !HasChildNamed(cs[1..], name) by {
        forall i | 0 <= i < |cs[1..]|
          ensures cs[1..][i].name != name
        {
          assert cs[1..][i] == cs[i + 1];
        }
      }
      WithoutAbsentName(cs[1..], name);
      assert cs == [cs[0]] + cs[1..];
    }
  }

  /**
   * `removeChild(index)`: a container drops the child at a position
   * inside its list and returns itself; a scalar returns null.
   */
  function RemoveChildAt(n: Node, index: int): (r: Option<Node>)
    ensures IsContainer(n) <==> r.Some?
    ensures r.Some? ==> r.value == WithChildren(n, RemoveAt(n.children, index))
  {
    if IsContainer(n) then Some(WithChildren(n, RemoveAt(n.children, index))) else None
  }

  /**
   * `removeChild(name)`: an object drops every child of that name (none
   * for a null name) and returns itself; a collection returns itself
   * unchanged; a scalar returns null.
   */
  function RemoveChildNamed(n: Node, name: Option<string>): (r: Option<Node>)
    ensures IsContainer(n) <==> r.Some?
    ensures n.JCollection? ==> r == Some(n)
    ensures n.JObject? && name.Some? ==> r == Some(WithChildren(n, WithoutName(n.children, name.value)))
    ensures n.JObject? && name.None? ==> r == Some(n)
  {
    match n
    case JObject(_, _, cs, _) => if name.Some? then Some(WithChildren(n, WithoutName(cs, name.value))) else Some(n)
    case JCollection(_, _, _, _) => Some(n)
    case _ => None
  }

  /** After removing a name from an object, the name is no longer present and nothing else is lost. */
  lemma RemoveThenAbsent(n: Node, name: string)
    requires n.JObject?
    ensures !IsChildPresentNamed(RemoveChildNamed(n, Some(name)).value, Some(name))
    ensures forall c :: c in n.children && c.name != name ==> c in RemoveChildNamed(n, Some(name)).value.children
  {
    WithoutNameMembers(n.children, name);
  }

  /** Removing a position and then reading it gives the next child. */
  lemma RemoveAtShifts(n: Node, index: int)
    requires IsContainer(n) && 0 <= index < ChildrenSize(n) - 1
    ensures GetChildAt(RemoveChildAt(n, index).value, index) == GetChildAt(n, index + 1)
    ensures ChildrenSize(RemoveChildAt(n, index).value) == ChildrenSize(n) - 1
  {
  }

  /**
   * `getValue` (and `toJavaObject()`): a null node holds null, a scalar
   * its value, a container the native value it was built from.
   */
  function NodeValue(n: Node): (v: Native)
    ensures n.JNull? <==> v.NNull? && !IsContainer(n)
    ensures n.JString? ==> v == NString(n.text)
    ensures n.JNumber? ==> v == NNumber(n.number)
  {
    match n
    case JNull(_) => NNull
    case JBool(_, b) => NBool(b)
    case JNumber(_, x) => NNumber(x)
    case JString(_, s) => NString(s)
    case JEnum(_, e) => NEnum(e)
    case JTemporal(_, k, t, _) => NTemporal(k, t)
    case JCollection(_, raw, _, _) => raw
    case JObject(_, raw, _, _) => raw
  }

  /**
   * `clone`: a container is rebuilt with no native value by adding its
   * children again; a scalar is copied.
   */
  function Clone(n: Node): (r: Node)
    ensures r.name == n.name && (IsContainer(r) <==> IsContainer(n))
    ensures !IsContainer(n) ==> r == n
  {
    match n
    case JObject(name, _, cs, info) => JObject(name, NNull, InsertAll([], cs), info)
    case JCollection(name, _, cs, info) => JCollection(name, NNull, cs, info)
    case _ => n
  }

  /** A clone of a well-formed node has the same children: re-adding distinct names merges nothing. */
  lemma CloneKeepsChildren(n: Node)
    requires WellFormed(n)
    ensures Children(Clone(n)) == Children(n)
    ensures IsContainer(n) ==> NodeValue(Clone(n)) == NNull
  {
    if n.JObject? {
      assert DistinctNames([] + n.children) by {
        assert [] + n.children == n.children;
      }
      InsertAllFresh([], n.children);
    }
  }
}
