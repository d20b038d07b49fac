/**
 * Rendering a tree as text: `toString` gives the compact form and
 * `toPrettyString(tab)` the indented one. How a node renders depends on
 * its role: a root, an object member (`objectChild`) or an array element
 * (`arrayChild`). An object renders each child as a member and a
 * collection each child as an element. Text values are written between
 * quotes as they are, without escaping. The line separator is a parameter
 * (the platform's `line.separator`).
 */
module Render {
  import opened Wrappers
  import opened JsonText
  import opened Numbers
  import opened Natives
  import opened Tree

  /** The two membership flags of a node. */
  datatype Role = Role(objectChild: bool, arrayChild: bool)

  const Root: Role := Role(false, false)
  const Member: Role := Role(true, false)
  const Element: Role := Role(false, true)

  function Quoted(s: string): string
  {
    Quotation + s + Quotation
  }

  /** The text of a scalar's value: literals and numbers bare, text, enums and dates quoted. */
  function ScalarText(n: Node, env: Env): (r: string)
    requires !IsContainer(n)
    ensures n.JString? ==> r == Quoted(n.text)
    ensures n.JNull? ==> r == "null"
  {
    match n
    case JNull(_) => "null"
    case JBool(_, b) => if b then "true" else "false"
    case JNumber(_, x) => NumberText(x)
    case JString(_, s) => Quoted(s)
    case JEnum(_, e) => Quoted(e.text)
    case JTemporal(_, k, t, info) => Quoted(env.dateText(k, t, info))
  }

  /** The `"name":` prefix of a member. */
  function Key(name: string): string
  {
    Quoted(name) + Colon
  }

  /**
   * `toString`. A scalar is `{"name":v}` as a root, `"name":v` as a
   * member and `v` as an element. A container is its opening bracket, its
   * children joined by commas and its closing bracket, preceded by
   * `"name":` when it is a member.
   */
  function Compact(n: Node, role: Role, env: Env): (r: string)
    decreases Weight(n), 1
  {
    match n
    case JObject(name, _, cs, _) =>
      (if role.objectChild then Key(name) else "") + StartObject + CompactItems(cs, Member, env) + EndObject
    case JCollection(name, _, cs, _) =>
      (if role.objectChild then Key(name) else "") + StartArray + CompactItems(cs, Element, env) + EndArray
    case _ =>
      var root := !role.objectChild && !role.arrayChild;
      (if root then StartObject else "") + (if role.arrayChild then "" else Key(n.name))
      + ScalarText(n, env) + (if root then EndObject else "")
  }

  /** The children rendered in a role and joined by commas (`Collectors.joining(",")`). */
  function CompactItems(cs: seq<Node>, role: Role, env: Env): string
    decreases WeightAll(cs), 0
  {
    if cs == [] then ""
    else if |cs| == 1 then Compact(cs[0], role, env)
    else Compact(cs[0], role, env) + Comma + CompactItems(cs[1..], role, env)
  }

  /** The indentation of a level: the tab repeated. */
  function Indent(level: nat, tab: string): string
  {
    if level == 0 then "" else tab + Indent(level - 1, tab)
  }

  /**
   * `toPrettyString(tab)` at an indentation level. Each child of a
   * container starts on a new line one level deeper, and the closing
   * bracket sits on a line of its own.
   */
  function Pretty(n: Node, role: Role, level: nat, tab: string, sep: string, env: Env): (r: string)
    decreases Weight(n), 1
  {
    match n
    case JObject(name, _, cs, _) =>
      (if role.objectChild then Indent(level, tab) + Key(name) + Whitespace else "")
      + (if role.arrayChild then Indent(level, tab) else "")
      + StartObject + PrettyItems(cs, Member, level + 1, tab, sep, env) + sep
      + (if role.objectChild || role.arrayChild then Indent(level, tab) else "") + EndObject
    case JCollection(name, _, cs, _) =>
      Indent(level, tab) + (if role.objectChild then Key(name) + Whitespace else "")
      + StartArray + PrettyItems(cs, Element, level + 1, tab, sep, env) + sep
      + Indent(level, tab) + EndArray
    case _ =>
      var root := !role.objectChild && !role.arrayChild;
      Indent(level, tab) + (if root then StartObject + Whitespace else "")
      + (if role.arrayChild then "" else Key(n.name) + Whitespace)
      + ScalarText(n, env) + (if root then Whitespace + EndObject else "")
  }

  function PrettyItems(cs: seq<Node>, role: Role, level: nat, tab: string, sep: string, env: Env): string
    decreases WeightAll(cs), 0
  {
    if cs == [] then ""
    else if |cs| == 1 then sep + Pretty(cs[0], role, level, tab, sep, env)
    else sep + Pretty(cs[0], role, level, tab, sep, env) + Comma + PrettyItems(cs[1..], role, level, tab, sep, env)
  }

  /** The characters the pretty form adds: spaces, tabs and line breaks. */
  predicate IsLayout(c: char)
  {
    c == ' ' || c == '\t' || c == '\n' || c == '\r'
  }

  predicate AllLayout(s: string)
  {
    forall i :: 0 <= i < |s| ==> IsLayout(s[i])
  }

  /** The text without its layout characters. */
  function Strip(s: string): (r: string)
    ensures |r| <= |s|
    ensures forall i :: 0 <= i < |r| ==> !IsLayout(r[i])
  {
    if s == [] then []
    else (if IsLayout(s[0]) then [] else [s[0]]) + Strip(s[1..])
  }

  lemma {:induction false} StripConcat(a: string, b: string)
    ensures Strip(a + b) == Strip(a) + Strip(b)
  {
    if a == [] {
      assert a + b == b;
    } else {
      var h := if IsLayout(a[0]) then [] else [a[0]];
      assert (a + b)[0] == a[0];
      assert (a + b)[1..] == a[1..] + b;
      StripConcat(a[1..], b);
      assert Strip(a + b) == h + Strip(a[1..] + b);
      assert Strip(a) == h + Strip(a[1..]);
    }
  }

  /** Texts alike once stripped stay alike when each is extended by texts alike once stripped. */
  lemma StripCongruent(a1: string, a2: string, b1: string, b2: string)
    requires Strip(a1) == Strip(b1) && Strip(a2) == Strip(b2)
    ensures Strip(a1 + a2) == Strip(b1 + b2)
  {
    StripConcat(a1, a2);
    StripConcat(b1, b2);
  }

  lemma {:induction false} StripLayout(s: string)
    requires AllLayout(s)
    ensures Strip(s) == []
  {
    if s != [] {
      StripLayout(s[1..]);
    }
  }

  /** Layout added on either side of a text disappears. */
  lemma AddLayout(a: string, b: string, l: string)
    requires Strip(a) == Strip(b) && AllLayout(l)
    ensures Strip(a + l) == Strip(b) && Strip(l + a) == Strip(b)
  {
    StripLayout(l);
    StripConcat(a, l);
    StripConcat(l, a);
  }

  lemma {:induction false} IndentIsLayout(level: nat, tab: string)
    requires AllLayout(tab)
    ensures AllLayout(Indent(level, tab))
  {
    if level > 0 {
      IndentIsLayout(level - 1, tab);
    }
  }

  /**
   * The pretty form is the compact form with layout added: once spaces,
   * tabs and line breaks are removed from both, they are the same text,
   * whatever the tab and the line separator (as long as they are layout).
   */
  lemma {:induction false} PrettyIsCompactWithLayout(n: Node, role: Role, level: nat, tab: string, sep: string, env: Env)
    requires AllLayout(tab) && AllLayout(sep)
    ensures Strip(Pretty(n, role, level, tab, sep, env)) == Strip(Compact(n, role, env))
    decreases Weight(n), 1
  {
    IndentIsLayout(level, tab);
    match n
    case JObject(_, _, cs, _) =>
      PrettyItemsIsCompactItems(cs, Member, level + 1, tab, sep, env);
      ObjectLayout(n, role, level, tab, sep, env);
    case JCollection(_, _, cs, _) =>
      PrettyItemsIsCompactItems(cs, Element, level + 1, tab, sep, env);
      CollectionLayout(n, role, level, tab, sep, env);
    case _ =>
      ScalarLayout(n, role, level, tab, sep, env);
  }

  /** The key of a member, with or without the space that follows it in the pretty form. */
  lemma KeyLayout(name: string, member: bool)
    ensures Strip(if member then Key(name) + Whitespace else "") == Strip(if member then Key(name) else "")
  {
    if member {
      AddLayout(Key(name), Key(name), Whitespace);
    }
  }

  lemma ObjectLayout(n: Node, role: Role, level: nat, tab: string, sep: string, env: Env)
    requires n.JObject? && AllLayout(Indent(level, tab)) && AllLayout(sep)
    requires Strip(PrettyItems(n.children, Member, level + 1, tab, sep, env)) == Strip(CompactItems(n.children, Member, env))
    ensures Strip(Pretty(n, role, level, tab, sep, env)) == Strip(Compact(n, role, env))
  {
    var ind := Indent(level, tab);
    var items := PrettyItems(n.children, Member, level + 1, tab, sep, env);
    var compactItems := CompactItems(n.children, Member, env);
    var key := if role.objectChild then Key(n.name) else "";
    var keyLaid := if role.objectChild then Key(n.name) + Whitespace else "";
    var a := if role.objectChild then ind + Key(n.name) + Whitespace else "";
    var b := if role.arrayChild then ind else "";
    var d := if role.objectChild || role.arrayChild then ind else "";
    assert Pretty(n, role, level, tab, sep, env) == a + b + StartObject + items + sep + d + EndObject;
    assert Compact(n, role, env) == key + StartObject + compactItems + EndObject;
    KeyLayout(n.name, role.objectChild);
    assert Strip(a) == Strip(key) by {
      if role.objectChild {
        assert a == ind + keyLaid;
        AddLayout(keyLaid, key, ind);
      }
    }
    assert Strip(a + b) == Strip(key) by {
      if role.arrayChild {
        AddLayout(a, key, b);
      } else {
        assert a + b == a;
      }
    }
    StripCongruent(a + b, StartObject, key, StartObject);
    StripCongruent(a + b + StartObject, items, key + StartObject, compactItems);
    AddLayout(a + b + StartObject + items, key + StartObject + compactItems, sep);
    AddLayout(a + b + StartObject + items + sep, key + StartObject + compactItems, d);
    StripCongruent(a + b + StartObject + items + sep + d, EndObject, key + StartObject + compactItems, EndObject);
  }

  lemma CollectionLayout(n: Node, role: Role, level: nat, tab: string, sep: string, env: Env)
    requires n.JCollection? && AllLayout(Indent(level, tab)) && AllLayout(sep)
    requires Strip(PrettyItems(n.children, Element, level + 1, tab, sep, env)) == Strip(CompactItems(n.children, Element, env))
    ensures Strip(Pretty(n, role, level, tab, sep, env)) == Strip(Compact(n, role, env))
  {
    var ind := Indent(level, tab);
    var items := PrettyItems(n.children, Element, level + 1, tab, sep, env);
    var compactItems := CompactItems(n.children, Element, env);
    var key := if role.objectChild then Key(n.name) else "";
    var keyLaid := if role.objectChild then Key(n.name) + Whitespace else "";
    assert Pretty(n, role, level, tab, sep, env) == ind + keyLaid + StartArray + items + sep + ind + EndArray;
    assert Compact(n, role, env) == key + StartArray + compactItems + EndArray;
    KeyLayout(n.name, role.objectChild);
    AddLayout(keyLaid, key, ind);
    StripCongruent(ind + keyLaid, StartArray, key, StartArray);
    StripCongruent(ind + keyLaid + StartArray, items, key + StartArray, compactItems);
    AddLayout(ind + keyLaid + StartArray + items, key + StartArray + compactItems, sep);
    AddLayout(ind + keyLaid + StartArray + items + sep, key + StartArray + compactItems, ind);
    StripCongruent(ind + keyLaid + StartArray + items + sep + ind, EndArray, key + StartArray + compactItems, EndArray);
  }

  lemma ScalarLayout(n: Node, role: Role, level: nat, tab: string, sep: string, env: Env)
    requires !IsContainer(n) && AllLayout(Indent(level, tab))
    ensures Strip(Pretty(n, role, level, tab, sep, env)) == Strip(Compact(n, role, env))
  {
    var ind := Indent(level, tab);
    var root := !role.objectChild && !role.arrayChild;
    var p1 := if root then StartObject + Whitespace else "";
    var c1 := if root then StartObject else "";
    var p2 := if role.arrayChild then "" else Key(n.name) + Whitespace;
    var c2 := if role.arrayChild then "" else Key(n.name);
    var v := ScalarText(n, env);
    var p3 := if root then Whitespace + EndObject else "";
    var c3 := if root then EndObject else "";
    assert Pretty(n, role, level, tab, sep, env) == ind + p1 + p2 + v + p3;
    assert Compact(n, role, env) == c1 + c2 + v + c3;
    KeyLayout(n.name, !role.arrayChild);
    assert Strip(p1) == Strip(c1) by {
      if root {
        AddLayout(StartObject, StartObject, Whitespace);
      }
    }
    assert Strip(p3) == Strip(c3) by {
      if root {
        AddLayout(EndObject, EndObject, Whitespace);
      }
    }
    AddLayout(p1, c1, ind);
    StripCongruent(ind + p1, p2, c1, c2);
    StripCongruent(ind + p1 + p2, v, c1 + c2, v);
    StripCongruent(ind + p1 + p2 + v, p3, c1 + c2 + v, c3);
  }

  lemma {:induction false} PrettyItemsIsCompactItems(cs: seq<Node>, role: Role, level: nat, tab: string, sep: string, env: Env)
    requires AllLayout(tab) && AllLayout(sep)
    ensures Strip(PrettyItems(cs, role, level, tab, sep, env)) == Strip(CompactItems(cs, role, env))
    decreases WeightAll(cs), 0
  {
    if cs != [] {
      var head := Pretty(cs[0], role, level, tab, sep, env);
      var compactHead := Compact(cs[0], role, env);
      PrettyIsCompactWithLayout(cs[0], role, level, tab, sep, env);
      AddLayout(head, compactHead, sep);
      if |cs| > 1 {
        PrettyItemsIsCompactItems(cs[1..], role, level, tab, sep, env);
        StripCongruent(sep + head, Comma, compactHead, Comma);
        StripCongruent(sep + head + Comma, PrettyItems(cs[1..], role, level, tab, sep, env),
          compactHead + Comma, CompactItems(cs[1..], role, env));
      }
    }
  }

  /**
   * The children of a container are rendered from their clones; on a
   * well-formed tree the clone renders exactly like the child, so the
   * model renders the child itself.
   */
  lemma CloneRendersAlike(n: Node, role: Role, level: nat, tab: string, sep: string, env: Env)
    requires WellFormed(n)
    ensures Compact(Clone(n), role, env) == Compact(n, role, env)
    ensures Pretty(Clone(n), role, level, tab, sep, env) == Pretty(n, role, level, tab, sep, env)
  {
    CloneKeepsChildren(n);
  }
}
