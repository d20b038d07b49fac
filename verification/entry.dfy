/**
 * The base class of every node kind of the com package (JsonEntry): its
 * name, value and format, the two flags saying whether it sits in an
 * object or in an array, its indentation level and tab, and the helpers
 * that look at the children the concrete kind exposes.
 */
module Entries {
  import opened Wrappers
  import opened JsonText
  import opened Descriptors
  import opened Natives

  /**
   * `isChildPresent(name)` over the keys of the children, in order: the
   * first key equal to the name answers true, and a null key met before it
   * throws a NullPointerException (`child.getKey().equals(name)`).
   */
  function KeyPresent(keys: seq<Option<string>>, name: string): (r: Result<bool, Fault>)
    ensures r.Err? ==> r.error == NullPointer && None in keys
    ensures r == Ok(true) ==> Some(name) in keys
    ensures None !in keys ==> r == Ok(Some(name) in keys)
  {
    if keys == [] then Ok(false)
    else if keys[0].None? then Err(NullPointer)
    else if keys[0].value == name then Ok(true)
    else KeyPresent(keys[1..], name)
  }

  /** A key present before any null key is found. */
  lemma {:induction false} KeyFoundBeforeNull(keys: seq<Option<string>>, name: string, k: nat)
    requires k < |keys| && keys[k] == Some(name)
    requires forall i :: 0 <= i < k ==> keys[i].Some?
    ensures KeyPresent(keys, name) == Ok(true)
  {
    if keys[0] != Some(name) {
      KeyFoundBeforeNull(keys[1..], name, k - 1);
    }
  }

  class Entry {
    var name: Option<string>
    var value: Native
    var info: Option<Format>
    var objectChild: bool
    var arrayChild: bool
    var indentLevel: int
    var tab: string
    /** What the concrete kind's `getChildren` returns: the keys of its children in order, or null. */
    var childKeys: Option<seq<Option<string>>>

    /** The no-argument constructor: every field at its declared default. */
    constructor ()
      ensures name.None? && value.NNull? && info.None?
      ensures !objectChild && !arrayChild && indentLevel == 0 && tab == Tab
      ensures childKeys.None?
    {
      name := None;
      value := NNull;
      info := None;
      objectChild := false;
      arrayChild := false;
      indentLevel := 0;
      tab := Tab;
      childKeys := None;
    }

    /**
     * The (name, value, info) constructor, for a kind whose children have
     * the given keys; the flags, the level and the tab keep their defaults.
     */
    constructor Of(name: Option<string>, value: Native, info: Option<Format>, childKeys: Option<seq<Option<string>>>)
      ensures this.name == name && this.value == value && this.info == info
      ensures !objectChild && !arrayChild && indentLevel == 0 && tab == Tab
      ensures this.childKeys == childKeys
    {
      this.name := name;
      this.value := value;
      this.info := info;
      objectChild := false;
      arrayChild := false;
      indentLevel := 0;
      tab := Tab;
      this.childKeys := childKeys;
    }

    /** The (name, value, pattern, locale, timezone) constructor: the two strings looked up, the pattern kept as given. */
    constructor WithFormat(name: Option<string>, value: Native, pattern: Option<string>, locale: Option<string>, timezone: Option<string>, env: Env)
      ensures this.name == name && this.value == value
      ensures info == Some(Format(pattern, env.toLocale(locale), env.toTimeZone(timezone)))
      ensures !objectChild && !arrayChild && indentLevel == 0 && tab == Tab
      ensures childKeys.None?
    {
      this.name := name;
      this.value := value;
      info := Some(Format(pattern, env.toLocale(locale), env.toTimeZone(timezone)));
      objectChild := false;
      arrayChild := false;
      indentLevel := 0;
      tab := Tab;
      childKeys := None;
    }

    /** `getName`. */
    function GetName(): Option<string>
      reads this
    {
      name
    }

    /** `getKey`, the map-entry view of the name. */
    function GetKey(): (r: Option<string>)
      reads this
      ensures r == GetName()
    {
      name
    }

    /** `setValue`: stores the value and returns it; nothing else changes. */
    method SetValue(v: Native) returns (r: Native)
      modifies this
      ensures value == v && r == v
      ensures name == old(name) && info == old(info) && childKeys == old(childKeys)
      ensures objectChild == old(objectChild) && arrayChild == old(arrayChild)
      ensures indentLevel == old(indentLevel) && tab == old(tab)
    {
      value := v;
      r := value;
    }

    /** `childrenSize`: the number of children, 0 when the kind has none (a null collection). */
    function ChildrenSize(): (r: nat)
      reads this
      ensures childKeys.None? ==> r == 0
      ensures childKeys.Some? ==> r == |childKeys.value|
    {
      if childKeys.Some? then |childKeys.value| else 0
    }

    /** `isChildPresent(index)`, written with the source's `index <= size - 1`. */
    function IsChildPresentAt(index: int): (r: bool)
      reads this
      ensures r <==> 0 <= index < ChildrenSize()
    {
      if index < 0 then false
      else childKeys.Some? && index <= |childKeys.value| - 1
    }

    /**
     * `isChildPresent(name)`: false for a null or blank name and for a kind
     * without children, else whether some child bears the name.
     */
    function IsChildPresentNamed(n: Option<string>): (r: Result<bool, Fault>)
      reads this
      ensures IsMissing(n) || childKeys.None? ==> r == Ok(false)
      ensures r == Ok(true) ==> n.Some? && childKeys.Some? && Some(n.value) in childKeys.value
      ensures !IsMissing(n) && childKeys.Some? && None !in childKeys.value
              ==> r == Ok(Some(n.value) in childKeys.value)
    {
      if IsMissing(n) then Ok(false)
      else if childKeys.Some? then KeyPresent(childKeys.value, n.value)
      else Ok(false)
    }

    /**
     * `toPrettyString(tab)`: a non-null tab replaces the stored one for good,
     * a null tab keeps it; the text is the concrete kind's pretty form,
     * given here as a function of the stored tab.
     */
    method ToPrettyString(t: Option<string>, pretty: string -> string) returns (r: string)
      modifies this
      ensures tab == if t.Some? then t.value else old(tab)
      ensures r == pretty(tab)
      ensures name == old(name) && value == old(value) && info == old(info) && childKeys == old(childKeys)
      ensures objectChild == old(objectChild) && arrayChild == old(arrayChild) && indentLevel == old(indentLevel)
    {
      if t.Some? {
        tab := t.value;
      }
      r := pretty(tab);
    }
  }

  /** A tab given once is kept by later calls without one. */
  method TabPersists(e: Entry, t: string, pretty: string -> string) returns (first: string, second: string)
    modifies e
    ensures first == pretty(t) && second == pretty(t) && e.tab == t
  {
    first := e.ToPrettyString(Some(t), pretty);
    second := e.ToPrettyString(None, pretty);
  }
}
