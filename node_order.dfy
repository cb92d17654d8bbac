/** The settings asset `XNodeOrder`: an ordered list of (type name, menu path)
    entries, and the two first-match lookups the node menu asks it for. */
module NodeOrder {

  /** A C# `string`, which may be `null`. */
  datatype NullableString = Null | Text(value: string)

  /** `String.IsNullOrEmpty`. */
  predicate IsNullOrEmpty(p: NullableString)
  {
    p.Null? || p.value == ""
  }

  datatype Option<T> = None | Some(value: T)

  /** One serialized entry (`XNodeOrder.Settings`): the assembly-qualified
      name of a node type and its override menu path. */
  datatype Settings = Settings(typeName: string, path: NullableString)

  /** The menu path that an override `path` gives: the override itself when it
      is neither null nor empty, otherwise the fallback. */
  function OverrideOr(path: NullableString, fallback: string): (r: string)
  {
    if IsNullOrEmpty(path) then fallback else path.value
  }

  /** Some entry of `order` is for type `stype`. */
  predicate Contains(order: seq<Settings>, stype: string)
  {
    exists i :: 0 <= i < |order| && order[i].typeName == stype
  }

  /** `i` is the first index of `order` whose entry is for type `stype`. */
  predicate IsFirstMatch(order: seq<Settings>, stype: string, i: int)
  {
    && 0 <= i < |order|
    && order[i].typeName == stype
    && forall j :: 0 <= j < i ==> order[j].typeName != stype
  }

  lemma FirstMatchUnique(order: seq<Settings>, stype: string, i: int, k: int)
    requires IsFirstMatch(order, stype, i) && IsFirstMatch(order, stype, k)
    ensures i == k
  {
  }

  /** Reference definition of the first matching index, by recursion on the list. */
  function FirstIndex(order: seq<Settings>, stype: string): (r: Option<nat>)
    ensures r.Some? ==> IsFirstMatch(order, stype, r.value)
    ensures r.None? <==> !Contains(order, stype)
  {
    if order == [] then None
    else if order[0].typeName == stype then Some(0)
    else
      match FirstIndex(order[1..], stype)
      case None =>
        assert forall j :: 1 <= j < |order| ==> order[j] == order[1..][j - 1];
        None
      case Some(i) =>
        assert forall j :: 1 <= j <= i + 1 ==> order[j] == order[1..][j - 1];
        Some(i + 1)
  }

  /** The menu position of type `stype`: the index of its first entry, or
      `fallback` when the list has no entry for it. */
  function MenuOrder(order: seq<Settings>, stype: string, fallback: int): (r: int)
    ensures Contains(order, stype) ==> IsFirstMatch(order, stype, r)
    ensures !Contains(order, stype) ==> r == fallback
  {
    match FirstIndex(order, stype)
    case Some(i) => i
    case None => fallback
  }

  /** The menu path of type `stype`: the override path of its FIRST entry when
      that path is neither null nor empty, `fallback` otherwise. Later entries
      for the same type are never consulted. */
  function MenuName(order: seq<Settings>, stype: string, fallback: string): (r: string)
    ensures forall i :: IsFirstMatch(order, stype, i) ==> r == OverrideOr(order[i].path, fallback)
    ensures !Contains(order, stype) ==> r == fallback
  {
    match FirstIndex(order, stype)
    case Some(i) => OverrideOr(order[i].path, fallback)
    case None => fallback
  }

  /** Entries after the first match for `stype` do not influence either
      lookup: replacing one of them, say by a duplicate with a path, leaves
      both results as they were. */
  lemma LaterEntriesIgnored(order: seq<Settings>, stype: string, i: nat, j: nat, e: Settings,
                            fallbackOrder: int, fallbackName: string)
    requires IsFirstMatch(order, stype, i) && i < j < |order|
    ensures MenuOrder(order[j := e], stype, fallbackOrder) == MenuOrder(order, stype, fallbackOrder) == i
    ensures MenuName(order[j := e], stype, fallbackName) == MenuName(order, stype, fallbackName)
  {
    assert IsFirstMatch(order[j := e], stype, i);
    FirstMatchUnique(order[j := e], stype, i, MenuOrder(order[j := e], stype, fallbackOrder));
    FirstMatchUnique(order, stype, i, MenuOrder(order, stype, fallbackOrder));
  }

  /** The settings asset. Unity loads `order` from disk; the model starts
      from the loaded list. */
  class XNodeOrder {
    var order: seq<Settings>

    constructor (order: seq<Settings>)
      ensures this.order == order
    {
      this.order := order;
    }
  }

  /** `XNodeOrder.GetNodeMenuOrder`, with `stype` the node type's
      assembly-qualified name and `instance` the asset instance, which is
      `null` when the asset found did not load. A first-match scan that reads
      the list and changes nothing. */
  method GetNodeMenuOrder(instance: XNodeOrder?, stype: string, fallback: int) returns (r: int)
    ensures instance == null ==> r == fallback
    ensures instance != null ==> r == MenuOrder(instance.order, stype, fallback)
  {
    if instance == null {
      return fallback;
    }
    for i := 0 to |instance.order|
      invariant forall j :: 0 <= j < i ==> instance.order[j].typeName != stype
    {
      if instance.order[i].typeName == stype {
        FirstMatchUnique(instance.order, stype, i, MenuOrder(instance.order, stype, fallback));
        return i;
      }
    }
    return fallback;
  }

  /** `XNodeOrder.GetNodeMenuName`: the scan stops at the first entry for
      `stype`, whether or not that entry has a usable path. */
  method GetNodeMenuName(instance: XNodeOrder?, stype: string, fallback: string) returns (r: string)
    ensures instance == null ==> r == fallback
    ensures instance != null ==> r == MenuName(instance.order, stype, fallback)
  {
    if instance == null {
      return fallback;
    }
    for i := 0 to |instance.order|
      invariant forall j :: 0 <= j < i ==> instance.order[j].typeName != stype
    {
      if instance.order[i].typeName == stype {
        assert IsFirstMatch(instance.order, stype, i);
        if !IsNullOrEmpty(instance.order[i].path) {
          return instance.order[i].path.value;
        }
        break;
      }
    }
    return fallback;
  }
}
