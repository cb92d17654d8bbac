/** The inspector `EditorXNodeOrder`: it reconciles the asset's list with the
    node types found in the loaded assemblies (`Fill`), and lets the user
    edit each entry's override path through a text field whose rule decides
    when the stored override is set or cleared. */
module NodeOrderEditor {
  import opened NodeOrder
  import opened Subsequences

  /** Cached display data of one row (`EditorXNodeOrder.Data`). */
  datatype Data<T> = Data(nodeType: Option<T>, path: NullableString, defaultName: string, defaultMenuName: string)

  /** The type names of the entries, in list order. */
  function TypeNames(order: seq<Settings>): (r: seq<string>)
  {
    seq(|order|, i requires 0 <= i < |order| => order[i].typeName)
  }

  /** The assembly-qualified names of the discovered node types, in discovery order. */
  function Names<T>(nodes: seq<T>, qualifiedName: T -> string): (r: seq<string>)
  {
    seq(|nodes|, i requires 0 <= i < |nodes| => qualifiedName(nodes[i]))
  }

  // ---------------------------------------------------------------------------
  // Fill, phase 1: drop entries whose type is not a discovered node type
  // ---------------------------------------------------------------------------

  /** The entry's type name resolves (`Type.GetType`) to one of `nodes`. */
  predicate IsKnown<T(==)>(e: Settings, nodes: seq<T>, resolve: string -> Option<T>)
  {
    match resolve(e.typeName)
    case Some(t) => t in nodes
    case None => false
  }

  /** The entries that survive the removal phase, in their original order. */
  function Kept<T(==)>(order: seq<Settings>, nodes: seq<T>, resolve: string -> Option<T>): (r: seq<Settings>)
    ensures |r| <= |order|
    ensures forall e :: e in r <==> e in order && IsKnown(e, nodes, resolve)
  {
    if order == [] then []
    else
      var rest := Kept(order[1..], nodes, resolve);
      assert forall e :: e in order <==> e == order[0] || e in order[1..];
      if IsKnown(order[0], nodes, resolve) then [order[0]] + rest else rest
  }

  /** One step of the backward removal loop: the part still to visit, plus
      the survivors of the part already visited, loses entry `i` exactly when
      that entry is not known. */
  lemma RemoveStep<T>(order: seq<Settings>, i: nat, nodes: seq<T>, resolve: string -> Option<T>)
    requires i < |order|
    ensures var rest := Kept(order[i + 1..], nodes, resolve);
      var visited := order[..i + 1] + rest;
      order[..i] + Kept(order[i..], nodes, resolve)
        == if IsKnown(order[i], nodes, resolve) then visited else visited[..i] + visited[i + 1..]
  {
  }

  /** The removal phase keeps every copy of a known entry, duplicates
      included, and no copy of an unknown one. */
  lemma {:induction false} KeptCounts<T>(order: seq<Settings>, nodes: seq<T>, resolve: string -> Option<T>)
    ensures forall e :: multiset(Kept(order, nodes, resolve))[e]
                     == if IsKnown(e, nodes, resolve) then multiset(order)[e] else 0
  {
    if order != [] {
      KeptCounts(order[1..], nodes, resolve);
      assert order == [order[0]] + order[1..];
    }
  }

  /** The removal phase keeps the surviving entries in their relative order,
      each with its path untouched. */
  lemma {:induction false} KeptIsSubsequence<T>(order: seq<Settings>, nodes: seq<T>, resolve: string -> Option<T>)
    ensures IsSubsequence(Kept(order, nodes, resolve), order)
  {
    if order != [] {
      KeptIsSubsequence(order[1..], nodes, resolve);
      var k := Kept(order, nodes, resolve);
      if IsKnown(order[0], nodes, resolve) {
        assert k[0] == order[0] && k[1..] == Kept(order[1..], nodes, resolve);
      } else if k != [] {
        assert k[0] in k;
      }
    }
  }

  /** When every entry is known, the removal phase removes nothing. */
  lemma {:induction false} KeptAllKnown<T>(order: seq<Settings>, nodes: seq<T>, resolve: string -> Option<T>)
    requires forall e :: e in order ==> IsKnown(e, nodes, resolve)
    ensures Kept(order, nodes, resolve) == order
  {
    if order != [] {
      assert order[0] in order;
      KeptAllKnown(order[1..], nodes, resolve);
      assert [order[0]] + order[1..] == order;
    }
  }

  // ---------------------------------------------------------------------------
  // Fill, phase 2: append the node types that have no entry yet
  // ---------------------------------------------------------------------------

  /** The list after visiting `nodes` in order, appending an entry with a null
      path for each node type whose name is not yet present. */
  function Appended<T>(order: seq<Settings>, nodes: seq<T>, qualifiedName: T -> string): (r: seq<Settings>)
    decreases |nodes|
  {
    if nodes == [] then order
    else
      var prev := Appended(order, nodes[..|nodes| - 1], qualifiedName);
      var stype := qualifiedName(nodes[|nodes| - 1]);
      if Contains(prev, stype) then prev else prev + [Settings(stype, Null)]
  }

  /** The append phase only appends: the list it starts from is a prefix of
      the result, every appended entry has a null path, and every appended
      entry is the first entry for its type (no type is added twice, nor
      added when already present). */
  lemma {:induction false} AppendedOnlyAppends<T>(order: seq<Settings>, nodes: seq<T>, qualifiedName: T -> string)
    ensures var r := Appended(order, nodes, qualifiedName);
      && order <= r
      && (forall j :: |order| <= j < |r| ==> r[j].path == Null)
      && (forall j :: |order| <= j < |r| ==> IsFirstMatch(r, r[j].typeName, j))
    decreases |nodes|
  {
    if nodes != [] {
      var init := nodes[..|nodes| - 1];
      var prev := Appended(order, init, qualifiedName);
      var stype := qualifiedName(nodes[|nodes| - 1]);
      AppendedOnlyAppends(order, init, qualifiedName);
      if !Contains(prev, stype) {
        var r := prev + [Settings(stype, Null)];
        forall j | |order| <= j < |r|
          ensures IsFirstMatch(r, r[j].typeName, j)
        {
          if j < |prev| {
            assert IsFirstMatch(prev, prev[j].typeName, j);
          }
        }
      }
    }
  }

  /** The appended type names are a sub-sequence of the discovered names:
      new entries appear in discovery order. */
  lemma {:induction false} AppendedInDiscoveryOrder<T>(order: seq<Settings>, nodes: seq<T>, qualifiedName: T -> string)
    ensures var r := Appended(order, nodes, qualifiedName);
      |order| <= |r| && IsSubsequence(TypeNames(r[|order|..]), Names(nodes, qualifiedName))
    decreases |nodes|
  {
    var r := Appended(order, nodes, qualifiedName);
    AppendedOnlyAppends(order, nodes, qualifiedName);
    if nodes == [] {
      assert TypeNames(r[|order|..]) == [];
    } else {
      var init := nodes[..|nodes| - 1];
      var prev := Appended(order, init, qualifiedName);
      var stype := qualifiedName(nodes[|nodes| - 1]);
      AppendedInDiscoveryOrder(order, init, qualifiedName);
      assert Names(nodes, qualifiedName) == Names(init, qualifiedName) + [stype];
      SubsequenceSnoc(TypeNames(prev[|order|..]), Names(init, qualifiedName), stype);
      if !Contains(prev, stype) {
        assert TypeNames(r[|order|..]) == TypeNames(prev[|order|..]) + [stype];
      }
    }
  }

  /** After the append phase every discovered node type has an entry. */
  lemma {:induction false} AppendedCoversNodes<T>(order: seq<Settings>, nodes: seq<T>, qualifiedName: T -> string)
    ensures var r := Appended(order, nodes, qualifiedName);
      forall t :: t in nodes ==> Contains(r, qualifiedName(t))
    decreases |nodes|
  {
    if nodes != [] {
      var init := nodes[..|nodes| - 1];
      var prev := Appended(order, init, qualifiedName);
      var r := Appended(order, nodes, qualifiedName);
      AppendedCoversNodes(order, init, qualifiedName);
      AppendedOnlyAppends(order, init, qualifiedName);
      assert nodes == init + [nodes[|nodes| - 1]];
      forall t | t in nodes
        ensures Contains(r, qualifiedName(t))
      {
        if t in init {
          var i :| 0 <= i < |prev| && prev[i].typeName == qualifiedName(t);
          assert r[i] == prev[i];
        } else {
          assert t == nodes[|nodes| - 1];
          if !Contains(prev, qualifiedName(t)) {
            assert r[|prev|].typeName == qualifiedName(t);
          }
        }
      }
    }
  }

  /** When every discovered node type already has an entry, the append phase
      appends nothing. */
  lemma {:induction false} AppendedNothingMissing<T>(order: seq<Settings>, nodes: seq<T>, qualifiedName: T -> string)
    requires forall t :: t in nodes ==> Contains(order, qualifiedName(t))
    ensures Appended(order, nodes, qualifiedName) == order
    decreases |nodes|
  {
    if nodes != [] {
      var init := nodes[..|nodes| - 1];
      assert forall t :: t in init ==> t in nodes;
      AppendedNothingMissing(order, init, qualifiedName);
      assert nodes[|nodes| - 1] in nodes;
    }
  }

  // ---------------------------------------------------------------------------
  // Fill as a whole
  // ---------------------------------------------------------------------------

  /** The list after both phases of `Fill`. */
  function Filled<T(==)>(order: seq<Settings>, nodes: seq<T>, resolve: string -> Option<T>,
                         qualifiedName: T -> string): (r: seq<Settings>)
  {
    Appended(Kept(order, nodes, resolve), nodes, qualifiedName)
  }

  /** Every appended type name is the name of a discovered node type. */
  lemma AppendedNamesDiscovered<T>(order: seq<Settings>, nodes: seq<T>, qualifiedName: T -> string)
    ensures var r := Appended(order, nodes, qualifiedName);
      forall j :: |order| <= j < |r| ==> exists k :: 0 <= k < |nodes| && qualifiedName(nodes[k]) == r[j].typeName
  {
    var r := Appended(order, nodes, qualifiedName);
    AppendedInDiscoveryOrder(order, nodes, qualifiedName);
    var added := TypeNames(r[|order|..]);
    var names := Names(nodes, qualifiedName);
    SubsequenceMembers(added, names);
    forall j | |order| <= j < |r|
      ensures exists k :: 0 <= k < |nodes| && qualifiedName(nodes[k]) == r[j].typeName
    {
      assert added[j - |order|] == r[j].typeName;
      assert r[j].typeName in names;
      var k :| 0 <= k < |names| && names[k] == r[j].typeName;
      assert qualifiedName(nodes[k]) == r[j].typeName;
    }
  }

  /** Every entry after `Fill` is either a survivor of the removal phase, whose
      type resolves to a discovered node type, or a freshly appended entry with
      a null path named after a discovered node type; and every discovered
      node type has an entry. */
  lemma FilledEntries<T>(order: seq<Settings>, nodes: seq<T>, resolve: string -> Option<T>,
                             qualifiedName: T -> string)
    ensures var kept := Kept(order, nodes, resolve);
      var r := Filled(order, nodes, resolve, qualifiedName);
      && kept <= r
      && (forall j :: 0 <= j < |kept| ==> IsKnown(r[j], nodes, resolve))
      && (forall j :: |kept| <= j < |r| ==> r[j].path == Null)
      && (forall j :: |kept| <= j < |r| ==> exists k :: 0 <= k < |nodes| && qualifiedName(nodes[k]) == r[j].typeName)
      && (forall t :: t in nodes ==> Contains(r, qualifiedName(t)))
  {
    var kept := Kept(order, nodes, resolve);
    var r := Filled(order, nodes, resolve, qualifiedName);
    AppendedOnlyAppends(kept, nodes, qualifiedName);
    AppendedNamesDiscovered(kept, nodes, qualifiedName);
    AppendedCoversNodes(kept, nodes, qualifiedName);
    forall j | 0 <= j < |kept|
      ensures IsKnown(r[j], nodes, resolve)
    {
      assert r[j] == kept[j] && kept[j] in kept;
    }
  }

  /** When resolving the qualified name of a discovered node type gives that
      type back, a second `Fill` changes nothing: opening the inspector again
      leaves the list as the first opening made it. */
  lemma FillIdempotent<T>(order: seq<Settings>, nodes: seq<T>, resolve: string -> Option<T>,
                              qualifiedName: T -> string)
    requires forall t :: t in nodes ==> resolve(qualifiedName(t)) == Some(t)
    ensures var r := Filled(order, nodes, resolve, qualifiedName);
      Filled(r, nodes, resolve, qualifiedName) == r
  {
    var kept := Kept(order, nodes, resolve);
    var r := Filled(order, nodes, resolve, qualifiedName);
    FilledEntries(order, nodes, resolve, qualifiedName);
    forall e | e in r
      ensures IsKnown(e, nodes, resolve)
    {
      var j :| 0 <= j < |r| && r[j] == e;
      if j >= |kept| {
        var k :| 0 <= k < |nodes| && qualifiedName(nodes[k]) == e.typeName;
        assert nodes[k] in nodes;
      }
    }
    KeptAllKnown(r, nodes, resolve);
    AppendedNothingMissing(r, nodes, qualifiedName);
  }

  // ---------------------------------------------------------------------------
  // The path-edit rule of one row
  // ---------------------------------------------------------------------------

  /** The stored path after the rule's decision `setpath` is written back. */
  function Written(stored: NullableString, setpath: Option<string>): (r: NullableString)
  {
    match setpath
    case None => stored
    case Some(p) => Text(p)
  }

  /** The decision taken after the text field of a row returns `edited`: the
      field shows the stored override, or the default menu name when there is
      none. `None` leaves the stored path alone; `Some(p)` stores `p`.
      The rule writes exactly when the user changed the shown text; after the
      write the effective menu path is what the user typed, or the default
      when the user emptied the field; and it never stores a non-empty
      override equal to the default. These three facts determine the rule
      (see PathEditDetermined). */
  function PathEdit(stored: NullableString, defaultMenuName: string, edited: string): (setpath: Option<string>)
    ensures setpath.None? <==> edited == OverrideOr(stored, defaultMenuName)
    ensures OverrideOr(Written(stored, setpath), defaultMenuName) == if edited == "" then defaultMenuName else edited
    ensures setpath.Some? ==> setpath.value == "" || setpath.value != defaultMenuName
  {
    if IsNullOrEmpty(stored) then
      if edited == defaultMenuName then None else Some(edited)
    else if edited == stored.value then None
    else if edited == defaultMenuName then Some("")
    else Some(edited)
  }

  /** Any decision with the three properties of PathEdit is PathEdit's. */
  lemma PathEditDetermined(stored: NullableString, defaultMenuName: string, edited: string, setpath: Option<string>)
    requires setpath.None? <==> edited == OverrideOr(stored, defaultMenuName)
    requires OverrideOr(Written(stored, setpath), defaultMenuName) == if edited == "" then defaultMenuName else edited
    requires setpath.Some? ==> setpath.value == "" || setpath.value != defaultMenuName
    ensures setpath == PathEdit(stored, defaultMenuName, edited)
  {
  }

  // ---------------------------------------------------------------------------
  // The inspector
  // ---------------------------------------------------------------------------

  /** The inspector of one `XNodeOrder` asset. The functions it calls into the
      host (`Type.GetType`, `Type.AssemblyQualifiedName`,
      `NodeEditorUtilities.NodeDefaultName` and the attribute-based
      `GetNodeMenuName(Type)`) are given as constants. */
  class EditorXNodeOrder<T(==)> {
    const target: XNodeOrder
    const resolve: string -> Option<T>
    const qualifiedName: T -> string
    const defaultName: Option<T> -> string
    const defaultMenuName: Option<T> -> string

    /** Row index to display data, filled lazily while drawing. */
    var cache: map<int, Data<T>>

    /** The display data computed afresh for entry `e`. */
    function DataFor(e: Settings): (d: Data<T>)
    {
      var t := resolve(e.typeName);
      Data(t, e.path, defaultName(t), defaultMenuName(t))
    }

    /** Every cached row is a row of the list and holds what recomputing it
        from that row would give. */
    ghost predicate Valid()
      reads this, target
    {
      forall i :: i in cache ==> 0 <= i < |target.order| && cache[i] == DataFor(target.order[i])
    }

    /** `OnEnable`: reconcile the list with the discovered node types, starting
        with an empty cache. */
    constructor (target: XNodeOrder, nodes: seq<T>, resolve: string -> Option<T>, qualifiedName: T -> string,
                 defaultName: Option<T> -> string, defaultMenuName: Option<T> -> string)
      modifies target
      ensures this.target == target && this.resolve == resolve && this.qualifiedName == qualifiedName
      ensures this.defaultName == defaultName && this.defaultMenuName == defaultMenuName
      ensures target.order == Filled(old(target.order), nodes, resolve, qualifiedName)
      ensures cache == map[] && Valid()
    {
      this.target := target;
      this.resolve := resolve;
      this.qualifiedName := qualifiedName;
      this.defaultName := defaultName;
      this.defaultMenuName := defaultMenuName;
      cache := map[];
      new;
      Fill(nodes);
    }

    /** `Fill`: both phases, then the list is as Filled says. */
    method Fill(nodes: seq<T>)
      modifies target
      ensures target.order == Filled(old(target.order), nodes, resolve, qualifiedName)
    {
      RemoveUnknown(nodes);
      AppendMissing(nodes);
    }

    /** The removal loop of `Fill`, walking backwards and deleting in place. */
    method RemoveUnknown(nodes: seq<T>)
      modifies target
      ensures target.order == Kept(old(target.order), nodes, resolve)
    {
      ghost var original := target.order;
      var i := |target.order| - 1;
      while i >= 0
        invariant -1 <= i < |original|
        invariant target.order == original[..i + 1] + Kept(original[i + 1..], nodes, resolve)
      {
        RemoveStep(original, i, nodes, resolve);
        assert target.order[i] == original[i];
        if !IsKnown(target.order[i], nodes, resolve) {
          target.order := target.order[..i] + target.order[i + 1..];
        }
        i := i - 1;
      }
      assert original[0..] == original;
    }

    /** The append loop of `Fill`: for each node type in discovery order, an
        inner scan looks for its name and, when absent, an entry with a null
        path is added at the end. */
    method AppendMissing(nodes: seq<T>)
      modifies target
      ensures target.order == Appended(old(target.order), nodes, qualifiedName)
    {
      ghost var original := target.order;
      for k := 0 to |nodes|
        invariant target.order == Appended(original, nodes[..k], qualifiedName)
      {
        var stype := qualifiedName(nodes[k]);
        var found := false;
        for i := 0 to |target.order|
          invariant !found ==> forall j :: 0 <= j < i ==> target.order[j].typeName != stype
          invariant found ==> Contains(target.order, stype)
        {
          if target.order[i].typeName == stype {
            found := true;
            break;
          }
        }
        if !found {
          target.order := target.order + [Settings(stype, Null)];
        }
        assert nodes[..k + 1][..k] == nodes[..k];
      }
      assert nodes[..|nodes|] == nodes;
    }

    /** The row-drawing callback for row `index`, where the row's text field
        returned `edited`: fill the cache entry if missing, apply the path-edit
        rule to the cached data, and write a decided path to both the list and
        the cache. The cached data may be stale (an Undo or another change to
        the asset since it was cached); the rule then works on the cached path
        and default menu name, as the inspector does. When the cache was
        coherent with the list, it still is afterwards, and the rule worked on
        the row's own stored path. */
    method DrawElement(index: int, edited: string)
      requires 0 <= index && (|target.order| == 0 || index < |target.order|)
      modifies this, target
      ensures |old(target.order)| == 0 ==> target.order == old(target.order) && cache == old(cache)
      ensures |old(target.order)| > 0 ==>
        var e := old(target.order)[index];
        var data := if index in old(cache) then old(cache)[index] else DataFor(e);
        var setpath := PathEdit(data.path, data.defaultMenuName, edited);
        && target.order == old(target.order)[index := e.(path := Written(e.path, setpath))]
        && cache == old(cache)[index := data.(path := Written(data.path, setpath))]
      ensures old(Valid()) ==> Valid()
    {
      if |target.order| == 0 {
        return;
      }
      var data: Data<T>;
      if index in cache {
        data := cache[index];
      } else {
        data := DataFor(target.order[index]);
        cache := cache[index := data];
      }
      var setpath := PathEdit(data.path, data.defaultMenuName, edited);
      if setpath.Some? {
        var e := target.order[index];
        target.order := target.order[index := e.(path := Text(setpath.value))];
        data := data.(path := Text(setpath.value));
        cache := cache[index := data];
      }
    }

    /** After the list widget reorders rows, the cache is dropped, since its
        keys are row positions. */
    method OnReorder()
      modifies this
      ensures cache == map[] && Valid()
    {
      cache := map[];
    }
  }
}
