# XNodeOrder in Dafny

This project models the bookkeeping core of XNodePluginOrder, a Unity editor
extension. The extension customises the order and the menu paths of node types
in the "create node" menu of the xNode graph editor. It covers:

- **The settings asset `XNodeOrder`.** It holds an ordered list of entries. Each
  entry has a node type's assembly-qualified name and an optional override
  menu path (`Settings`, a C# string that may be `null` or empty).
- **The two lookups the node menu asks of the asset.**
  - `GetNodeMenuOrder` gives the position of a node type: the index of its
    first entry.
  - `GetNodeMenuName` gives the node type's menu path: the override of its
    first entry, or the caller's fallback when that first entry has no usable
    override. Later entries for the same type are never consulted.
- **The inspector `EditorXNodeOrder`.**
  - `Fill` reconciles the list with the node types discovered in the loaded
    assemblies. First it deletes, walking backwards, every entry whose type
    name does not resolve to a discovered type. Then it appends, in discovery
    order, an entry with a null path for every discovered type that has no
    entry yet.
  - The row-drawing callback applies a rule to the text field of each row.
    The rule decides whether the stored override stays as it is, is set, or
    is cleared to `""`. A decided path is written to the list and to the
    inspector's per-row cache.
  - The cache is dropped whenever rows are reordered.

Layout:

- `node_order.dfy` (module `NodeOrder`): the entry datatypes and the asset
  class. It has the reference definitions of both lookups (`FirstIndex`,
  `MenuOrder`, `MenuName`) and the two lookups as scanning loops proved equal
  to them.
- `node_order_editor.dfy` (module `NodeOrderEditor`):
  - the two phases of `Fill` as in-place loops over the asset's list, proved
    equal to the functions `Kept` and `Appended`, with lemmas stating what
    those functions guarantee;
  - the path-edit rule `PathEdit`, characterised completely by its
    postconditions;
  - the inspector class with its cache invariant.
- `subsequences.dfy` (module `Subsequences`): an order-preserving
  sub-sequence relation used to state "relative order kept".

The host environment is abstracted as follows:

- The asset singleton `Instance` is an `XNodeOrder?` argument of the lookups.
  It is `null` when the asset found in the project did not load.
- The lookups take the node type's assembly-qualified name `stype` directly.
- The inspector holds the host's functions as constants, generic in the node
  type `T`:
  - `Type.GetType` as `resolve`;
  - `Type.AssemblyQualifiedName` as `qualifiedName`;
  - `NodeEditorUtilities.NodeDefaultName` as `defaultName`;
  - the attribute-based `GetNodeMenuName(Type)` as `defaultMenuName`.
- The discovered node types are a sequence argument `nodes`.
- The text typed into a row's field is an argument `edited`.

## Model

| member | source | states |
|---|---|---|
| `NodeOrder.FirstIndex` | XNodeOrder.cs:45-49 | Reference definition of the first-match scan: a returned index is the first entry for the type (in range, matching, no earlier match), and it returns none exactly when no entry has that type |
| `NodeOrder.MenuOrder` | XNodeOrder.cs:43-49 | The menu position of a type is the first index whose entry has that type name; with no such entry it is the fallback |
| `NodeOrder.MenuName` | XNodeOrder.cs:57-67 | The menu path of a type is the path of its first entry when that path is neither null nor empty, and the fallback both when that first entry's path is null or empty and when the type has no entry |
| `NodeOrder.LaterEntriesIgnored` | XNodeOrder.cs:59-65 | Replacing any entry after a type's first entry, for example with a duplicate that carries a path, changes neither lookup: the position stays the first index and the menu path stays what the first entry gives |
| `NodeOrder.GetNodeMenuOrder` | XNodeOrder.cs:38-50 | Returns the fallback when the instance is null (the asset found did not load); otherwise the loop returns exactly MenuOrder of the asset's list. It has no modifies clause, so the list is left unchanged |
| `NodeOrder.GetNodeMenuName` | XNodeOrder.cs:52-68 | Returns the fallback when the instance is null (the asset found did not load); otherwise the loop, which stops at the first matching entry even when that entry's path is empty, returns exactly MenuName. It changes nothing |
| `NodeOrder.XNodeOrder.constructor` | XNodeOrder.cs:29-36 | The asset as loaded: its list is the given sequence of entries |
| `NodeOrderEditor.Kept` | XNodeOrder.cs:207-216 | The removal phase leaves no more entries than it found; an entry survives exactly when it was in the list and its type name resolves to one of the discovered node types |
| `NodeOrderEditor.KeptCounts` | XNodeOrder.cs:208-216 | The removal phase deletes only entries whose type does not resolve to a discovered node type: every known entry keeps all its copies, duplicates included, and every unknown entry loses all of its copies |
| `NodeOrderEditor.KeptIsSubsequence` | XNodeOrder.cs:207-216 | The survivors of the removal phase are a sub-sequence of the original list: they keep their relative order, and their paths are untouched |
| `NodeOrderEditor.KeptAllKnown` | XNodeOrder.cs:207-216 | When every entry's type resolves to a discovered node type, the removal phase deletes nothing |
| `NodeOrderEditor.AppendedOnlyAppends` | XNodeOrder.cs:218-247 | The append phase leaves the list it starts from as an unchanged prefix; every appended entry has a null path and is the first entry for its type, so no type already present is appended and none is appended twice in the same pass |
| `NodeOrderEditor.AppendedInDiscoveryOrder` | XNodeOrder.cs:219-245 | The type names of the appended entries are a sub-sequence of the discovered node types' names, so new entries appear in discovery order |
| `NodeOrderEditor.AppendedCoversNodes` | XNodeOrder.cs:219-245 | After the append phase every discovered node type's assembly-qualified name has an entry in the list |
| `NodeOrderEditor.AppendedNamesDiscovered` | XNodeOrder.cs:222-243 | Every appended entry is named after some discovered node type |
| `NodeOrderEditor.AppendedNothingMissing` | XNodeOrder.cs:224-245 | When every discovered node type already has an entry, the append phase appends nothing |
| `NodeOrderEditor.FilledEntries` | XNodeOrder.cs:201-250 | After Fill, the survivors of the removal phase form a prefix whose entries all resolve to discovered types. Every later entry has a null path and is named after a discovered type. Every discovered type has an entry |
| `NodeOrderEditor.FillIdempotent` | XNodeOrder.cs:201-250 | When resolving a discovered type's qualified name gives that type back, running Fill a second time changes nothing |
| `NodeOrderEditor.PathEdit` | XNodeOrder.cs:134-157 | The rule writes exactly when the typed text differs from what the field showed (the stored override, or the default menu name when there is none). After the write, the effective menu path is the typed text, or the default when the field was emptied. It never stores a non-empty override equal to the default |
| `NodeOrderEditor.PathEditDetermined` | XNodeOrder.cs:134-157 | The three properties of PathEdit determine it: any decision with all three is PathEdit's decision |
| `NodeOrderEditor.EditorXNodeOrder.constructor` | XNodeOrder.cs:86-92 | OnEnable: the asset's list becomes Filled of the old list, and the cache starts empty and valid |
| `NodeOrderEditor.EditorXNodeOrder.Fill` | XNodeOrder.cs:201-250 | The asset's list becomes the append phase applied to the survivors of the removal phase |
| `NodeOrderEditor.EditorXNodeOrder.RemoveUnknown` | XNodeOrder.cs:207-216 | The backward loop, deleting in place, leaves the list equal to Kept of the old list |
| `NodeOrderEditor.EditorXNodeOrder.AppendMissing` | XNodeOrder.cs:218-247 | The forward loop, with its inner found-flag scan, leaves the list equal to Appended of the old list |
| `NodeOrderEditor.EditorXNodeOrder.DrawElement` | XNodeOrder.cs:101-166 | On an empty list nothing changes. Otherwise the row's data is taken from the cache, or computed from the row when missing. PathEdit is applied to that data, which may be stale after an Undo or an outside change to the asset. A decided path replaces the row's path in the list and the cached path, and no other row changes. A cache coherent with the list before the call is coherent after it: each cached row equals what recomputing it from the list gives |
| `NodeOrderEditor.EditorXNodeOrder.OnReorder` | XNodeOrder.cs:173 | Reordering clears the cache |

## Left out

- The lookup of the asset singleton through `AssetDatabase.FindAssets`,
  `LoadAssetAtPath` and `.First()` is Unity asset I/O. The lookups take the
  instance, or `null`, as an argument.
- GetNodeMenuOrder: when the project has no asset at all, `.First()` throws
  on the empty search result and the lookup never returns. This exception is
  not modelled. The fallback is returned only for a null instance.
- GetNodeMenuName: the same exception from `.First()` when the project has no
  asset is not modelled.
- A `null` `order` array is not modelled: the list is a sequence. The
  lookups would throw on a null array, and an asset loaded by Unity always
  has an array.
- `GetAllNodes` is reflection over the loaded assemblies. The discovered node
  types are an argument.
- `Type.GetType`, `AssemblyQualifiedName`, `NodeEditorUtilities.NodeDefaultName`,
  `NodeEditorUtilities.NodeDefaultPath`, `GetAttrib` and the attribute-based
  `GetNodeMenuName(Type)` are foreign calls. They are uninterpreted function
  constants of the inspector.
- All GUI drawing is left out: `ReorderableList`, `EditorGUI`, the header
  callback, `OnInspectorGUI`'s labels and the floating-point `Rect` layout.
  The text field's return value is the argument `edited`.
- `SerializedObject.Update` and `ApplyModifiedProperties` are host persistence
  plumbing. The serialized list is modelled as the asset's list itself.
- The drag reordering is done by the widget and is not modelled. Only its
  callback, which clears the cache, is.
- DrawElement: the `element == null` early return is not modelled, because
  `GetArrayElementAtIndex` yields an element for every index of a non-empty
  list.
- DrawElement: the default menu name is a non-null string. A `null` menu
  name from the host is not modelled.
- GetNodeMenuName: the fallback is a non-null string. A `null` fallback would
  only be passed back unchanged.
- AppendedInDiscoveryOrder: states that appended names follow discovery order
  as a sub-sequence. It does not state that a type named twice among the
  discovered types takes the position of its first occurrence.
- Writing `null` into a serialized string is modelled as a null path. Both
  null and `""` count as "no override" everywhere in the source, so the
  difference is never observed.
