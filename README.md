# JSON schema builder: field tree and exporter

A Dafny model of the logic of the JSON schema builder component
(`src/components/JsonBuilder/JsonBuilder.tsx`). A user builds a tree of
fields. Each field has an id, a key, one of six types, and optional children.
The builder shows the tree as a document in which every leaf is a placeholder
token naming its type.

- `FieldTree` (`field_tree.dfy`) holds the `Field` datatype and the edit
  operations on one sibling list. The edits are append a fresh field, replace
  at an index, delete at an index, key edit, retype and children replacement.
  It also holds the invariant "children present iff type is nested", plus
  node counts and per-id occurrence counts. The source's copy-and-assign and
  copy-and-`splice` handlers are methods over a fresh array. They are proved
  equal to the functions `UpdateAt` and `DeleteAt`.
- `SchemaEditor` (`schema_editor.dfy`) models the recursive editor. Each
  nested editor passes its new child list up to its parent, which stores it
  with a children update. So an edit `d` levels down is an edit of the list
  reached by a path of `d` sibling indices (`ApplyAt`). The module proves that
  every edit at every depth keeps the invariant and that a delete removes the
  whole subtree. It also proves that ids stay unique when the added ids are
  fresh, and that adding a field to a well-formed tree does not change the
  export.
  `Scenario.NameAndAddress` replays a complete editing session.
- `Exporter` (`exporter.dfy`) models `exportJson` as a left fold over the
  siblings (`Export`) and as the source's loop (`ExportJson`), proved equal.
  The module proves what the fold does with an empty key, the placeholder of
  each leaf type and a nested field. It also proves that the output's key set
  is exactly the exporting fields' keys, and that a later sibling with the
  same key wins.

The output document is `Doc = Str(string) | Obj(map<string, Doc>)`. The source
writes `children?: Field[]`; the model writes this as
`Children = Absent | Present(list)`.

One behaviour may be surprising. A nested field with no children might be
expected to export as an empty object. The code at line 25 tests `field.children` for truthiness, and no leaf branch matches
`"nested"`. So such a field writes no entry at all. The model follows the code:
`Value` is `None` for it, and `ExportNested` states both cases. An empty child
list is truthy, so it still exports `{}`. `WellFormedExports` shows that a
well-formed tree never holds such a field. The retype handler gives every
nested field a child list.

## Model

| member | source | states |
|---|---|---|
| FieldTree.ChildList | src/components/JsonBuilder/JsonBuilder.tsx:119 | the list a nested editor is given (the children, or the empty list when absent) holds the field's whole subtree below it: the node count and every id's occurrences are the field's own plus the list's, and a well-formed field gives a well-formed list |
| FieldTree.NewField | src/components/JsonBuilder/JsonBuilder.tsx:70 | a new field has the given id, an empty key, type string, no children, is well formed and is a single node |
| FieldTree.AddField | src/components/JsonBuilder/JsonBuilder.tsx:68-72 | adding keeps every existing field in place, grows the list by one, puts the new field last and keeps the invariant |
| FieldTree.UpdateAt | src/components/JsonBuilder/JsonBuilder.tsx:62-66 | replacing at an index changes only that position, keeps the length, and keeps the invariant when the new field satisfies it |
| FieldTree.DeleteAt | src/components/JsonBuilder/JsonBuilder.tsx:74-78 | deleting shortens the list by one, keeps the fields before the index, shifts the later ones down by one and keeps the invariant |
| FieldTree.SetKey | src/components/JsonBuilder/JsonBuilder.tsx:86 | a key edit sets the key and leaves id, type and children unchanged |
| FieldTree.Retype | src/components/JsonBuilder/JsonBuilder.tsx:91-99 | retype keeps id and key and sets the type; afterwards children are present iff the type is nested; nested to nested keeps the children; a switch to nested without children gives the empty list |
| FieldTree.SetChildren | src/components/JsonBuilder/JsonBuilder.tsx:120 | a children update keeps id, key and type, installs the new list, and keeps a nested field well formed |
| FieldTree.AddFieldSizes | src/components/JsonBuilder/JsonBuilder.tsx:68-71 | adding grows the node count by one and adds exactly one occurrence of the new id |
| FieldTree.DeleteAtRemovesSubtree | src/components/JsonBuilder/JsonBuilder.tsx:74-77 | deleting lowers the node count by the deleted field's subtree size and removes exactly the subtree's id occurrences |
| FieldTree.UpdateAtSizes | src/components/JsonBuilder/JsonBuilder.tsx:62-65 | replacing at an index trades the old field's subtree for the new one's, in node count and in every id's occurrences |
| FieldTree.RetypeSizes | src/components/JsonBuilder/JsonBuilder.tsx:93-98 | retype never adds nodes or id occurrences: it keeps the subtree or drops it |
| FieldTree.RetypeAwayAndBackResets | src/components/JsonBuilder/JsonBuilder.tsx:94-98 | a nested field switched to another type and back to nested has an empty child list; id and key are kept |
| FieldTree.RetypeSameIsIdentity | src/components/JsonBuilder/JsonBuilder.tsx:93-98 | choosing a well-formed field's current type again leaves it unchanged |
| FieldTree.SetKeySizes | src/components/JsonBuilder/JsonBuilder.tsx:86 | a key edit keeps the node count and every id's occurrences |
| FieldTree.HandleFieldUpdate | src/components/JsonBuilder/JsonBuilder.tsx:62-66 | copying into an array and assigning one slot yields exactly UpdateAt |
| FieldTree.HandleDeleteField | src/components/JsonBuilder/JsonBuilder.tsx:74-78 | copying into an array and splicing out one slot, by moving later elements down, yields exactly DeleteAt |
| Exporter.Placeholder | src/components/JsonBuilder/JsonBuilder.tsx:28-42 | every leaf type has a non-empty token (STRING, NUMBER, BOOLEAN, FLOAT, OBJECT ID) that reads back as that type |
| Exporter.ExportJson | src/components/JsonBuilder/JsonBuilder.tsx:21-45 | the loop that fills the output in place, recursing into children, computes exactly the fold Export |
| Exporter.ExportSkipsEmptyKey | src/components/JsonBuilder/JsonBuilder.tsx:24 | removing a field with an empty key from anywhere in the list leaves the export unchanged |
| Exporter.ExportKeys | src/components/JsonBuilder/JsonBuilder.tsx:23-43 | the output's key set is exactly the set of non-empty keys of fields that export a value |
| Exporter.ExportLastWriteWins | src/components/JsonBuilder/JsonBuilder.tsx:23-43 | the entry under a key is the value of the last sibling that exports under that key |
| Exporter.WellFormedExports | src/components/JsonBuilder/JsonBuilder.tsx:25-42 | a well-formed field writes an entry exactly when its key is non-empty |
| Exporter.ExportUpdateSameEntry | src/components/JsonBuilder/JsonBuilder.tsx:23-43 | the export depends on each field only through its key and value: swapping a field for one with the same key and value changes nothing |
| Exporter.AddFieldInvisible | src/components/JsonBuilder/JsonBuilder.tsx:69-70 | appending a new field does not change the export |
| Exporter.ExportLeaf | src/components/JsonBuilder/JsonBuilder.tsx:28-42 | a named leaf exports its type's placeholder under its key, whatever its children |
| Exporter.ExportNested | src/components/JsonBuilder/JsonBuilder.tsx:25-27 | a named nested field exports its children's document under its key, an empty list giving an empty object; with children absent it exports nothing |
| Exporter.DuplicateKeyLastWins | src/components/JsonBuilder/JsonBuilder.tsx:28-41 | of two named leaf siblings sharing a key, the later one's placeholder is the entry |
| SchemaEditor.ApplyEdit | src/components/JsonBuilder/JsonBuilder.tsx:68-99 | each of the four user edits on one sibling list keeps the invariant |
| SchemaEditor.ApplyAt | src/components/JsonBuilder/JsonBuilder.tsx:119-120 | an edit lifted through a nested field changes only that field's top-level position; and that field keeps its id, key and type and has its children present |
| SchemaEditor.ApplyAtDescends | src/components/JsonBuilder/JsonBuilder.tsx:119-120 | the lifted field's child list is the same edit applied one level down, so with ApplyAt's frame the frame holds at every depth |
| SchemaEditor.ApplyAtPreservesWellFormed | src/components/JsonBuilder/JsonBuilder.tsx:91-99 | every edit at every depth keeps "children present iff nested" throughout the tree |
| SchemaEditor.ApplyAtTargets | src/components/JsonBuilder/JsonBuilder.tsx:119-120 | after an edit at a path, the same path still leads to a list, and that list is the edited one |
| SchemaEditor.ApplyAtCount | src/components/JsonBuilder/JsonBuilder.tsx:119-120 | lifting neither adds nor loses nodes: the tree's node count changes exactly as the addressed list's does |
| SchemaEditor.ApplyAtOccurrences | src/components/JsonBuilder/JsonBuilder.tsx:119-120 | lifting neither adds nor loses ids: every id's occurrences change exactly as in the addressed list |
| SchemaEditor.DeleteRemovesSubtree | src/components/JsonBuilder/JsonBuilder.tsx:74-77 | a delete at any depth lowers the node count by the deleted subtree's size and removes exactly its id occurrences |
| SchemaEditor.AddAddsOneNode | src/components/JsonBuilder/JsonBuilder.tsx:68-71 | an add at any depth adds one node and one occurrence of the new id |
| SchemaEditor.EditsNeverAddIds | src/components/JsonBuilder/JsonBuilder.tsx:86-99 | key edits keep every id's occurrences; type edits and deletes never raise them |
| SchemaEditor.UniqueIdsPreserved | src/components/JsonBuilder/JsonBuilder.tsx:17 | when added ids are fresh for the tree, every edit keeps ids unique across the whole tree |
| SchemaEditor.ExportLocal | src/components/JsonBuilder/JsonBuilder.tsx:119-120 | in a well-formed tree, an edit at any depth that leaves the addressed list's export unchanged leaves the whole exported document unchanged |
| SchemaEditor.DeleteUnnamedInvisible | src/components/JsonBuilder/JsonBuilder.tsx:74-77 | deleting a field with an empty key at any depth of a well-formed tree leaves the exported document unchanged |
| SchemaEditor.AddInvisibleInExport | src/components/JsonBuilder/JsonBuilder.tsx:24 | adding a field at any depth of a well-formed tree leaves the exported document unchanged |
| Scenario.NameAndAddress | src/components/JsonBuilder/JsonBuilder.tsx:146-150 | naming a string field, then a nested field holding a string field "city", exports {"name": "STRING", "address": {"city": "STRING"}} |

## Left out

- Rendering: the JSX, the `Input`, `Select` and `Button` components, `useState` and the unused `level` prop are user interface. The model takes the edits they trigger as the `Edit` datatype.
- `generateId` uses `Math.random`, so it is not deterministic. The new id is a parameter of the add edit. The code does not guarantee unique ids. `UniqueIdsPreserved` proves uniqueness is kept only under a freshness precondition on the new id.
- `JSON.stringify` pretty-printing and the insertion order of keys in the displayed object are display formatting. `Doc` is an unordered map.
- Plain-object quirks for keys such as `__proto__` are a runtime artifact. The model treats every key as an ordinary map key.
- `splice` and index assignment with out-of-range or negative indices are not modelled. The indices come from `fields.map`, so the edit functions require an index in range.
- The Submit button has no handler, so there is nothing to model.
- Sharing of field objects: the update and delete handlers copy the field list into a fresh array. The model does not track which field objects the old and new arrays share; this cannot be observed because no handler mutates a field in place.
