/**
 The field tree of the JSON schema builder: a field node, the invariant that
 ties a field's type to the presence of its children, and the edit operations
 of one sibling list (append, replace at an index, delete at an index, key
 edit, retype, children replacement). Every edit is a function from the old
 list to a new one; the source's array copy-and-assign and copy-and-splice are
 the methods HandleFieldUpdate and HandleDeleteField, proved equal to them.
 */
module FieldTree {

  /** The closed set of field kinds. */
  datatype FieldType = Nested | String | Number | Boolean | Float | ObjectId

  /** The optional `children` property of a field: absent, or an ordered list. */
  datatype Children = Absent | Present(list: seq<Field>)

  datatype Field = Field(id: string, key: string, ty: FieldType, children: Children)

  /** Invariant of one node: children are present exactly when the type is nested,
      and every child list is itself well formed. */
  ghost predicate WellFormedField(f: Field)
    decreases f, 1
  {
    && (f.children.Present? <==> f.ty == Nested)
    && (f.children.Present? ==> WellFormed(f.children.list))
  }

  ghost predicate WellFormed(fields: seq<Field>)
    decreases fields, 0
  {
    forall i :: 0 <= i < |fields| ==> WellFormedField(fields[i])
  }


  /** Number of nodes in a list of fields, counting every descendant. */
  function Count(fields: seq<Field>): nat
    decreases fields
  {
    if fields == [] then 0
    else Count(fields[..|fields| - 1]) + NodeCount(fields[|fields| - 1])
  }

  /** Number of nodes in the subtree rooted at `f`, `f` included. */
  function NodeCount(f: Field): nat
    decreases f
  {
    1 + if f.children.Present? then Count(f.children.list) else 0
  }

  /** Number of nodes in a list of fields, descendants included, whose id is `x`. */
  function Occurrences(fields: seq<Field>, x: string): nat
    decreases fields
  {
    if fields == [] then 0
    else Occurrences(fields[..|fields| - 1], x) + NodeOccurrences(fields[|fields| - 1], x)
  }

  /** Number of nodes in the subtree rooted at `f` whose id is `x`. */
  function NodeOccurrences(f: Field, x: string): nat
    decreases f
  {
    (if f.id == x then 1 else 0) + if f.children.Present? then Occurrences(f.children.list, x) else 0
  }

  /** The child list a nested editor is given: `field.children || []`. The
      subtree of `f` is `f` itself above that list, in node count and in ids,
      and a well-formed field hands its editor a well-formed list. */
  function ChildList(f: Field): (cs: seq<Field>)
    ensures NodeCount(f) == 1 + Count(cs)
    ensures forall x :: NodeOccurrences(f, x) == (if f.id == x then 1 else 0) + Occurrences(cs, x)
    ensures WellFormedField(f) ==> WellFormed(cs)
  {
    if f.children.Present? then f.children.list else []
  }

  /** No id occurs twice anywhere in the tree. */
  ghost predicate UniqueIds(fields: seq<Field>)
  {
    forall x :: Occurrences(fields, x) <= 1
  }

  /** The field the add button creates: empty key, type string, no children. */
  function NewField(id: string): (f: Field)
    ensures f.id == id && f.key == "" && f.ty == String && f.children.Absent?
    ensures WellFormedField(f)
    ensures NodeCount(f) == 1
    ensures forall x :: NodeOccurrences(f, x) == if x == id then 1 else 0
  {
    Field(id, "", String, Absent)
  }

  /** handleAddField: append a new field after the existing ones. */
  function AddField(fields: seq<Field>, id: string): (r: seq<Field>)
    ensures |r| == |fields| + 1
    ensures r[..|fields|] == fields
    ensures r[|fields|] == NewField(id)
    ensures WellFormed(fields) ==> WellFormed(r)
  {
    fields + [NewField(id)]
  }

  /** handleFieldUpdate: replace the field at `idx`, leave every other position alone. */
  function UpdateAt(fields: seq<Field>, idx: nat, updated: Field): (r: seq<Field>)
    requires idx < |fields|
    ensures |r| == |fields|
    ensures r[idx] == updated
    ensures forall j :: 0 <= j < |r| && j != idx ==> r[j] == fields[j]
    ensures WellFormed(fields) && WellFormedField(updated) ==> WellFormed(r)
  {
    fields[idx := updated]
  }

  /** handleDeleteField: `splice(idx, 1)` on a copy; later fields shift down by one. */
  function DeleteAt(fields: seq<Field>, idx: nat): (r: seq<Field>)
    requires idx < |fields|
    ensures |r| == |fields| - 1
    ensures forall j :: 0 <= j < idx ==> r[j] == fields[j]
    ensures forall j :: idx <= j < |r| ==> r[j] == fields[j + 1]
    ensures WellFormed(fields) ==> WellFormed(r)
  {
    fields[..idx] + fields[idx + 1..]
  }

  /** The key input's change handler: a copy of the field with a new key. */
  function SetKey(f: Field, key: string): (r: Field)
    ensures r.key == key
    ensures r.id == f.id && r.ty == f.ty && r.children == f.children
    ensures WellFormedField(f) ==> WellFormedField(r)
  {
    f.(key := key)
  }

  /** The type select's change handler. A switch to nested initialises absent
      children to the empty list, a switch away from nested deletes them, and
      nested to nested keeps them. */
  function Retype(f: Field, newType: FieldType): (r: Field)
    ensures r.id == f.id && r.key == f.key && r.ty == newType
    ensures r.children.Present? <==> newType == Nested
    ensures newType == Nested && f.children.Present? ==> r.children == f.children
    ensures newType == Nested && f.children.Absent? ==> r.children == Present([])
    ensures WellFormedField(f) ==> WellFormedField(r)
  {
    var updated := f.(ty := newType);
    if newType == Nested && f.children.Absent? then updated.(children := Present([]))
    else if newType != Nested then updated.(children := Absent)
    else updated
  }

  /** The nested editor's change callback: a copy of the field with a new child list. */
  function SetChildren(f: Field, cs: seq<Field>): (r: Field)
    ensures r.id == f.id && r.key == f.key && r.ty == f.ty
    ensures r.children == Present(cs)
    ensures f.ty == Nested && WellFormed(cs) ==> WellFormedField(r)
  {
    f.(children := Present(cs))
  }

  /** Count and Occurrences distribute over concatenation. */
  lemma {:induction false} ConcatSizes(a: seq<Field>, b: seq<Field>)
    ensures Count(a + b) == Count(a) + Count(b)
    ensures forall x :: Occurrences(a + b, x) == Occurrences(a, x) + Occurrences(b, x)
    decreases |b|
  {
    if b == [] {
      assert a + b == a;
    } else {
      var n := |b| - 1;
      assert (a + b)[..|a + b| - 1] == a + b[..n];
      assert (a + b)[|a + b| - 1] == b[n];
      ConcatSizes(a, b[..n]);
    }
  }

  /** A list split around position `idx`. */
  lemma SplitAt(fields: seq<Field>, idx: nat)
    requires idx < |fields|
    ensures Count(fields) == Count(fields[..idx]) + NodeCount(fields[idx]) + Count(fields[idx + 1..])
    ensures forall x :: Occurrences(fields, x) ==
                          Occurrences(fields[..idx], x) + NodeOccurrences(fields[idx], x) + Occurrences(fields[idx + 1..], x)
  {
    var pre, post := fields[..idx], fields[idx + 1..];
    assert fields == pre + [fields[idx]] + post;
    ConcatSizes(pre + [fields[idx]], post);
    ConcatSizes(pre, [fields[idx]]);
    assert [fields[idx]][..0] == [];
  }

  /** Adding a field adds exactly one node and exactly its id. */
  lemma AddFieldSizes(fields: seq<Field>, id: string)
    ensures Count(AddField(fields, id)) == Count(fields) + 1
    ensures forall x :: Occurrences(AddField(fields, id), x) == Occurrences(fields, x) + if x == id then 1 else 0
  {
    var r := AddField(fields, id);
    assert r[..|r| - 1] == fields;
  }

  /** Deleting the field at `idx` removes its whole subtree and nothing else:
      the node count falls by the subtree's size and exactly its ids disappear. */
  lemma DeleteAtRemovesSubtree(fields: seq<Field>, idx: nat)
    requires idx < |fields|
    ensures Count(DeleteAt(fields, idx)) == Count(fields) - NodeCount(fields[idx])
    ensures forall x :: Occurrences(DeleteAt(fields, idx), x) == Occurrences(fields, x) - NodeOccurrences(fields[idx], x)
  {
    SplitAt(fields, idx);
    ConcatSizes(fields[..idx], fields[idx + 1..]);
  }

  /** Replacing the field at `idx` trades its subtree for the new one's. */
  lemma UpdateAtSizes(fields: seq<Field>, idx: nat, updated: Field)
    requires idx < |fields|
    ensures Count(UpdateAt(fields, idx, updated)) + NodeCount(fields[idx]) == Count(fields) + NodeCount(updated)
    ensures forall x :: Occurrences(UpdateAt(fields, idx, updated), x) + NodeOccurrences(fields[idx], x) ==
                          Occurrences(fields, x) + NodeOccurrences(updated, x)
  {
    var r := UpdateAt(fields, idx, updated);
    SplitAt(fields, idx);
    SplitAt(r, idx);
    assert r[..idx] == fields[..idx];
    assert r[idx + 1..] == fields[idx + 1..];
  }

  /** Retyping never adds nodes: it keeps the subtree or drops all of it. */
  lemma RetypeSizes(f: Field, newType: FieldType)
    ensures forall x :: NodeOccurrences(Retype(f, newType), x) <= NodeOccurrences(f, x)
    ensures NodeCount(Retype(f, newType)) <= NodeCount(f)
  {
  }

  /** Switching a nested field away from nested and back yields an empty child
      list: the original subtree is not recoverable. */
  lemma RetypeAwayAndBackResets(f: Field, other: FieldType)
    requires f.ty == Nested && other != Nested
    ensures Retype(Retype(f, other), Nested).children == Present([])
    ensures Retype(Retype(f, other), Nested).id == f.id
    ensures Retype(Retype(f, other), Nested).key == f.key
  {
  }

  /** Choosing the type a field already has changes nothing on a well-formed field. */
  lemma RetypeSameIsIdentity(f: Field)
    requires WellFormedField(f)
    ensures Retype(f, f.ty) == f
  {
  }

  /** A key edit keeps the node count and ids. */
  lemma SetKeySizes(f: Field, key: string)
    ensures NodeCount(SetKey(f, key)) == NodeCount(f)
    ensures forall x :: NodeOccurrences(SetKey(f, key), x) == NodeOccurrences(f, x)
  {
  }

  /** The source's handleFieldUpdate: copy the array, assign the one slot. */
  method HandleFieldUpdate(fields: seq<Field>, idx: nat, updated: Field) returns (newFields: seq<Field>)
    requires idx < |fields|
    ensures newFields == UpdateAt(fields, idx, updated)
  {
    var a := new Field[|fields|](i requires 0 <= i < |fields| => fields[i]);
    a[idx] := updated;
    newFields := a[..];
  }

  /** The source's handleDeleteField: copy the array, then `splice(idx, 1)`,
      which moves every later element one slot down and drops the last slot. */
  method HandleDeleteField(fields: seq<Field>, idx: nat) returns (newFields: seq<Field>)
    requires idx < |fields|
    ensures newFields == DeleteAt(fields, idx)
  {
    var a := new Field[|fields|](i requires 0 <= i < |fields| => fields[i]);
    var j := idx;
    while j + 1 < a.Length
      invariant idx <= j < a.Length
      invariant forall k :: 0 <= k < idx ==> a[k] == fields[k]
      invariant forall k :: idx <= k < j ==> a[k] == fields[k + 1]
      invariant forall k :: j <= k < a.Length ==> a[k] == fields[k]
    {
      a[j] := a[j + 1];
      j := j + 1;
    }
    newFields := a[..a.Length - 1];
    assert forall k :: 0 <= k < |newFields| ==> newFields[k] == DeleteAt(fields, idx)[k];
  }
}
