/**
 The recursive schema editor. Every editor instance shows one sibling list and
 offers four edits on it (add, key edit, type edit, delete); a nested field's
 editor reports its new child list to the parent, which stores it with a
 children update at that field's index. So an edit issued `d` levels down is
 an edit of the list reached by a path of `d` sibling indices, lifted through
 every ancestor.
 */
module SchemaEditor {
  import opened FieldTree
  import Exporter

  /** One user action on a sibling list. */
  datatype Edit =
    | AddNew(newId: string)
    | EditKey(idx: nat, key: string)
    | EditType(idx: nat, ty: FieldType)
    | Delete(idx: nat)

  /** The edit names a position of the list (adding needs none). */
  predicate InRange(fields: seq<Field>, e: Edit)
  {
    match e
    case AddNew(_) => true
    case EditKey(i, _) => i < |fields|
    case EditType(i, _) => i < |fields|
    case Delete(i) => i < |fields|
  }

  /** An edit applied to the sibling list its editor shows. */
  function ApplyEdit(fields: seq<Field>, e: Edit): (r: seq<Field>)
    requires InRange(fields, e)
    ensures WellFormed(fields) ==> WellFormed(r)
  {
    match e
    case AddNew(id) => AddField(fields, id)
    case EditKey(i, k) => UpdateAt(fields, i, SetKey(fields[i], k))
    case EditType(i, t) => UpdateAt(fields, i, Retype(fields[i], t))
    case Delete(i) => DeleteAt(fields, i)
  }

  /** `path` leads through nested fields to a sibling list: a child editor
      exists only under a field of type nested. */
  predicate ValidPath(fields: seq<Field>, path: seq<nat>)
    decreases path
  {
    path == [] ||
      (&& path[0] < |fields|
       && fields[path[0]].ty == Nested
       && ValidPath(ChildList(fields[path[0]]), path[1..]))
  }

  /** The sibling list that `path` leads to. */
  function ListAt(fields: seq<Field>, path: seq<nat>): seq<Field>
    requires ValidPath(fields, path)
    decreases path
  {
    if path == [] then fields
    else ListAt(ChildList(fields[path[0]]), path[1..])
  }

  /** An edit the editor at `path` can issue. */
  predicate ValidEdit(fields: seq<Field>, path: seq<nat>, e: Edit)
  {
    ValidPath(fields, path) && InRange(ListAt(fields, path), e)
  }

  /** The edit issued in the editor at `path`, as the top-level list sees it:
      each ancestor stores its child editor's new list with a children update. */
  function ApplyAt(fields: seq<Field>, path: seq<nat>, e: Edit): (r: seq<Field>)
    requires ValidEdit(fields, path, e)
    ensures |r| == |fields| || path == []
    ensures path != [] ==> forall j :: 0 <= j < |r| && j != path[0] ==> r[j] == fields[j]
    ensures path != [] ==>
              && r[path[0]].id == fields[path[0]].id
              && r[path[0]].key == fields[path[0]].key
              && r[path[0]].ty == fields[path[0]].ty
              && r[path[0]].children.Present?
    decreases path
  {
    if path == [] then ApplyEdit(fields, e)
    else
      var i := path[0];
      UpdateAt(fields, i, SetChildren(fields[i], ApplyAt(ChildList(fields[i]), path[1..], e)))
  }

  /** One level of lifting: the ancestor at the head of the path holds, as its
      children, the same edit applied one level down; with ApplyAt's frame this
      gives the frame at every depth. */
  lemma ApplyAtDescends(fields: seq<Field>, path: seq<nat>, e: Edit)
    requires ValidEdit(fields, path, e) && path != []
    ensures path[0] < |fields| && path[0] < |ApplyAt(fields, path, e)|
    ensures ValidEdit(ChildList(fields[path[0]]), path[1..], e)
    ensures ChildList(ApplyAt(fields, path, e)[path[0]]) == ApplyAt(ChildList(fields[path[0]]), path[1..], e)
  {
  }

  /** Every edit at every depth keeps the type/children invariant of the whole tree. */
  lemma {:induction false} ApplyAtPreservesWellFormed(fields: seq<Field>, path: seq<nat>, e: Edit)
    requires ValidEdit(fields, path, e)
    requires WellFormed(fields)
    ensures WellFormed(ApplyAt(fields, path, e))
    decreases path
  {
    if path != [] {
      var i := path[0];
      assert WellFormedField(fields[i]);
      ApplyAtPreservesWellFormed(ChildList(fields[i]), path[1..], e);
    }
  }

  /** The edit lands on the addressed list: after it, the same path leads to
      the edited list, and nothing above it changes but the lifted copies. */
  lemma {:induction false} ApplyAtTargets(fields: seq<Field>, path: seq<nat>, e: Edit)
    requires ValidEdit(fields, path, e)
    ensures ValidPath(ApplyAt(fields, path, e), path)
    ensures ListAt(ApplyAt(fields, path, e), path) == ApplyEdit(ListAt(fields, path), e)
    decreases path
  {
    if path != [] {
      var i := path[0];
      ApplyAtTargets(ChildList(fields[i]), path[1..], e);
    }
  }

  /** Lifting preserves the node count: the whole tree gains and loses exactly
      what the addressed list gains and loses. */
  lemma {:induction false} ApplyAtCount(fields: seq<Field>, path: seq<nat>, e: Edit)
    requires ValidEdit(fields, path, e)
    ensures Count(ApplyAt(fields, path, e)) + Count(ListAt(fields, path))
         == Count(fields) + Count(ApplyEdit(ListAt(fields, path), e))
    decreases path
  {
    if path != [] {
      var i := path[0];
      var f := fields[i];
      var inner := ApplyAt(ChildList(f), path[1..], e);
      ApplyAtCount(ChildList(f), path[1..], e);
      UpdateAtSizes(fields, i, SetChildren(f, inner));
    }
  }

  /** Lifting preserves the ids: for every id, the whole tree gains and loses
      exactly the nodes carrying it that the addressed list gains and loses. */
  lemma {:induction false} ApplyAtOccurrences(fields: seq<Field>, path: seq<nat>, e: Edit, x: string)
    requires ValidEdit(fields, path, e)
    ensures Occurrences(ApplyAt(fields, path, e), x) + Occurrences(ListAt(fields, path), x) ==
            Occurrences(fields, x) + Occurrences(ApplyEdit(ListAt(fields, path), e), x)
    decreases path
  {
    if path != [] {
      var i := path[0];
      var f := fields[i];
      var inner := ApplyAt(ChildList(f), path[1..], e);
      ApplyAtOccurrences(ChildList(f), path[1..], e, x);
      UpdateAtSizes(fields, i, SetChildren(f, inner));
    }
  }

  /** Deleting at any depth removes the whole subtree of the deleted field:
      the node count falls by its size and exactly its ids disappear. */
  lemma DeleteRemovesSubtree(fields: seq<Field>, path: seq<nat>, i: nat)
    requires ValidEdit(fields, path, Delete(i))
    ensures i < |ListAt(fields, path)|
    ensures Count(ApplyAt(fields, path, Delete(i))) == Count(fields) - NodeCount(ListAt(fields, path)[i])
    ensures forall x :: Occurrences(ApplyAt(fields, path, Delete(i)), x) ==
                          Occurrences(fields, x) - NodeOccurrences(ListAt(fields, path)[i], x)
  {
    ApplyAtCount(fields, path, Delete(i));
    DeleteAtRemovesSubtree(ListAt(fields, path), i);
    forall x ensures Occurrences(ApplyAt(fields, path, Delete(i)), x) ==
                     Occurrences(fields, x) - NodeOccurrences(ListAt(fields, path)[i], x) {
      ApplyAtOccurrences(fields, path, Delete(i), x);
    }
  }

  /** Adding at any depth adds exactly one node, carrying the new id. */
  lemma AddAddsOneNode(fields: seq<Field>, path: seq<nat>, id: string)
    requires ValidEdit(fields, path, AddNew(id))
    ensures Count(ApplyAt(fields, path, AddNew(id))) == Count(fields) + 1
    ensures forall x :: Occurrences(ApplyAt(fields, path, AddNew(id)), x) ==
                          Occurrences(fields, x) + if x == id then 1 else 0
  {
    ApplyAtCount(fields, path, AddNew(id));
    AddFieldSizes(ListAt(fields, path), id);
    forall x ensures Occurrences(ApplyAt(fields, path, AddNew(id)), x) ==
                     Occurrences(fields, x) + if x == id then 1 else 0 {
      ApplyAtOccurrences(fields, path, AddNew(id), x);
    }
  }

  /** No edit other than add introduces an id: key edits keep every id's
      occurrences, type edits and deletes can only lower them. */
  lemma EditsNeverAddIds(fields: seq<Field>, path: seq<nat>, e: Edit, x: string)
    requires ValidEdit(fields, path, e)
    requires !e.AddNew?
    ensures Occurrences(ApplyAt(fields, path, e), x) <= Occurrences(fields, x)
    ensures e.EditKey? ==> Occurrences(ApplyAt(fields, path, e), x) == Occurrences(fields, x)
  {
    var l := ListAt(fields, path);
    ApplyAtOccurrences(fields, path, e, x);
    match e
    case EditKey(i, k) =>
      UpdateAtSizes(l, i, SetKey(l[i], k));
      SetKeySizes(l[i], k);
    case EditType(i, t) =>
      UpdateAtSizes(l, i, Retype(l[i], t));
      RetypeSizes(l[i], t);
    case Delete(i) =>
      DeleteAtRemovesSubtree(l, i);
  }

  /** Ids stay unique across every edit, provided the id of an added field is
      fresh for the whole tree. */
  lemma UniqueIdsPreserved(fields: seq<Field>, path: seq<nat>, e: Edit)
    requires ValidEdit(fields, path, e)
    requires UniqueIds(fields)
    requires e.AddNew? ==> Occurrences(fields, e.newId) == 0
    ensures UniqueIds(ApplyAt(fields, path, e))
  {
    var r := ApplyAt(fields, path, e);
    if e.AddNew? {
      AddAddsOneNode(fields, path, e.newId);
    } else {
      forall x ensures Occurrences(r, x) <= 1 {
        EditsNeverAddIds(fields, path, e, x);
      }
    }
  }

  /** The export of a well-formed tree sees an edit at any depth only through
      the addressed list: an edit that leaves that list's export unchanged leaves
      the whole document unchanged. Every ancestor on the path keeps its key and
      type, and its value is the export of its (edited) child list. */
  lemma {:induction false} ExportLocal(fields: seq<Field>, path: seq<nat>, e: Edit)
    requires ValidEdit(fields, path, e)
    requires WellFormed(fields)
    requires Exporter.Export(ApplyEdit(ListAt(fields, path), e)) == Exporter.Export(ListAt(fields, path))
    ensures Exporter.Export(ApplyAt(fields, path, e)) == Exporter.Export(fields)
    decreases path
  {
    if path != [] {
      var i := path[0];
      var f := fields[i];
      assert WellFormedField(f);
      ExportLocal(ChildList(f), path[1..], e);
      Exporter.ExportUpdateSameEntry(fields, i, SetChildren(f, ApplyAt(ChildList(f), path[1..], e)));
    }
  }

  /** Adding a field at any depth of a well-formed tree leaves the export
      unchanged: the new field has no key yet. */
  lemma AddInvisibleInExport(fields: seq<Field>, path: seq<nat>, id: string)
    requires ValidEdit(fields, path, AddNew(id))
    requires WellFormed(fields)
    ensures Exporter.Export(ApplyAt(fields, path, AddNew(id))) == Exporter.Export(fields)
  {
    Exporter.AddFieldInvisible(ListAt(fields, path), id);
    ExportLocal(fields, path, AddNew(id));
  }

  /** Deleting a field that has no key yet, at any depth of a well-formed tree,
      leaves the export unchanged. */
  lemma DeleteUnnamedInvisible(fields: seq<Field>, path: seq<nat>, i: nat)
    requires ValidEdit(fields, path, Delete(i))
    requires WellFormed(fields)
    requires ListAt(fields, path)[i].key == ""
    ensures Exporter.Export(ApplyAt(fields, path, Delete(i))) == Exporter.Export(fields)
  {
    Exporter.ExportSkipsEmptyKey(ListAt(fields, path), i);
    ExportLocal(fields, path, Delete(i));
  }
}


/** The session of a user who names a string field, then builds a nested field
    holding one more string field, and reads the exported document. */
module Scenario {
  import opened FieldTree
  import opened SchemaEditor
  import opened Exporter

  lemma NameAndAddress(idName: string, idAddress: string, idCity: string)
    ensures var t0 := ApplyAt([], [], AddNew(idName));
            var t1 := ApplyAt(t0, [], EditKey(0, "name"));
            var t2 := ApplyAt(t1, [], EditType(0, String));
            var t3 := ApplyAt(t2, [], AddNew(idAddress));
            var t4 := ApplyAt(t3, [], EditKey(1, "address"));
            var t5 := ApplyAt(t4, [], EditType(1, Nested));
            var t6 := ApplyAt(t5, [1], AddNew(idCity));
            var t7 := ApplyAt(t6, [1], EditKey(0, "city"));
            var t8 := ApplyAt(t7, [1], EditType(0, String));
            Export(t8) == map["name" := Str("STRING"), "address" := Obj(map["city" := Str("STRING")])]
  {
    var name := Field(idName, "name", String, Absent);
    var city := Field(idCity, "city", String, Absent);
    var address := Field(idAddress, "address", Nested, Present([city]));
    var t0 := ApplyAt([], [], AddNew(idName));
    assert t0 == [NewField(idName)];
    var t1 := ApplyAt(t0, [], EditKey(0, "name"));
    assert t1 == [Field(idName, "name", String, Absent)];
    var t2 := ApplyAt(t1, [], EditType(0, String));
    assert t2 == [name];
    var t3 := ApplyAt(t2, [], AddNew(idAddress));
    assert t3 == [name, NewField(idAddress)];
    var t4 := ApplyAt(t3, [], EditKey(1, "address"));
    assert t4 == [name, Field(idAddress, "address", String, Absent)];
    var t5 := ApplyAt(t4, [], EditType(1, Nested));
    assert t5 == [name, Field(idAddress, "address", Nested, Present([]))];
    var t6 := ApplyAt(t5, [1], AddNew(idCity));
    assert [1][1..] == [];
    assert t6 == [name, Field(idAddress, "address", Nested, Present([NewField(idCity)]))];
    assert ApplyAt([NewField(idCity)], [], EditKey(0, "city")) == [Field(idCity, "city", String, Absent)];
    var t7 := ApplyAt(t6, [1], EditKey(0, "city"));
    assert t7 == [name, Field(idAddress, "address", Nested, Present([Field(idCity, "city", String, Absent)]))];
    assert ApplyAt([Field(idCity, "city", String, Absent)], [], EditType(0, String)) == [city];
    var t8 := ApplyAt(t7, [1], EditType(0, String));
    assert t8 == [name, address];
    ExportLeaf(idCity, "city", String, Absent);
    FoldSnoc(map[], [], name);
    FoldSnoc(map[], [name], address);
    assert [] + [name] == [name];
    assert [name] + [address] == [name, address];
  }
}
