/**
 The exporter: folds a list of sibling fields, in order, into a document whose
 leaves are placeholder tokens naming each field's type. Fields with an empty
 key are skipped, a nested field exports its children recursively, and a later
 sibling with the same key overwrites an earlier one.
 */
module Exporter {
  import opened Wrappers
  import opened FieldTree

  /** The exported document: a placeholder string or an object of named entries. */
  datatype Doc = Str(s: string) | Obj(entries: map<string, Doc>)

  /** The placeholder token of a leaf type. */
  function Placeholder(ty: FieldType): (token: string)
    requires ty != Nested
    ensures token != ""
    ensures TypeOfPlaceholder(token) == Some(ty)
  {
    match ty
    case String => "STRING"
    case Number => "NUMBER"
    case Boolean => "BOOLEAN"
    case Float => "FLOAT"
    case ObjectId => "OBJECT ID"
  }

  /** Reads a placeholder token back as the leaf type it stands for. */
  function TypeOfPlaceholder(token: string): (ty: Option<FieldType>)
    ensures ty.Some? ==> ty.value != Nested
  {
    if token == "STRING" then Some(String)
    else if token == "NUMBER" then Some(Number)
    else if token == "BOOLEAN" then Some(Boolean)
    else if token == "FLOAT" then Some(Float)
    else if token == "OBJECT ID" then Some(ObjectId)
    else None
  }

  /** The value a field contributes under its key, if any: the recursive export
      of its children when it is nested and has them, its placeholder when it is
      a leaf, and nothing when it is nested without children. */
  function Value(f: Field): Option<Doc>
    decreases f, 0
  {
    if f.ty == Nested then
      if f.children.Present? then Some(Obj(Fold(map[], f.children.list))) else None
    else Some(Str(Placeholder(f.ty)))
  }

  /** One iteration of the export loop: skip an unnamed field, otherwise write
      its value, if it has one, under its key. */
  function Step(acc: map<string, Doc>, f: Field): map<string, Doc>
    decreases f, 1
  {
    if f.key == "" then acc
    else match Value(f)
      case None => acc
      case Some(v) => acc[f.key := v]
  }

  /** The export loop as a left fold of Step over the siblings, in order. */
  function Fold(acc: map<string, Doc>, fields: seq<Field>): map<string, Doc>
    decreases fields, 0
  {
    if fields == [] then acc
    else Step(Fold(acc, fields[..|fields| - 1]), fields[|fields| - 1])
  }

  /** exportJson: the document of a list of sibling fields. */
  function Export(fields: seq<Field>): map<string, Doc>
  {
    Fold(map[], fields)
  }

  /** A field writes an entry exactly when it has a key and a value. */
  predicate Exports(f: Field)
  {
    f.key != "" && Value(f).Some?
  }

  /** The keys the fields that export write to. */
  function ExportedKeys(fields: seq<Field>): set<string>
  {
    set i | 0 <= i < |fields| && Exports(fields[i]) :: fields[i].key
  }

  /** The source's exportJson: a loop over the siblings that fills `output` in
      place, calling itself on the children of a nested field. */
  method ExportJson(fields: seq<Field>) returns (output: map<string, Doc>)
    ensures output == Export(fields)
    decreases fields
  {
    output := map[];
    var i := 0;
    while i < |fields|
      invariant 0 <= i <= |fields|
      invariant output == Export(fields[..i])
    {
      var field := fields[i];
      assert fields[..i + 1] == fields[..i] + [field];
      FoldSnoc(map[], fields[..i], field);
      if field.key != "" {
        if field.ty == Nested && field.children.Present? {
          var nested := ExportJson(field.children.list);
          output := output[field.key := Obj(nested)];
        } else if field.ty == String {
          output := output[field.key := Str("STRING")];
        } else if field.ty == Number {
          output := output[field.key := Str("NUMBER")];
        } else if field.ty == Boolean {
          output := output[field.key := Str("BOOLEAN")];
        } else if field.ty == Float {
          output := output[field.key := Str("FLOAT")];
        } else if field.ty == ObjectId {
          output := output[field.key := Str("OBJECT ID")];
        }
      }
      i := i + 1;
    }
    assert fields[..i] == fields;
  }

  /** Folding one more field applies one more Step. */
  lemma FoldSnoc(acc: map<string, Doc>, fields: seq<Field>, f: Field)
    ensures Fold(acc, fields + [f]) == Step(Fold(acc, fields), f)
  {
    assert (fields + [f])[..|fields|] == fields;
  }

  /** Folding a concatenation folds the second part onto the first part's result. */
  lemma {:induction false} FoldConcat(acc: map<string, Doc>, a: seq<Field>, b: seq<Field>)
    ensures Fold(acc, a + b) == Fold(Fold(acc, a), b)
    decreases |b|
  {
    if b == [] {
      assert a + b == a;
    } else {
      var n := |b| - 1;
      assert a + b == (a + b[..n]) + [b[n]];
      assert b == b[..n] + [b[n]];
      FoldSnoc(acc, a + b[..n], b[n]);
      FoldSnoc(Fold(acc, a), b[..n], b[n]);
      FoldConcat(acc, a, b[..n]);
    }
  }

  /** A field with an empty key never adds or overwrites an entry: removing it
      from anywhere in the list leaves the export unchanged. */
  lemma ExportSkipsEmptyKey(fields: seq<Field>, i: nat)
    requires i < |fields| && fields[i].key == ""
    ensures Export(fields[..i] + fields[i + 1..]) == Export(fields)
  {
    var pre, post := fields[..i], fields[i + 1..];
    assert fields == pre + [fields[i]] + post;
    FoldConcat(map[], pre + [fields[i]], post);
    FoldConcat(map[], pre, [fields[i]]);
    FoldConcat(map[], pre, post);
    FoldSnoc(map[], [], fields[i]);
    assert [] + [fields[i]] == [fields[i]];
  }

  /** The output's keys are exactly the non-empty keys of the fields that export. */
  lemma {:induction false} ExportKeys(fields: seq<Field>)
    ensures Export(fields).Keys == ExportedKeys(fields)
    decreases |fields|
  {
    if fields != [] {
      var n := |fields| - 1;
      var pre := fields[..n];
      assert fields == pre + [fields[n]];
      FoldSnoc(map[], pre, fields[n]);
      ExportKeys(pre);
      assert ExportedKeys(fields) == ExportedKeys(pre) + (if Exports(fields[n]) then {fields[n].key} else {}) by {
        forall k | k in ExportedKeys(fields)
          ensures k in ExportedKeys(pre) || (Exports(fields[n]) && k == fields[n].key)
        {
          var i :| 0 <= i < |fields| && Exports(fields[i]) && fields[i].key == k;
          if i < n {
            assert pre[i] == fields[i];
          }
        }
        forall k | k in ExportedKeys(pre) ensures k in ExportedKeys(fields) {
          var i :| 0 <= i < |pre| && Exports(pre[i]) && pre[i].key == k;
          assert fields[i] == pre[i];
        }
      }
    }
  }

  /** Last write wins: the entry under a key is the value of the last sibling
      that exports under that key. */
  lemma {:induction false} ExportLastWriteWins(fields: seq<Field>, j: nat)
    requires j < |fields| && Exports(fields[j])
    requires forall l :: j < l < |fields| && Exports(fields[l]) ==> fields[l].key != fields[j].key
    ensures fields[j].key in Export(fields)
    ensures Export(fields)[fields[j].key] == Value(fields[j]).value
    decreases |fields|
  {
    var n := |fields| - 1;
    var pre := fields[..n];
    assert fields == pre + [fields[n]];
    FoldSnoc(map[], pre, fields[n]);
    if j < n {
      forall l | j < l < |pre| && Exports(pre[l]) ensures pre[l].key != pre[j].key {
        assert pre[l] == fields[l];
      }
      ExportLastWriteWins(pre, j);
      assert !Exports(fields[n]) || fields[n].key != fields[j].key;
    }
  }

  /** A well-formed field exports exactly when its key is non-empty. */
  lemma WellFormedExports(f: Field)
    requires WellFormedField(f)
    ensures Exports(f) <==> f.key != ""
  {
  }

  /** Replacing a field by one with the same key and the same value leaves the
      export unchanged. */
  lemma ExportUpdateSameEntry(fields: seq<Field>, idx: nat, g: Field)
    requires idx < |fields|
    requires g.key == fields[idx].key && Value(g) == Value(fields[idx])
    ensures Export(UpdateAt(fields, idx, g)) == Export(fields)
  {
    var pre, post := fields[..idx], fields[idx + 1..];
    assert fields == pre + [fields[idx]] + post;
    assert UpdateAt(fields, idx, g) == pre + [g] + post;
    FoldConcat(map[], pre + [fields[idx]], post);
    FoldConcat(map[], pre + [g], post);
    FoldSnoc(map[], pre, fields[idx]);
    FoldSnoc(map[], pre, g);
  }

  /** Appending a new field does not change the export: it has no key yet. */
  lemma AddFieldInvisible(fields: seq<Field>, id: string)
    ensures Export(AddField(fields, id)) == Export(fields)
  {
    FoldSnoc(map[], fields, NewField(id));
  }

  /** A named leaf field alone exports its placeholder under its key. */
  lemma ExportLeaf(id: string, key: string, ty: FieldType, c: Children)
    requires key != "" && ty != Nested
    ensures Export([Field(id, key, ty, c)]) == map[key := Str(Placeholder(ty))]
  {
    FoldSnoc(map[], [], Field(id, key, ty, c));
    assert [] + [Field(id, key, ty, c)] == [Field(id, key, ty, c)];
  }

  /** A named nested field alone exports its children's document under its key;
      with no children present it exports nothing. */
  lemma ExportNested(id: string, key: string, c: Children)
    requires key != ""
    ensures c.Present? ==> Export([Field(id, key, Nested, c)]) == map[key := Obj(Export(c.list))]
    ensures c == Present([]) ==> Export([Field(id, key, Nested, c)]) == map[key := Obj(map[])]
    ensures c.Absent? ==> Export([Field(id, key, Nested, c)]) == map[]
  {
    FoldSnoc(map[], [], Field(id, key, Nested, c));
    assert [] + [Field(id, key, Nested, c)] == [Field(id, key, Nested, c)];
  }

  /** Two named siblings with the same key: the later one's placeholder is the entry. */
  lemma DuplicateKeyLastWins(id1: string, id2: string, key: string, ty1: FieldType, ty2: FieldType)
    requires key != "" && ty1 != Nested && ty2 != Nested
    ensures Export([Field(id1, key, ty1, Absent), Field(id2, key, ty2, Absent)]) == map[key := Str(Placeholder(ty2))]
  {
    var f1, f2 := Field(id1, key, ty1, Absent), Field(id2, key, ty2, Absent);
    ExportLeaf(id1, key, ty1, Absent);
    FoldSnoc(map[], [f1], f2);
    assert [f1] + [f2] == [f1, f2];
  }
}
