/**
 * The table-scope atoms of `table.ts`: the local row buffer and its
 * reducer, the merged row view over the local buffer and the database
 * listener's rows, the columns ordered by `index`, and the reducer that
 * turns an array of columns back into the schema's columns object.
 */
module TableAtoms {
  import opened Values
  import opened Strings
  import opened Collections
  import opened Records
  import opened TableTypes

  // ---------------------------------------------------------------------
  // lodash `unset` on a row's fields
  // ---------------------------------------------------------------------

  /** lodash `get(f, path)` through nested objects. */
  function Get(f: Fields, path: seq<string>): Option<Value>
    requires |path| >= 1
    decreases |path|
  {
    if path[0] !in f then None
    else if |path| == 1 then Some(f[path[0]])
    else if f[path[0]].Obj? then Get(f[path[0]].fields, path[1..])
    else None
  }

  /**
   * Deleting the property at `path`: the parent objects along the path are
   * kept, and nothing happens when the path runs into a missing key or a
   * value that is not an object.
   */
  function UnsetPath(f: Fields, path: seq<string>): (r: Fields)
    requires |path| >= 1
    ensures forall k :: k in r ==> k in f
    ensures forall k :: k in f && k != path[0] ==> k in r && r[k] == f[k]
    decreases |path|
  {
    if |path| == 1 then f - {path[0]}
    else if path[0] in f && f[path[0]].Obj? then
      f[path[0] := Obj(UnsetPath(f[path[0]].fields, path[1..]))]
    else f
  }

  /**
   * After deleting at `p`, nothing is found at `p` or below it, and every
   * path that neither lies below `p` nor leads to it reads as before.
   */
  lemma {:induction false} UnsetPathRemovesExactly(f: Fields, p: seq<string>, q: seq<string>)
    requires |p| >= 1 && |q| >= 1
    ensures p <= q ==> Get(UnsetPath(f, p), q) == None
    ensures !(p <= q) && !(q <= p) ==> Get(UnsetPath(f, p), q) == Get(f, q)
    decreases |p|
  {
    if |p| > 1 && |q| > 1 && p[0] == q[0] && p[0] in f && f[p[0]].Obj? {
      UnsetPathRemovesExactly(f[p[0]].fields, p[1..], q[1..]);
      assert p <= q <==> p[1..] <= q[1..];
      assert q <= p <==> q[1..] <= p[1..];
    }
  }

  /**
   * The path lodash reads `field` as (its `castPath`): the field name itself
   * when it holds no `.` or the object has a property of exactly that name,
   * otherwise its `.`-separated segments. Bracket notation is not modelled.
   */
  function CastPath(f: Fields, field: string): (p: seq<string>)
    ensures |p| >= 1
    ensures p[0] == field || p[0] == Split(field, '.')[0]
  {
    if '.' !in field || field in f then [field] else Split(field, '.')
  }

  /** The top-level key that deleting `field` can change. */
  predicate Touches(field: string, k: string) {
    k == field || k == Split(field, '.')[0]
  }

  /**
   * lodash `unset(row, field)`: it removes a plain field name, or a field
   * present under its literal name, outright; it leaves alone every
   * top-level key it does not touch; it never adds a key.
   */
  function Unset(f: Fields, field: string): (f': Fields)
    ensures '.' !in field ==> field !in f'
    ensures field in f ==> field !in f'
    ensures forall k :: k in f' ==> k in f
    ensures forall k :: k in f && !Touches(field, k) ==> k in f' && f'[k] == f[k]
  {
    UnsetPath(f, CastPath(f, field))
  }

  /**
   * The `for (const field of deleteFields) unset(row, field)` loop, as a
   * fold; no key survives it that was not there before it.
   */
  function UnsetAll(f: Fields, fields: seq<string>): (f': Fields)
    ensures forall k :: k in f' ==> k in f
    decreases |fields|
  {
    if fields == [] then f
    else Unset(UnsetAll(f, fields[..|fields| - 1]), fields[|fields| - 1])
  }

  /**
   * After the loop every plain (dot-free) field of the list is gone, and
   * every top-level key that no listed field touches keeps its value.
   */
  lemma {:induction false} UnsetAllEffect(f: Fields, fields: seq<string>)
    ensures forall d :: d in fields && '.' !in d ==> d !in UnsetAll(f, fields)
    ensures forall k :: k in f && (forall d :: d in fields ==> !Touches(d, k)) ==>
      k in UnsetAll(f, fields) && UnsetAll(f, fields)[k] == f[k]
    decreases |fields|
  {
    if fields != [] {
      var init := fields[..|fields| - 1];
      var last := fields[|fields| - 1];
      UnsetAllEffect(f, init);
      assert fields == init + [last];
      forall d | d in fields && '.' !in d ensures d !in UnsetAll(f, fields) {
        if d != last {
          assert d in init;
        }
      }
    }
  }

  // ---------------------------------------------------------------------
  // The row merge `updateRowData`
  // ---------------------------------------------------------------------

  /**
   * What a Firestore `setDoc(…, { merge: true })` promises: the merged
   * document has exactly the keys of both, a key the update does not name
   * keeps its value, and a key the update sets to anything but a nested
   * object (onto an object) takes the update's value.
   */
  ghost predicate FirestoreMerge(merge: (Fields, Fields) -> Fields) {
    forall a: Fields, b: Fields ::
      && (forall k :: k in merge(a, b) <==> k in a || k in b)
      && (forall k :: k in a && k !in b ==> k in merge(a, b) && merge(a, b)[k] == a[k])
      && (forall k :: k in b && !(b[k].Obj? && k in a && a[k].Obj?) ==> k in merge(a, b) && merge(a, b)[k] == b[k])
  }

  /** Merging one value into another: objects key by key, anything else replaced. */
  function MergeValue(a: Value, b: Value): Value
    decreases b
  {
    match b
    case Obj(fb) =>
      if a.Obj? then
        Obj(map k | k in a.fields.Keys + fb.Keys ::
          if k in fb then (if k in a.fields then MergeValue(a.fields[k], fb[k]) else fb[k]) else a.fields[k])
      else b
    case _ => b
  }

  /** A deep merge in the manner of Firestore's merge writes. */
  function DeepMerge(a: Fields, b: Fields): Fields {
    MergeValue(Obj(a), Obj(b)).fields
  }

  lemma DeepMergeIsFirestoreMerge()
    ensures FirestoreMerge(DeepMerge)
  {
    forall a: Fields, b: Fields
      ensures forall k :: k in b && !(b[k].Obj? && k in a && a[k].Obj?) ==> k in DeepMerge(a, b) && DeepMerge(a, b)[k] == b[k]
    {
      forall k | k in b && !(b[k].Obj? && k in a && a[k].Obj?)
        ensures k in DeepMerge(a, b) && DeepMerge(a, b)[k] == b[k]
      {
        if k in a {
          assert MergeValue(a[k], b[k]) == b[k];
        }
      }
    }
  }

  // ---------------------------------------------------------------------
  // The local row buffer
  // ---------------------------------------------------------------------

  /** A reducer action. `AddOne`/`AddMany` and `DeleteOne`/`DeleteMany` are the single and array forms. */
  datatype Action =
    | Set(rows: seq<Row>)
    | AddOne(row: Row)
    | AddMany(rows: seq<Row>)
    | Update(path: string, partial: Fields, deleteFields: Option<seq<string>>)
    | DeleteOne(path: string)
    | DeleteMany(paths: seq<string>)

  function PathOf(r: Row): string {
    r.ref.path
  }

  /** `findIndex(rows, ["_rowy_ref.path", path])`. */
  function IndexOfPath(rows: seq<Row>, path: string): (i: Option<nat>)
    ensures i.Some? ==> i.value < |rows| && rows[i.value].ref.path == path
    ensures i.Some? ==> forall j :: 0 <= j < i.value ==> rows[j].ref.path != path
    ensures i.None? <==> forall j :: 0 <= j < |rows| ==> rows[j].ref.path != path
  {
    if rows == [] then None
    else if rows[0].ref.path == path then Some(0)
    else match IndexOfPath(rows[1..], path)
      case None => None
      case Some(j) => Some(j + 1)
  }

  /**
   * `path.split("/").pop() || path`: the part of the path after its last
   * `/`, or the whole path when that part is empty.
   */
  function IdFromPath(path: string): (id: string)
    ensures '/' !in path ==> id == path
    ensures path != [] && path[|path| - 1] == '/' ==> id == path
    ensures '/' in path && path[|path| - 1] != '/' ==>
      && id != [] && '/' !in id
      && |id| < |path| && path[|path| - |id|..] == id && path[|path| - |id| - 1] == '/'
  {
    LastPieceIsFinalSegment(path, '/');
    var last := Last(Split(path, '/'));
    if last == "" then path else last
  }

  predicate KeepsPath(path: string, r: Row) {
    r.ref.path != path
  }

  predicate KeepsPaths(paths: seq<string>, r: Row) {
    r.ref.path !in paths
  }

  /**
   * The rows without a given path: the others keep their order and are
   * kept as often as they occur, which pins the result down
   * (`FilterIsDetermined`).
   */
  function WithoutPath(rows: seq<Row>, path: string): (rest: seq<Row>)
    ensures Subsequence(rest, rows)
    ensures forall r :: multiset(rest)[r] == if r.ref.path == path then 0 else multiset(rows)[r]
  {
    var keep := r => KeepsPath(path, r);
    FilterCounts(rows, keep);
    FilterBy(rows, keep)
  }

  /** The rows whose path is in none of `paths`, in their order and as often as they occur. */
  function WithoutPaths(rows: seq<Row>, paths: seq<string>): (rest: seq<Row>)
    ensures Subsequence(rest, rows)
    ensures forall r :: multiset(rest)[r] == if r.ref.path in paths then 0 else multiset(rows)[r]
  {
    var keep := r => KeepsPaths(paths, r);
    FilterCounts(rows, keep);
    FilterBy(rows, keep)
  }

  /** The fields of an updated row: the listed fields deleted, then the partial row merged in. */
  function UpdatedFields(before: Fields, partial: Fields, deleteFields: Option<seq<string>>, merge: (Fields, Fields) -> Fields): Fields {
    merge(if deleteFields.Some? then UnsetAll(before, deleteFields.value) else before, partial)
  }

  /** The paths a delete action removes. */
  function Gone(action: Action): seq<string>
    requires action.DeleteOne? || action.DeleteMany?
  {
    if action.DeleteOne? then [action.path] else action.paths
  }

  /**
   * `tableRowsLocalReducer(prev, action)`, with `updateRowData` as `merge`.
   * Adding keeps the old rows, in order, after the new ones; an update
   * leaves a row with its path, adding one only when there was none; a
   * delete keeps a subsequence of the rows without the deleted paths.
   */
  function Reduce(prev: seq<Row>, action: Action, merge: (Fields, Fields) -> Fields): (next: seq<Row>)
    ensures action.AddOne? ==> |next| == |prev| + 1
    ensures (action.AddOne? || action.AddMany?) ==> |next| >= |prev| && next[|next| - |prev|..] == prev
    ensures action.Update? ==> exists j :: 0 <= j < |next| && next[j].ref.path == action.path
    ensures action.Update? ==> |next| == |prev| + if IndexOfPath(prev, action.path).Some? then 0 else 1
    ensures (action.DeleteOne? || action.DeleteMany?) ==>
      Subsequence(next, prev) && forall r :: r in next ==> r.ref.path !in Gone(action)
  {
    match action
    case Set(rows) => rows
    case AddOne(row) => [row] + prev
    case AddMany(rows) => rows + prev
    case Update(path, partial, deleteFields) =>
      (match IndexOfPath(prev, path)
       case Some(i) =>
         var next := prev[i := prev[i].(fields := UpdatedFields(prev[i].fields, partial, deleteFields, merge))];
         assert next[i].ref.path == path;
         next
       case None =>
         var next := [Row(RowRef(path, IdFromPath(path)), partial)] + prev;
         assert next[0].ref.path == path;
         next)
    case DeleteOne(path) =>
      var next := WithoutPath(prev, path);
      assert forall r :: r in next ==> multiset(next)[r] > 0;
      next
    case DeleteMany(paths) =>
      var next := WithoutPaths(prev, paths);
      assert forall r :: r in next ==> multiset(next)[r] > 0;
      next
  }

  /** `set` replaces the buffer with the given rows; `add` puts the new rows first, in their order. */
  lemma ReduceSetAdd(prev: seq<Row>, action: Action, merge: (Fields, Fields) -> Fields)
    ensures action.Set? ==> Reduce(prev, action, merge) == action.rows
    ensures action.AddOne? ==> Reduce(prev, action, merge) == [action.row] + prev
    ensures action.AddMany? ==> Reduce(prev, action, merge) == action.rows + prev
  {
  }

  /**
   * `update` of a path the buffer holds: the first row with that path gets
   * the listed fields deleted and the partial row merged in under its
   * reference; every other row stays as it was, where it was.
   */
  lemma UpdateFound(prev: seq<Row>, path: string, partial: Fields, deleteFields: Option<seq<string>>, merge: (Fields, Fields) -> Fields)
    requires exists j :: 0 <= j < |prev| && prev[j].ref.path == path
    ensures var next := Reduce(prev, Update(path, partial, deleteFields), merge);
      var i := IndexOfPath(prev, path).value;
      && |next| == |prev|
      && prev[i].ref.path == path && (forall j :: 0 <= j < i ==> prev[j].ref.path != path)
      && next[i].ref == prev[i].ref
      && next[i].fields == UpdatedFields(prev[i].fields, partial, deleteFields, merge)
      && (forall j :: 0 <= j < |prev| && j != i ==> next[j] == prev[j])
  {
  }

  /**
   * With a Firestore-style merge, an update keeps every field of the row
   * that the partial row does not set and no deleted field touches, and
   * a plain deleted field the partial row does not set is gone.
   */
  lemma UpdateKeepsUntouchedFields(before: Fields, partial: Fields, deleteFields: seq<string>, merge: (Fields, Fields) -> Fields)
    requires FirestoreMerge(merge)
    ensures var f := UpdatedFields(before, partial, Some(deleteFields), merge);
      && (forall k :: k in before && k !in partial && (forall d :: d in deleteFields ==> !Touches(d, k)) ==> k in f && f[k] == before[k])
      && (forall d :: d in deleteFields && '.' !in d && d !in partial ==> d !in f)
      && (forall k :: k in partial && !partial[k].Obj? ==> k in f && f[k] == partial[k])
  {
    UnsetAllEffect(before, deleteFields);
  }

  /**
   * `update` of a path the buffer does not hold: one new row is put first,
   * made of the partial row under a reference with that path and the id
   * the path ends in.
   */
  lemma UpdateMissing(prev: seq<Row>, path: string, partial: Fields, deleteFields: Option<seq<string>>, merge: (Fields, Fields) -> Fields)
    requires forall j :: 0 <= j < |prev| ==> prev[j].ref.path != path
    ensures var next := Reduce(prev, Update(path, partial, deleteFields), merge);
      && |next| == |prev| + 1
      && next[0] == Row(RowRef(path, IdFromPath(path)), partial)
      && next[1..] == prev
  {
  }

  /**
   * `delete`: every row with one of the given paths goes, every other row
   * stays as often as it occurred and where it was relative to the others,
   * and no row is added.
   */
  lemma DeleteRemovesPaths(prev: seq<Row>, action: Action, merge: (Fields, Fields) -> Fields)
    requires action.DeleteOne? || action.DeleteMany?
    ensures var next := Reduce(prev, action, merge);
      var gone := if action.DeleteOne? then [action.path] else action.paths;
      && |next| <= |prev|
      && (forall r :: r in next <==> r in prev && r.ref.path !in gone)
      && (forall r :: multiset(next)[r] == if r.ref.path in gone then 0 else multiset(prev)[r])
      && Subsequence(next, prev)
      && ((forall j :: 0 <= j < |prev| ==> prev[j].ref.path !in gone) ==> next == prev)
  {
  }

  /** The deletion example: `{a: 0, b: 2, c: 3}` with `b` deleted and `{a: 1}` merged gives `{a: 1, c: 3}`. */
  lemma DeleteFieldsThenMergeExample()
    ensures var prev := [Row(RowRef("t/r", "r"), map["a" := Number(0.0), "b" := Number(2.0), "c" := Number(3.0)])];
      Reduce(prev, Update("t/r", map["a" := Number(1.0)], Some(["b"])), DeepMerge)[0].fields
        == map["a" := Number(1.0), "c" := Number(3.0)]
  {
    var before := map["a" := Number(0.0), "b" := Number(2.0), "c" := Number(3.0)];
    var prev := [Row(RowRef("t/r", "r"), before)];
    var after := map["a" := Number(0.0), "c" := Number(3.0)];
    assert prev[0].ref.path == "t/r";
    UpdateFound(prev, "t/r", map["a" := Number(1.0)], Some(["b"]), DeepMerge);
    UnsetPlainExample(before, after);
    MergeIntoExample(after);
  }

  /** Merging `{a: 1}` into `{a: 0, c: 3}` gives `{a: 1, c: 3}`. */
  lemma MergeIntoExample(after: Fields)
    requires after == map["a" := Number(0.0), "c" := Number(3.0)]
    ensures DeepMerge(after, map["a" := Number(1.0)]) == map["a" := Number(1.0), "c" := Number(3.0)]
  {
    var merged := DeepMerge(after, map["a" := Number(1.0)]);
    assert merged.Keys == {"a", "c"};
    assert merged["a"] == MergeValue(Number(0.0), Number(1.0));
  }

  /** Deleting the plain field "b" from `{a: 0, b: 2, c: 3}` leaves `{a: 0, c: 3}`. */
  lemma UnsetPlainExample(before: Fields, after: Fields)
    requires before == map["a" := Number(0.0), "b" := Number(2.0), "c" := Number(3.0)]
    requires after == map["a" := Number(0.0), "c" := Number(3.0)]
    ensures UnsetAll(before, ["b"]) == after
  {
    assert CastPath(before, "b") == ["b"];
    assert ["b"][..0] == [];
    assert UnsetAll(before, ["b"]) == Unset(before, "b") == before - {"b"};
  }

  /** The merge example: `{a: 0, b: 2}` updated with `{a: 1}` gives `{a: 1, b: 2}`, not `{a: 1}`. */
  lemma UpdateMergeExample()
    ensures var prev := [Row(RowRef("t/r", "r"), map["a" := Number(0.0), "b" := Number(2.0)])];
      Reduce(prev, Update("t/r", map["a" := Number(1.0)], None), DeepMerge)[0].fields
        == map["a" := Number(1.0), "b" := Number(2.0)]
  {
    var merged := DeepMerge(map["a" := Number(0.0), "b" := Number(2.0)], map["a" := Number(1.0)]);
    assert merged.Keys == {"a", "b"};
    assert merged["a"] == MergeValue(Number(0.0), Number(1.0));
  }

  /**
   * `tableRowsLocalAtom`: the buffer of rows not yet written or not yet
   * seen by the listener, changed only by dispatching reducer actions.
   */
  class LocalRowsAtom {
    var rows: seq<Row>
    /** `updateRowData`, whose code is not part of this model. */
    const updateRowData: (Fields, Fields) -> Fields

    constructor (updateRowData: (Fields, Fields) -> Fields)
      ensures rows == [] && this.updateRowData == updateRowData
    {
      rows := [];
      this.updateRowData := updateRowData;
    }

    /** Dispatching `action`: the buffer becomes the reducer's result. */
    method Dispatch(action: Action)
      modifies this
      ensures rows == Reduce(old(rows), action, updateRowData)
    {
      match action {
        case Set(newRows) =>
          rows := newRows;
        case AddOne(row) =>
          rows := [row] + rows;
        case AddMany(newRows) =>
          rows := newRows + rows;
        case Update(path, partial, deleteFields) =>
          var index := IndexOfPath(rows, path);
          if index.Some? {
            var i := index.value;
            var target := rows[i].fields;
            if deleteFields.Some? {
              var fields := deleteFields.value;
              for k := 0 to |fields|
                invariant target == UnsetAll(rows[i].fields, fields[..k])
              {
                assert fields[..k + 1][..k] == fields[..k];
                target := Unset(target, fields[k]);
              }
              assert fields[..|fields|] == fields;
            }
            rows := rows[i := rows[i].(fields := updateRowData(target, partial))];
          } else {
            rows := [Row(RowRef(path, IdFromPath(path)), partial)] + rows;
          }
        case DeleteOne(path) =>
          rows := WithoutPath(rows, path);
        case DeleteMany(paths) =>
          rows := WithoutPaths(rows, paths);
      }
    }
  }

  // ---------------------------------------------------------------------
  // The merged view
  // ---------------------------------------------------------------------

  /**
   * `tableRowsAtom`: `sortBy(uniqBy([...local, ...db], path), path)`. Every
   * row shown comes from one of the buffers, and every path of either
   * buffer is shown.
   */
  function MergedRows(local: seq<Row>, db: seq<Row>): (rows: seq<Row>)
    ensures forall r :: r in rows ==> r in local || r in db
    ensures forall r :: r in local || r in db ==> HasKey(rows, PathOf, r.ref.path)
  {
    LessEqIsTotalPreorder();
    var u := UniqBy(local + db, PathOf);
    var rows := SortBy(u, PathOf, LessEq);
    forall r | r in rows ensures r in local || r in db {
      assert r in multiset(rows);
      assert r in u;
      assert r in local + db;
    }
    forall r | r in local || r in db ensures HasKey(rows, PathOf, r.ref.path) {
      var s := local + db;
      assert r in s;
      var i :| 0 <= i < |s| && s[i] == r;
      HasKeyAt(s, PathOf, i);
      assert HasKey(u, PathOf, PathOf(r));
    }
    rows
  }

  predicate HasPath(rows: seq<Row>, p: string) {
    exists r :: r in rows && r.ref.path == p
  }

  lemma MergedRowsSorted(local: seq<Row>, db: seq<Row>)
    ensures var rows := MergedRows(local, db);
      && (forall i, j :: 0 <= i < j < |rows| ==> rows[i].ref.path != rows[j].ref.path)
      && (forall i, j :: 0 <= i < j < |rows| ==> LessEq(rows[i].ref.path, rows[j].ref.path))
      && (forall r :: r in rows ==> r in local || r in db)
  {
    LessEqIsTotalPreorder();
    var u := UniqBy(local + db, PathOf);
    var rows := MergedRows(local, db);
    SortKeepsDistinct(u, PathOf, LessEq);
    DistinctKeysAll(rows, PathOf);
    forall r | r in rows ensures r in local || r in db {
      assert r in multiset(rows);
      assert r in u;
    }
  }

  lemma MergedRowsAt(local: seq<Row>, db: seq<Row>, p: string)
    ensures var rows := MergedRows(local, db);
      && (HasPath(rows, p) <==> HasPath(local, p) || HasPath(db, p))
      && FindBy(rows, PathOf, p) == if HasPath(local, p) then FindBy(local, PathOf, p) else FindBy(db, PathOf, p)
  {
    LessEqIsTotalPreorder();
    var u := UniqBy(local + db, PathOf);
    var rows := MergedRows(local, db);
    SortKeepsDistinct(u, PathOf, LessEq);
    FindInConcat(local, db, PathOf, p);
    HasKeyIff(rows, PathOf, p);
    HasKeyIff(local, PathOf, p);
    HasKeyIff(db, PathOf, p);
  }

  /**
   * The merged view holds one row per path, in ascending path order; its
   * paths are those of both buffers; for a path the local buffer holds, the
   * row is the local buffer's first row with that path, otherwise the
   * listener's first.
   */
  lemma MergedRowsSpec(local: seq<Row>, db: seq<Row>)
    ensures var rows := MergedRows(local, db);
      && (forall i, j :: 0 <= i < j < |rows| ==> rows[i].ref.path != rows[j].ref.path)
      && (forall i, j :: 0 <= i < j < |rows| ==> LessEq(rows[i].ref.path, rows[j].ref.path))
      && (forall p :: HasPath(rows, p) <==> HasPath(local, p) || HasPath(db, p))
      && (forall p :: FindBy(rows, PathOf, p) == if HasPath(local, p) then FindBy(local, PathOf, p) else FindBy(db, PathOf, p))
      && (forall r :: r in rows ==> r in local || r in db)
  {
    MergedRowsSorted(local, db);
    forall p ensures var rows := MergedRows(local, db);
      && (HasPath(rows, p) <==> HasPath(local, p) || HasPath(db, p))
      && FindBy(rows, PathOf, p) == if HasPath(local, p) then FindBy(local, PathOf, p) else FindBy(db, PathOf, p)
    {
      MergedRowsAt(local, db, p);
    }
  }

  // ---------------------------------------------------------------------
  // Columns
  // ---------------------------------------------------------------------

  function IndexOf(c: ColumnConfig): int {
    c.index
  }

  predicate IntLessEq(a: int, b: int) {
    a <= b
  }

  lemma IndexOrderIsTotal()
    ensures TotalPreorder(IntLessEq)
  {
  }

  /** `tableColumnsOrderedAtom`: `orderBy(Object.values(columns), "index")`, `[]` without columns. */
  function OrderedColumns(schema: TableSchema): (cols: seq<ColumnConfig>)
    ensures schema.columns.None? ==> cols == []
    ensures schema.columns.Some? ==> multiset(cols) == multiset(ValuesOf(schema.columns.value))
    ensures forall i, j :: 0 <= i < j < |cols| ==> cols[i].index <= cols[j].index
  {
    IndexOrderIsTotal();
    if schema.columns.None? then [] else SortBy(ValuesOf(schema.columns.value), IndexOf, IntLessEq)
  }

  /** `orderBy` is stable: the columns that share an index keep the order of `Object.values`. */
  lemma OrderedColumnsStable(schema: TableSchema, i: int)
    requires schema.columns.Some?
    ensures FilterBy(OrderedColumns(schema), KeyIs(IndexOf, i)) == FilterBy(ValuesOf(schema.columns.value), KeyIs(IndexOf, i))
  {
    IndexOrderIsTotal();
    SortStableKey(ValuesOf(schema.columns.value), IndexOf, IntLessEq, i);
  }

  /** `cols.reduce(tableColumnsReducer, {})`, as a fold: no key twice, at most one entry per column. */
  function ColumnsRecord(cols: seq<ColumnConfig>): (a: Record<ColumnConfig>)
    ensures Distinct(a)
    ensures |a| <= |cols|
    decreases |cols|
  {
    if cols == [] then []
    else
      var n := |cols| - 1;
      Put(ColumnsRecord(cols[..n]), cols[n].key, cols[n].(index := n))
  }

  /** The keys of a list of columns. */
  function ColumnKeys(cols: seq<ColumnConfig>): (ks: set<string>)
    ensures forall i :: 0 <= i < |cols| ==> cols[i].key in ks
    ensures forall k :: k in ks ==> exists i :: 0 <= i < |cols| && cols[i].key == k
    decreases |cols|
  {
    if cols == [] then {}
    else
      var n := |cols| - 1;
      var init := ColumnKeys(cols[..n]);
      assert forall i :: 0 <= i < n ==> cols[..n][i] == cols[i];
      init + {cols[n].key}
  }

  /** Every column key gets exactly one entry. */
  lemma {:induction false} ColumnsRecordKeys(cols: seq<ColumnConfig>)
    ensures Distinct(ColumnsRecord(cols))
    ensures forall k :: k in KeysOf(ColumnsRecord(cols)) <==> k in ColumnKeys(cols)
    decreases |cols|
  {
    if cols != [] {
      var n := |cols| - 1;
      var init := cols[..n];
      ColumnsRecordKeys(init);
      var r0 := ColumnsRecord(init);
      var k0 := cols[n].key;
      var r := Put(r0, k0, cols[n].(index := n));
      assert ColumnsRecord(cols) == r;
    }
  }

  /** The entry of a key is its last column, with `index` set to that column's array position. */
  lemma {:induction false} ColumnsRecordLastWins(cols: seq<ColumnConfig>, i: nat)
    requires i < |cols| && forall j :: i < j < |cols| ==> cols[j].key != cols[i].key
    ensures Lookup(ColumnsRecord(cols), cols[i].key) == Some(cols[i].(index := i))
    decreases |cols|
  {
    var n := |cols| - 1;
    var init := cols[..n];
    var r0 := ColumnsRecord(init);
    var k := cols[n].key;
    var v := cols[n].(index := n);
    assert ColumnsRecord(cols) == Put(r0, k, v);
    if i < n {
      assert init[i] == cols[i];
      ColumnsRecordLastWins(init, i);
      assert Lookup(r0, cols[i].key) == Some(cols[i].(index := i));
      assert cols[i].key != k;
      assert Lookup(Put(r0, k, v), cols[i].key) == Lookup(r0, cols[i].key);
      assert Lookup(ColumnsRecord(cols), cols[i].key) == Some(cols[i].(index := i));
    } else {
      assert Lookup(Put(r0, k, v), k) == Some(v);
      assert i == n;
      assert Lookup(ColumnsRecord(cols), cols[i].key) == Some(cols[i].(index := i));
    }
  }

  /** The columns in order, each carrying its array position as `index`. */
  function Reindexed(cols: seq<ColumnConfig>): (r: seq<ColumnConfig>)
    ensures |r| == |cols|
    ensures forall i :: 0 <= i < |cols| ==> r[i] == cols[i].(index := i)
  {
    seq(|cols|, i requires 0 <= i < |cols| => cols[i].(index := i))
  }

  predicate DistinctColumnKeys(cols: seq<ColumnConfig>) {
    forall i, j :: 0 <= i < j < |cols| ==> cols[i].key != cols[j].key
  }

  /** The entries of the columns object when no key repeats: one per column, in order. */
  function Entries(cols: seq<ColumnConfig>): (r: Record<ColumnConfig>)
    ensures |r| == |cols|
    ensures forall i :: 0 <= i < |cols| ==> r[i] == (cols[i].key, cols[i].(index := i))
  {
    seq(|cols|, i requires 0 <= i < |cols| => (cols[i].key, cols[i].(index := i)))
  }

  lemma EntriesValues(cols: seq<ColumnConfig>)
    ensures ValuesOf(Entries(cols)) == Reindexed(cols)
  {
  }

  /** With distinct keys the columns object lists the columns in order, indices 0, 1, 2, … */
  lemma {:induction false} ColumnsRecordDense(cols: seq<ColumnConfig>)
    requires DistinctColumnKeys(cols)
    ensures ColumnsRecord(cols) == Entries(cols)
    decreases |cols|
  {
    if cols != [] {
      var n := |cols| - 1;
      var init := cols[..n];
      ColumnsRecordDense(init);
      var r0 := ColumnsRecord(init);
      var e := (cols[n].key, cols[n].(index := n));
      KeysOfAt(r0);
      assert cols[n].key !in KeysOf(r0) by {
        forall i | 0 <= i < n ensures KeysOf(r0)[i] != cols[n].key {
          assert KeysOf(r0)[i] == init[i].key == cols[i].key;
        }
      }
      assert ColumnsRecord(cols) == Put(r0, e.0, e.1);
      PutNewKeyAppends(r0, e.0, e.1);
      EntriesSnoc(cols);
    }
  }

  lemma EntriesSnoc(cols: seq<ColumnConfig>)
    requires cols != []
    ensures var n := |cols| - 1;
      Entries(cols) == Entries(cols[..n]) + [(cols[n].key, cols[n].(index := n))]
  {
    var n := |cols| - 1;
    var r := Entries(cols[..n]) + [(cols[n].key, cols[n].(index := n))];
    forall i | 0 <= i < |cols| ensures r[i] == Entries(cols)[i] {
      if i < n {
        assert cols[..n][i] == cols[i];
      }
    }
  }

  /**
   * Round trip: ordering the columns object built from an array of columns
   * with distinct keys gives back that array, with each index its position.
   */
  lemma ColumnsRoundTrip(cols: seq<ColumnConfig>, schema: TableSchema)
    requires DistinctColumnKeys(cols) && schema.columns == Some(ColumnsRecord(cols))
    ensures OrderedColumns(schema) == Reindexed(cols)
  {
    ColumnsRecordDense(cols);
    EntriesValues(cols);
    IndexOrderIsTotal();
    SortSortedIsIdentity(Reindexed(cols), IndexOf, IntLessEq);
  }

  /**
   * `columns.reduce(tableColumnsReducer, {})`: each step assigns
   * `a[c.key] = {...c, index}` on the accumulated object.
   */
  method ReduceColumns(cols: seq<ColumnConfig>) returns (a: Record<ColumnConfig>)
    ensures a == ColumnsRecord(cols)
    ensures DistinctColumnKeys(cols) ==> ValuesOf(a) == Reindexed(cols)
  {
    a := [];
    for n := 0 to |cols|
      invariant a == ColumnsRecord(cols[..n])
    {
      assert cols[..n + 1][..n] == cols[..n];
      a := Put(a, cols[n].key, cols[n].(index := n));
    }
    assert cols[..|cols|] == cols;
    if DistinctColumnKeys(cols) {
      ColumnsRecordDense(cols);
      EntriesValues(cols);
    }
  }
}
