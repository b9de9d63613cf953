/**
 * The table component's derivations from the table state: row ids, column
 * definitions, column visibility and pinning, the scroll rule that loads the
 * next page, and the column update a header drop issues.
 */
module TableView {
  import opened Values
  import opened Collections
  import opened TableTypes
  import opened TableAtoms

  // ---------------------------------------------------------------------
  // Row ids
  // ---------------------------------------------------------------------

  /** `getRowId`: `_rowy_ref.path || _rowy_ref.id`. */
  function GetRowId(r: Row): (id: string)
    ensures r.ref.path != "" ==> id == r.ref.path
    ensures r.ref.path == "" ==> id == r.ref.id
  {
    if r.ref.path != "" then r.ref.path else r.ref.id
  }

  /**
   * When every row of both buffers has a path, the merged rows have
   * pairwise distinct row ids, as the table requires of `getRowId`.
   */
  lemma MergedRowIdsDistinct(local: seq<Row>, db: seq<Row>)
    requires forall r :: r in local ==> r.ref.path != ""
    requires forall r :: r in db ==> r.ref.path != ""
    ensures var rows := MergedRows(local, db);
      forall i, j :: 0 <= i < j < |rows| ==> GetRowId(rows[i]) != GetRowId(rows[j])
  {
    var rows := MergedRows(local, db);
    MergedRowsSorted(local, db);
    forall i, j | 0 <= i < j < |rows| ensures GetRowId(rows[i]) != GetRowId(rows[j]) {
      assert rows[i] in rows && rows[j] in rows;
    }
  }

  // ---------------------------------------------------------------------
  // Column definitions
  // ---------------------------------------------------------------------

  const MinColWidth := 80
  const ActionsColumnId := "_rowy_column_actions"

  /**
   * A column definition handed to the table: an accessor column for a
   * schema column (its id is the field name, its meta the column config),
   * or the display column that ends the row.
   */
  datatype ColumnDef =
    | Accessor(id: string, meta: ColumnConfig, size: Option<int>, enableResizing: bool, minSize: int)
    | Display(id: string)

  function AccessorOf(c: ColumnConfig): ColumnDef {
    Accessor(c.fieldName, c, c.width, c.resizable != Some(false), MinColWidth)
  }

  predicate Shown(c: ColumnConfig) {
    !c.hidden
  }

  function Accessors(cols: seq<ColumnConfig>): (defs: seq<ColumnDef>)
    ensures |defs| == |cols|
    ensures forall i :: 0 <= i < |cols| ==> defs[i] == AccessorOf(cols[i])
  {
    seq(|cols|, i requires 0 <= i < |cols| => AccessorOf(cols[i]))
  }

  lemma AccessorsMembers(cols: seq<ColumnConfig>)
    ensures forall c :: AccessorOf(c) in Accessors(cols) <==> c in cols
    ensures forall d :: d in Accessors(cols) ==> d.Accessor? && d.meta in cols && d == AccessorOf(d.meta)
  {
    var defs := Accessors(cols);
    forall c | AccessorOf(c) in defs ensures c in cols {
      var i :| 0 <= i < |defs| && defs[i] == AccessorOf(c);
      assert cols[i] == c;
    }
    forall c | c in cols ensures AccessorOf(c) in defs {
      var i :| 0 <= i < |cols| && cols[i] == c;
      assert defs[i] == AccessorOf(c);
    }
  }

  /**
   * `columns`: an accessor per ordered column that is not hidden, in
   * order, then the actions column exactly when the user can add columns or
   * edit cells.
   */
  function Columns(ordered: seq<ColumnConfig>, canAddColumns: bool, canEditCells: bool): (defs: seq<ColumnDef>)
    ensures forall c :: AccessorOf(c) in defs <==> c in ordered && !c.hidden
    ensures forall d :: d in defs && d.Accessor? ==>
      d.meta in ordered && !d.meta.hidden && d.id == d.meta.fieldName
      && (d.enableResizing <==> d.meta.resizable != Some(false)) && d.minSize == MinColWidth
    ensures Display(ActionsColumnId) in defs <==> canAddColumns || canEditCells
    ensures forall i :: 0 <= i < |defs| && defs[i].Display? ==> defs[i] == Display(ActionsColumnId) && i == |defs| - 1
    ensures |defs| == |FilterBy(ordered, Shown)| + if canAddColumns || canEditCells then 1 else 0
    ensures defs[..|FilterBy(ordered, Shown)|] == Accessors(FilterBy(ordered, Shown))
  {
    var actions := if canAddColumns || canEditCells then [Display(ActionsColumnId)] else [];
    var defs := Accessors(FilterBy(ordered, Shown)) + actions;
    ColumnDefsMembers(ordered, actions, defs);
    ColumnDefsLayout(ordered, actions, defs);
    defs
  }

  /** Which definitions the column list holds. */
  lemma ColumnDefsMembers(ordered: seq<ColumnConfig>, actions: seq<ColumnDef>, defs: seq<ColumnDef>)
    requires actions == [] || actions == [Display(ActionsColumnId)]
    requires defs == Accessors(FilterBy(ordered, Shown)) + actions
    ensures forall c :: AccessorOf(c) in defs <==> c in ordered && !c.hidden
    ensures forall d :: d in defs && d.Accessor? ==>
      d.meta in ordered && !d.meta.hidden && d.id == d.meta.fieldName
      && (d.enableResizing <==> d.meta.resizable != Some(false)) && d.minSize == MinColWidth
    ensures Display(ActionsColumnId) in defs <==> actions != []
  {
    var accessors := Accessors(FilterBy(ordered, Shown));
    AccessorsMembers(FilterBy(ordered, Shown));
    assert forall d :: d in defs <==> d in accessors || d in actions;
  }

  /** Where the definitions sit: the accessors in order, then the actions column if any. */
  lemma ColumnDefsLayout(ordered: seq<ColumnConfig>, actions: seq<ColumnDef>, defs: seq<ColumnDef>)
    requires actions == [] || actions == [Display(ActionsColumnId)]
    requires defs == Accessors(FilterBy(ordered, Shown)) + actions
    ensures forall i :: 0 <= i < |defs| && defs[i].Display? ==> defs[i] == Display(ActionsColumnId) && i == |defs| - 1
    ensures |defs| == |FilterBy(ordered, Shown)| + |actions|
    ensures defs[..|FilterBy(ordered, Shown)|] == Accessors(FilterBy(ordered, Shown))
  {
    var accessors := Accessors(FilterBy(ordered, Shown));
    assert forall i :: 0 <= i < |accessors| ==> defs[i].Accessor?;
    assert defs[..|accessors|] == accessors;
  }

  // ---------------------------------------------------------------------
  // Visibility and pinning
  // ---------------------------------------------------------------------

  function HideAll(hidden: seq<string>): (vis: map<string, bool>)
    ensures forall id :: id in vis <==> id in hidden
    ensures forall id :: id in vis ==> !vis[id]
  {
    if hidden == [] then map[] else HideAll(hidden[..|hidden| - 1])[hidden[|hidden| - 1] := false]
  }

  /**
   * `columnVisibility`: every id of the user's hidden columns maps to
   * `false`; no other id is listed; `{}` when there is no array.
   */
  function ColumnVisibility(hiddenColumns: Option<seq<string>>): (vis: map<string, bool>)
    ensures hiddenColumns.None? ==> vis == map[]
    ensures hiddenColumns.Some? ==> forall id :: id in vis <==> id in hiddenColumns.value
    ensures forall id :: id in vis ==> !vis[id]
  {
    if hiddenColumns.None? then map[] else HideAll(hiddenColumns.value)
  }

  /** `c.meta?.fixed && c.id`: the display column has no meta. */
  predicate Pinned(c: ColumnDef) {
    c.Accessor? && c.meta.fixed && c.id != ""
  }

  /** `columnPinning.left`: the ids of the pinned columns, in column order. */
  function ColumnPinning(defs: seq<ColumnDef>): (left: seq<string>)
    ensures |left| <= |defs|
    ensures forall id :: id in left <==> exists d :: d in defs && Pinned(d) && d.id == id
  {
    if defs == [] then []
    else
      var rest := ColumnPinning(defs[1..]);
      assert defs == [defs[0]] + defs[1..];
      (if Pinned(defs[0]) then [defs[0].id] else []) + rest
  }

  /** Pinning a concatenation pins each part in turn: the order of the columns is kept. */
  lemma {:induction false} PinningKeepsOrder(a: seq<ColumnDef>, b: seq<ColumnDef>)
    ensures ColumnPinning(a + b) == ColumnPinning(a) + ColumnPinning(b)
  {
    if a != [] {
      assert (a + b)[1..] == a[1..] + b;
      PinningKeepsOrder(a[1..], b);
    } else {
      assert a + b == b;
    }
  }

  /** `lastFrozen`: the last pinned id, undefined when none is pinned. */
  function LastFrozen(left: seq<string>): (last: Option<string>)
    ensures last.None? <==> left == []
  {
    if left == [] then None else Some(left[|left| - 1])
  }

  /**
   * The last frozen column is the id of a pinned column after which no
   * column is pinned, and there is none exactly when no column is pinned.
   */
  lemma {:induction false} LastFrozenIsLastPinned(defs: seq<ColumnDef>)
    ensures LastFrozen(ColumnPinning(defs)).None? <==> forall i :: 0 <= i < |defs| ==> !Pinned(defs[i])
    ensures LastFrozen(ColumnPinning(defs)).Some? ==> exists i ::
      0 <= i < |defs| && Pinned(defs[i]) && LastFrozen(ColumnPinning(defs)).value == defs[i].id
      && forall j :: i < j < |defs| ==> !Pinned(defs[j])
  {
    if defs != [] {
      var rest := defs[1..];
      LastFrozenIsLastPinned(rest);
      LastFrozenCons(defs);
      assert forall i :: 0 < i < |defs| ==> defs[i] == rest[i - 1];
      if ColumnPinning(rest) != [] {
        var i :| 0 <= i < |rest| && Pinned(rest[i]) && LastFrozen(ColumnPinning(rest)).value == rest[i].id
          && forall j :: i < j < |rest| ==> !Pinned(rest[j]);
        assert defs[i + 1] == rest[i];
      }
    }
  }

  /** The last pinned id of `defs` is that of its tail, or else its head's when the head is pinned. */
  lemma LastFrozenCons(defs: seq<ColumnDef>)
    requires defs != []
    ensures LastFrozen(ColumnPinning(defs)) ==
      if ColumnPinning(defs[1..]) != [] then LastFrozen(ColumnPinning(defs[1..]))
      else if Pinned(defs[0]) then Some(defs[0].id) else None
  {
    var rest := ColumnPinning(defs[1..]);
    var p := (if Pinned(defs[0]) then [defs[0].id] else []) + rest;
    assert ColumnPinning(defs) == p;
    if rest != [] {
      assert p[|p| - 1] == rest[|rest| - 1];
    }
  }

  // ---------------------------------------------------------------------
  // Loading the next page
  // ---------------------------------------------------------------------

  const LoadMoreThreshold: real := 300.0

  /** The scroll metrics of the table's container element. */
  datatype Container = Container(scrollHeight: real, scrollTop: real, clientHeight: real)

  /** How far the bottom of the view is from the bottom of the content. */
  function DistanceToBottom(c: Container): real {
    c.scrollHeight - c.scrollTop - c.clientHeight
  }

  /** `tablePageAtom`: the number of the last page requested. */
  class TablePage {
    var page: int

    constructor ()
      ensures page == 0
    {
      page := 0;
    }

    /**
     * `fetchMoreOnBottomReached`: with a container whose view ends less
     * than 300 pixels above the content's end, the next page is requested;
     * otherwise, and without a container, nothing changes.
     */
    method FetchMoreOnBottomReached(container: Option<Container>)
      modifies this
      ensures container.Some? && DistanceToBottom(container.value) < LoadMoreThreshold ==> page == old(page) + 1
      ensures container.None? || DistanceToBottom(container.value) >= LoadMoreThreshold ==> page == old(page)
    {
      if container.None? {
        return;
      }
      var c := container.value;
      if c.scrollHeight - c.scrollTop - c.clientHeight < 300.0 {
        page := page + 1;
      }
    }
  }

  // ---------------------------------------------------------------------
  // Dropping a column header
  // ---------------------------------------------------------------------

  /**
   * A drag-and-drop result: the dragged column's key and the destination
   * index, absent when there is no destination or it has no index.
   */
  datatype DropResult = DropResult(draggableId: string, destinationIndex: Option<int>)

  /** An `updateColumn` call: the column key, its new index and the config to merge. */
  datatype ColumnUpdate = ColumnUpdate(key: string, index: int, config: map<string, Value>)

  /**
   * `handleDropColumn`: the `updateColumn` calls a drop issues — none
   * without a destination index or a dragged id, otherwise one moving that
   * column to that index and changing nothing else of its config.
   */
  function HandleDropColumn(result: DropResult): (updates: seq<ColumnUpdate>)
    ensures updates == [] <==> result.destinationIndex.None? || result.draggableId == ""
    ensures |updates| <= 1
    ensures forall u :: u in updates ==>
      u.key == result.draggableId && Some(u.index) == result.destinationIndex && u.config == map[]
  {
    if result.destinationIndex.None? || result.draggableId == "" then []
    else [ColumnUpdate(result.draggableId, result.destinationIndex.value, map[])]
  }
}
