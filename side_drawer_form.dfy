/**
 * The side drawer's form for one row: which columns it shows and in what
 * order, the values it starts from, and how each field is rendered.
 */
module SideDrawerForm {
  import opened Values
  import opened Collections
  import opened Records
  import opened TableTypes
  import opened TableAtoms

  // ---------------------------------------------------------------------
  // Fields
  // ---------------------------------------------------------------------

  /**
   * `userDocHiddenFields`: the user's hidden fields for the table, `[]`
   * when the user document, the table's entry or the list is missing.
   */
  function HiddenFields(doc: Option<UserSettings>, tablePath: string): (hidden: seq<string>)
    ensures doc.Some? && tablePath in doc.value.tables && doc.value.tables[tablePath].hiddenFields.Some? ==>
      hidden == doc.value.tables[tablePath].hiddenFields.value
    ensures !(doc.Some? && tablePath in doc.value.tables && doc.value.tables[tablePath].hiddenFields.Some?) ==> hidden == []
  {
    if doc.Some? && tablePath in doc.value.tables then doc.value.tables[tablePath].hiddenFields.GetOr([]) else []
  }

  function NotHiddenBy(hidden: seq<string>): ColumnConfig -> bool {
    (c: ColumnConfig) => c.name !in hidden
  }

  /** The columns sorted by index. */
  function ByIndex(columns: Record<ColumnConfig>): (sorted: seq<ColumnConfig>)
    ensures multiset(sorted) == multiset(ValuesOf(columns))
    ensures SortedBy(sorted, IndexOf, IntLessEq)
  {
    IndexOrderIsTotal();
    SortBy(ValuesOf(columns), IndexOf, IntLessEq)
  }

  /** The sort is stable: columns that share an index keep the order of `Object.values`. */
  lemma ByIndexStable(columns: Record<ColumnConfig>, i: int)
    ensures FilterBy(ByIndex(columns), KeyIs(IndexOf, i)) == FilterBy(ValuesOf(columns), KeyIs(IndexOf, i))
  {
    IndexOrderIsTotal();
    SortStableKey(ValuesOf(columns), IndexOf, IntLessEq, i);
  }

  /**
   * `fields`: the columns sorted by index, without those whose name the
   * user hid; each remaining column kept as often as it occurs.
   */
  function FormFields(columns: Record<ColumnConfig>, hidden: seq<string>): (fields: seq<ColumnConfig>)
    ensures forall c :: multiset(fields)[c] == if c.name in hidden then 0 else multiset(ValuesOf(columns))[c]
    ensures SortedBy(fields, IndexOf, IntLessEq)
  {
    var sorted := ByIndex(columns);
    FilterKeepsSorted(sorted, NotHiddenBy(hidden), IndexOf, IntLessEq);
    FilterCounts(sorted, NotHiddenBy(hidden));
    FilterBy(sorted, NotHiddenBy(hidden))
  }

  /**
   * The form lists exactly the columns the user did not hide, in
   * non-decreasing index order.
   */
  lemma FormFieldsSpec(columns: Record<ColumnConfig>, hidden: seq<string>)
    ensures var fields := FormFields(columns, hidden);
      && (forall c :: c in fields <==> c in ValuesOf(columns) && c.name !in hidden)
      && (forall i, j :: 0 <= i < j < |fields| ==> fields[i].index <= fields[j].index)
  {
    var fields := FormFields(columns, hidden);
    forall c ensures c in fields <==> c in ValuesOf(columns) && c.name !in hidden {
      assert c in fields <==> multiset(fields)[c] > 0;
      assert c in ValuesOf(columns) <==> multiset(ValuesOf(columns))[c] > 0;
    }
    forall i, j | 0 <= i < j < |fields| ensures fields[i].index <= fields[j].index {
      assert IntLessEq(IndexOf(fields[i]), IndexOf(fields[j]));
    }
  }

  // ---------------------------------------------------------------------
  // Default values
  // ---------------------------------------------------------------------

  /** Fields that share an index appear in the order of `Object.values`, hidden ones left out. */
  lemma FormFieldsStable(columns: Record<ColumnConfig>, hidden: seq<string>, i: int)
    ensures FilterBy(FormFields(columns, hidden), KeyIs(IndexOf, i))
         == FilterBy(FilterBy(ValuesOf(columns), NotHiddenBy(hidden)), KeyIs(IndexOf, i))
  {
    FilterCommutes(ByIndex(columns), NotHiddenBy(hidden), KeyIs(IndexOf, i));
    ByIndexStable(columns, i);
    FilterCommutes(ValuesOf(columns), KeyIs(IndexOf, i), NotHiddenBy(hidden));
  }

  /**
   * `initialValues`: each field's key maps to the initial value of its
   * type; `initialValue` stands for the field registry's `initialValue`
   * entry, which is not part of this model.
   */
  function InitialValues(fields: seq<ColumnConfig>, initialValue: string -> Value): (init: Fields)
    ensures forall k :: k in init <==> exists f :: f in fields && f.key == k
    decreases |fields|
  {
    if fields == [] then map[]
    else
      var n := |fields| - 1;
      var rest := InitialValues(fields[..n], initialValue);
      assert forall f :: f in fields <==> f in fields[..n] || f == fields[n] by {
        assert fields == fields[..n] + [fields[n]];
      }
      rest[fields[n].key := initialValue(fields[n].fieldType)]
  }

  /** A key's initial value is that of the last field with the key, as each spread overrides the one before. */
  lemma {:induction false} InitialValuesLastWins(fields: seq<ColumnConfig>, initialValue: string -> Value, i: nat)
    requires i < |fields| && forall j :: i < j < |fields| ==> fields[j].key != fields[i].key
    ensures InitialValues(fields, initialValue)[fields[i].key] == initialValue(fields[i].fieldType)
    decreases |fields|
  {
    var n := |fields| - 1;
    var rest := InitialValues(fields[..n], initialValue);
    assert InitialValues(fields, initialValue) == rest[fields[n].key := initialValue(fields[n].fieldType)];
    if i < n {
      var prefix := fields[..n];
      assert prefix[i] == fields[i];
      assert forall j :: i < j < |prefix| ==> prefix[j] == fields[j];
      InitialValuesLastWins(prefix, initialValue, i);
      assert fields[n].key != fields[i].key;
    }
  }

  /** The row's values without `ref`, each sanitised. */
  function RowValues(values: Fields, sanitize: Value -> Value): (row: Fields)
    ensures forall k :: k in row <==> k in values && k != "ref"
    ensures forall k :: k in row ==> row[k] == sanitize(values[k])
  {
    map k | k in values && k != "ref" :: sanitize(values[k])
  }

  /**
   * `defaultValues`: the initial values overlaid by the row's values
   * other than `ref`, so that a value the row has wins. `sanitize` stands
   * for `sanitizeFirestoreRefs`, applied value by value.
   */
  function DefaultValues(fields: seq<ColumnConfig>, initialValue: string -> Value, values: Fields, sanitize: Value -> Value): (d: Fields)
    ensures forall k :: k in d <==> (exists f :: f in fields && f.key == k) || (k in values && k != "ref")
    ensures forall k :: k in values && k != "ref" ==> d[k] == sanitize(values[k])
    ensures forall k :: k in d && (k !in values || k == "ref") ==> d[k] == InitialValues(fields, initialValue)[k]
  {
    InitialValues(fields, initialValue) + RowValues(values, sanitize)
  }

  // ---------------------------------------------------------------------
  // Rendering
  // ---------------------------------------------------------------------

  /** The type a field is rendered as: `config.renderFieldType` when set, its own type otherwise. */
  function RenderType(c: ColumnConfig): (t: string)
    ensures c.renderFieldType.Some? && c.renderFieldType.value != "" ==> t == c.renderFieldType.value
    ensures c.renderFieldType.None? || c.renderFieldType.value == "" ==> t == c.fieldType
  {
    if c.renderFieldType.Some? && c.renderFieldType.value != "" then c.renderFieldType.value else c.fieldType
  }

  /** A rendered field: its name, type, label text, and whether it is disabled. */
  datatype FieldView = FieldView(name: string, fieldType: string, title: string, disabled: bool)

  function ViewOf(c: ColumnConfig): FieldView {
    FieldView(c.key, c.fieldType, c.name, c.editable == Some(false))
  }

  /** The field has a side drawer component for its render type. */
  function Renders(hasComponent: string -> bool): ColumnConfig -> bool {
    c => hasComponent(RenderType(c))
  }

  /**
   * The rendered fields: a field whose render type has no side drawer
   * component is skipped; the others are shown in order, disabled exactly
   * when `editable` is `false`. `hasComponent` stands for the field
   * registry's lookup.
   */
  function RenderedFields(fields: seq<ColumnConfig>, hasComponent: string -> bool): (views: seq<FieldView>)
    ensures |views| == |FilterBy(fields, Renders(hasComponent))|
    ensures forall i :: 0 <= i < |views| ==> views[i] == ViewOf(FilterBy(fields, Renders(hasComponent))[i])
    ensures |views| <= |fields|
    ensures forall c :: c in fields && hasComponent(RenderType(c)) ==> ViewOf(c) in views
    ensures forall v :: v in views ==>
      exists c :: (c in fields && hasComponent(RenderType(c))
        && v.name == c.key && v.fieldType == c.fieldType && v.title == c.name
        && (v.disabled <==> c.editable == Some(false)))
  {
    var shown := FilterBy(fields, Renders(hasComponent));
    var views := seq(|shown|, i requires 0 <= i < |shown| => ViewOf(shown[i]));
    assert forall c :: c in shown ==> ViewOf(c) in views by {
      forall c | c in shown ensures ViewOf(c) in views {
        var i :| 0 <= i < |shown| && shown[i] == c;
        assert views[i] == ViewOf(c);
      }
    }
    assert forall i :: 0 <= i < |views| ==> views[i] == ViewOf(shown[i]) && shown[i] in shown;
    views
  }

  /** The debug text: `ref?.path ?? id ?? "No ref"`. */
  function DebugText(refPath: Option<string>, id: Option<string>): (text: string)
    ensures refPath.Some? ==> text == refPath.value
    ensures refPath.None? && id.Some? ==> text == id.value
    ensures refPath.None? && id.None? ==> text == "No ref"
  {
    refPath.GetOr(id.GetOr("No ref"))
  }
}
