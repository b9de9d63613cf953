/**
 * The entities the table layer passes around: rows and their references,
 * column configurations, filters, the table schema and settings documents,
 * and the per-user settings document.
 */
module TableTypes {
  import opened Values
  import opened Records

  /** The fields of a row document, by name. */
  type Fields = map<string, Value>

  /** `_rowy_ref`: the document's full path and its id. */
  datatype RowRef = RowRef(path: string, id: string)

  /** A table row: its reference and its fields (any `_rowy_ref` field aside). */
  datatype Row = Row(ref: RowRef, fields: Fields)

  /**
   * A column of the table schema. Optional booleans that the source tests
   * for truthiness (`hidden`, `fixed`) are plain `bool`s, absent meaning
   * `false`; those it compares with `=== false` or `!== false` (`editable`,
   * `resizable`) keep their absence. `renderFieldType` is
   * `config.renderFieldType`.
   */
  datatype ColumnConfig = ColumnConfig(
    key: string,
    fieldName: string,
    name: string,
    fieldType: string,
    index: int,
    width: Option<int>,
    hidden: bool,
    fixed: bool,
    editable: Option<bool>,
    resizable: Option<bool>,
    renderFieldType: Option<string>)

  /** One filter query: a column key, an operator and the value to compare with. */
  datatype Filter = Filter(key: string, operator: string, value: Value)

  /** A sort order on one column. */
  datatype Sort = Sort(key: string, descending: bool)

  /** A filter join operator as the table state holds it. */
  datatype JoinOperator = And | Or

  /**
   * The table schema document. `columns` is the columns object keyed by
   * column key (absent when the document has none); `filters` is absent
   * when the stored value is not an array.
   */
  datatype TableSchema = TableSchema(
    columns: Option<Record<ColumnConfig>>,
    filters: Option<seq<Filter>>,
    filtersOverridable: bool,
    joinOperator: Option<string>)

  /** A table's entry in the project settings document. */
  datatype TableSettings = TableSettings(
    id: string,
    collection: string,
    name: string,
    roles: seq<string>,
    section: Option<string>,
    description: string,
    isCollectionGroup: bool,
    audit: bool)

  /**
   * The `filters` a user stored for one table: missing, explicitly `null`,
   * or an array.
   */
  datatype StoredFilters = Absent | NullFilters | Present(filters: seq<Filter>)

  /** A user's settings for one table. */
  datatype UserTableSettings = UserTableSettings(
    filters: StoredFilters,
    joinOperator: Option<string>,
    hiddenFields: Option<seq<string>>)

  /**
   * The user settings document: `favoriteTables` is absent when the stored
   * value is not an array; `tables` maps table ids to per-table settings.
   */
  datatype UserSettings = UserSettings(
    favoriteTables: Option<seq<string>>,
    tables: map<string, UserTableSettings>)
}
