/**
 * The filter logic of the table toolbar (`Filters.tsx`): whether Apply is
 * disabled, which stored filters and join operator take effect, the sort
 * reset that comes with applying filters, the "overridden" badge, the
 * initial tab, and what the two save paths write.
 */
module Filters {
  import opened Values
  import opened TableTypes

  // ---------------------------------------------------------------------
  // The Apply button
  // ---------------------------------------------------------------------

  /**
   * A query value that blocks Apply: lodash-empty and neither a Date, a
   * boolean nor a number.
   */
  predicate Blank(v: Value) {
    IsEmpty(v) && !v.Date? && !v.Bool? && !v.Number?
  }

  /** Exactly the nullish values and the empty string, array and object are blank. */
  lemma BlankValues(v: Value)
    ensures Blank(v) <==> v == Undefined || v == Null || v == Str("") || v == Arr([]) || v == Obj(map[])
  {
  }

  /** `0`, `false` and dates never disable Apply; `""` does. */
  lemma ZeroFalseAndDatesAreNotBlank(millis: int)
    ensures !Blank(Number(0.0)) && !Blank(Bool(false)) && !Blank(Date(millis))
    ensures Blank(Str(""))
  {
  }

  /** `shouldDisableApplyButton(queries)`. */
  method ShouldDisableApplyButton(queries: seq<Filter>) returns (disable: bool)
    ensures disable <==> |queries| == 0 || exists i :: 0 <= i < |queries| && Blank(queries[i].value)
  {
    disable := |queries| == 0;
    for i := 0 to |queries|
      invariant disable <==> |queries| == 0 || exists j :: 0 <= j < i && Blank(queries[j].value)
    {
      disable := disable || Blank(queries[i].value);
    }
  }

  // ---------------------------------------------------------------------
  // Which filters take effect
  // ---------------------------------------------------------------------

  /**
   * `tableId ? userSettings.tables?.[tableId]?.filters : undefined`: the
   * stored entry's filters, and none for an empty id or a missing entry.
   */
  function UserFilters(settings: UserSettings, tableId: string): (user: StoredFilters)
    ensures tableId != "" && tableId in settings.tables ==> user == settings.tables[tableId].filters
    ensures tableId == "" || tableId !in settings.tables ==> user == Absent
  {
    if tableId != "" && tableId in settings.tables then settings.tables[tableId].filters else Absent
  }

  /**
   * `userSettings.tables?.[tableId]?.joinOperator`, read without the
   * `tableId` test: an entry stored under the empty id is read too.
   */
  function UserJoinOperator(settings: UserSettings, tableId: string): (op: Option<string>)
    ensures tableId in settings.tables ==> op == settings.tables[tableId].joinOperator
    ensures tableId !in settings.tables ==> op == None
  {
    if tableId in settings.tables then settings.tables[tableId].joinOperator else None
  }

  predicate HasTableFilters(schema: TableSchema) {
    schema.filters.Some? && |schema.filters.value| > 0
  }

  predicate HasUserFilters(user: StoredFilters) {
    user.Present? && |user.filters| > 0
  }

  /** The user's filters win: the table lets users override and the user stored filters or `null`. */
  predicate UserOverrides(schema: TableSchema, user: StoredFilters) {
    schema.filtersOverridable && (HasUserFilters(user) || user.NullFilters?)
  }

  /** The table's filters take effect. */
  predicate TableWins(schema: TableSchema, user: StoredFilters) {
    !UserOverrides(schema, user) && HasTableFilters(schema)
  }

  /** The user's filters take effect, by override or because the table has none. */
  predicate UserWins(schema: TableSchema, user: StoredFilters) {
    UserOverrides(schema, user) || (!HasTableFilters(schema) && HasUserFilters(user))
  }

  /** The filters the user stored, `[]` for `null` or none. */
  function StoredOrEmpty(user: StoredFilters): seq<Filter> {
    if user.Present? then user.filters else []
  }

  /**
   * `filtersToApply` of the resolution effect: the user's filters (`[]` for
   * `null`) when they override, else the table's when it has some, else the
   * user's when they have some, else none. The result is empty exactly when
   * an overriding user stored `null` or neither side has filters.
   */
  function EffectiveFilters(schema: TableSchema, user: StoredFilters): (r: seq<Filter>)
    ensures UserWins(schema, user) ==> r == StoredOrEmpty(user)
    ensures TableWins(schema, user) ==> r == schema.filters.value
    ensures r == [] <==> (UserOverrides(schema, user) && user.NullFilters?) || (!HasTableFilters(schema) && !HasUserFilters(user))
  {
    if UserOverrides(schema, user) then StoredOrEmpty(user)
    else if HasTableFilters(schema) then schema.filters.value
    else if HasUserFilters(user) then user.filters
    else []
  }

  /** `op === "AND" ? "AND" : "OR"`: anything but `"AND"`, absence included, is OR. */
  function ToJoin(op: Option<string>): (j: JoinOperator)
    ensures j == And <==> op == Some("AND")
  {
    if op == Some("AND") then And else Or
  }

  /**
   * The join-operator effect: the user's stored operator when the user's
   * filters take effect, the table's when the table's do, and no change
   * (`None`) when neither side has filters in force.
   */
  function EffectiveJoin(schema: TableSchema, user: StoredFilters, userOp: Option<string>): (j: Option<JoinOperator>)
    ensures UserWins(schema, user) ==> j == Some(ToJoin(userOp))
    ensures TableWins(schema, user) ==> j == Some(ToJoin(schema.joinOperator))
    ensures j.None? <==> !UserWins(schema, user) && !TableWins(schema, user)
  {
    if UserOverrides(schema, user) then Some(ToJoin(userOp))
    else if HasTableFilters(schema) then Some(ToJoin(schema.joinOperator))
    else if HasUserFilters(user) then Some(ToJoin(userOp))
    else None
  }

  /**
   * The three sources are exclusive, and the join operator comes from the
   * same side as the filters: it is left unchanged exactly when no filters
   * apply and no overriding `null` is stored.
   */
  lemma JoinFollowsFilters(schema: TableSchema, user: StoredFilters, userOp: Option<string>)
    ensures !(UserWins(schema, user) && TableWins(schema, user))
    ensures EffectiveJoin(schema, user, userOp).None? <==>
      EffectiveFilters(schema, user) == [] && !(UserOverrides(schema, user) && user.NullFilters?)
  {
  }

  /**
   * The toolbar's filter state: the filters applied to the local view, the
   * sorts, and the join operator.
   */
  class FilterState {
    var localFilters: seq<Filter>
    var sorts: seq<Sort>
    var join: JoinOperator

    /**
     * The atoms' initial state. The sorts start as `tableOrdersAtom` does,
     * taken to be the sorts atom; the join atom's initial value is given.
     */
    constructor (initialJoin: JoinOperator)
      ensures localFilters == [] && sorts == [] && join == initialJoin
    {
      localFilters := [];
      sorts := [];
      join := initialJoin;
    }

    /**
     * The resolution effect: the effective filters are applied, and the
     * sorts are cleared exactly when they are non-empty.
     */
    method ResolveFilters(schema: TableSchema, user: StoredFilters)
      modifies this
      ensures localFilters == EffectiveFilters(schema, user)
      ensures sorts == if |localFilters| > 0 then [] else old(sorts)
      ensures join == old(join)
    {
      var filtersToApply: seq<Filter> := [];
      if UserOverrides(schema, user) {
        filtersToApply := StoredOrEmpty(user);
      } else if HasTableFilters(schema) {
        filtersToApply := schema.filters.value;
      } else if HasUserFilters(user) {
        filtersToApply := user.filters;
      }
      localFilters := filtersToApply;
      if |filtersToApply| > 0 {
        sorts := [];
      }
    }

    /** The join effect: the join operator changes only when some side's filters are in force. */
    method ResolveJoin(schema: TableSchema, user: StoredFilters, userOp: Option<string>)
      modifies this
      ensures join == EffectiveJoin(schema, user, userOp).GetOr(old(join))
      ensures localFilters == old(localFilters) && sorts == old(sorts)
    {
      if UserOverrides(schema, user) {
        join := ToJoin(userOp);
      } else if HasTableFilters(schema) {
        join := ToJoin(schema.joinOperator);
      } else if HasUserFilters(user) {
        join := ToJoin(userOp);
      }
    }
  }

  // ---------------------------------------------------------------------
  // Badge and tab
  // ---------------------------------------------------------------------

  /**
   * `tableFiltersOverridden`: on an overridable table, exactly when the
   * table has filters and the user's override applies; on any other table
   * only for an ADMIN, and only while the table's filters are in force.
   */
  function TableFiltersOverridden(schema: TableSchema, user: StoredFilters, isAdmin: bool): (shown: bool)
    ensures schema.filtersOverridable ==> (shown <==> HasTableFilters(schema) && UserOverrides(schema, user))
    ensures !schema.filtersOverridable ==>
      (shown <==> isAdmin && TableWins(schema, user) && (HasUserFilters(user) || user.NullFilters?))
  {
    (schema.filtersOverridable || isAdmin) && (HasUserFilters(user) || user.NullFilters?) && HasTableFilters(schema)
  }

  /**
   * On an overridable table the badge is accurate: the user's filters are in
   * force. On a table that is not overridable the badge can still show for
   * an ADMIN, while the table's filters are the ones applied.
   */
  lemma OverriddenBadge(schema: TableSchema, user: StoredFilters, isAdmin: bool)
    requires TableFiltersOverridden(schema, user, isAdmin)
    ensures schema.filtersOverridable ==> EffectiveFilters(schema, user) == StoredOrEmpty(user)
    ensures !schema.filtersOverridable ==> EffectiveFilters(schema, user) == schema.filters.value
  {
  }

  datatype Tab = UserTab | TableTab

  /** The tab the popover opens on. */
  function InitialTab(schema: TableSchema, user: StoredFilters, isAdmin: bool, hasDefaultQuery: bool): (t: Tab)
    ensures t == TableTab <==> HasTableFilters(schema) && !TableFiltersOverridden(schema, user, isAdmin) && !hasDefaultQuery
    ensures t == TableTab ==> EffectiveFilters(schema, user) == schema.filters.value
  {
    if HasTableFilters(schema) && !TableFiltersOverridden(schema, user, isAdmin) && !hasDefaultQuery then TableTab else UserTab
  }

  // ---------------------------------------------------------------------
  // Save paths
  // ---------------------------------------------------------------------

  /** The analytics events of the two save paths. */
  const TableFilterEvent := "table_filter"
  const LocalFilterEvent := "local_filter"

  /** What a save does, in order. */
  datatype Effect =
    | LogEvent(name: string)
    | UpdateTableSchema(filters: seq<Filter>, filtersOverridable: bool, joinOperator: JoinOperator)
    | UpdateUserSettings(tableId: string, userFilters: StoredFilters, userJoin: JoinOperator)

  /**
   * `setTableFilters(filters, op = "AND")`: the event is logged; when the
   * schema can be written, the filters, the current override checkbox and
   * the operator are written to it.
   */
  function SetTableFilters(filters: seq<Filter>, op: Option<JoinOperator>, canOverride: bool, canUpdate: bool): (effects: seq<Effect>)
    ensures |effects| >= 1 && effects[0] == LogEvent(TableFilterEvent)
    ensures |effects| == 2 <==> canUpdate
    ensures canUpdate ==> effects[1] == UpdateTableSchema(filters, canOverride, op.GetOr(And))
  {
    [LogEvent(TableFilterEvent)] + if canUpdate then [UpdateTableSchema(filters, canOverride, op.GetOr(And))] else []
  }

  /**
   * `setUserFilters(filters, op = "AND")` as written: the event is logged,
   * and the user settings are written only when they can be and `filters`
   * is an array, so `null` writes nothing.
   */
  function SetUserFilters(filters: Option<seq<Filter>>, op: Option<JoinOperator>, tableId: string, canUpdate: bool): (effects: seq<Effect>)
    ensures |effects| >= 1 && effects[0] == LogEvent(LocalFilterEvent)
    ensures |effects| == 2 <==> canUpdate && filters.Some?
    ensures |effects| == 2 ==> effects[1] == UpdateUserSettings(tableId, Present(filters.value), op.GetOr(And))
  {
    [LogEvent(LocalFilterEvent)] +
      if canUpdate && filters.Some? then [UpdateUserSettings(tableId, Present(filters.value), op.GetOr(And))] else []
  }

  /**
   * `setUserFilters` as its comment and the "ignore table filter" button
   * intend it: `null` is stored as `null`, which overrides the table's
   * filters.
   */
  function SetUserFiltersStoringNull(filters: Option<seq<Filter>>, op: Option<JoinOperator>, tableId: string, canUpdate: bool): (effects: seq<Effect>)
    ensures |effects| >= 1 && effects[0] == LogEvent(LocalFilterEvent)
    ensures |effects| == 2 <==> canUpdate
    ensures canUpdate ==> effects[1] == UpdateUserSettings(tableId, if filters.Some? then Present(filters.value) else NullFilters, op.GetOr(And))
  {
    [LogEvent(LocalFilterEvent)] +
      if canUpdate then [UpdateUserSettings(tableId, if filters.Some? then Present(filters.value) else NullFilters, op.GetOr(And))] else []
  }

  /** The schema after a save's writes (a merge of the written fields). */
  function ApplyToSchema(schema: TableSchema, effects: seq<Effect>): TableSchema
    decreases effects
  {
    if effects == [] then schema
    else
      var s := effects[0];
      var next := if s.UpdateTableSchema? then
          schema.(filters := Some(s.filters), filtersOverridable := s.filtersOverridable,
                  joinOperator := Some(if s.joinOperator == And then "AND" else "OR"))
        else schema;
      ApplyToSchema(next, effects[1..])
  }

  /**
   * The user settings after a save's writes: `{tables: {[id]: {filters,
   * joinOperator}}}` merged in, keeping the table's other settings.
   */
  function ApplyToUserSettings(settings: UserSettings, effects: seq<Effect>): UserSettings
    decreases effects
  {
    if effects == [] then settings
    else
      var s := effects[0];
      var next := if s.UpdateUserSettings? then
          var hidden := if s.tableId in settings.tables then settings.tables[s.tableId].hiddenFields else None;
          settings.(tables := settings.tables[s.tableId :=
            UserTableSettings(s.userFilters, Some(if s.userJoin == And then "AND" else "OR"), hidden)])
        else settings;
      ApplyToUserSettings(next, effects[1..])
  }

  /**
   * Round trip of the table save: once written, non-empty table filters
   * take effect with the chosen operator unless a user override applies.
   */
  lemma TableSaveTakesEffect(schema: TableSchema, filters: seq<Filter>, op: Option<JoinOperator>, canOverride: bool, user: StoredFilters, userOp: Option<string>)
    requires |filters| > 0
    ensures var schema' := ApplyToSchema(schema, SetTableFilters(filters, op, canOverride, true));
      && schema'.filtersOverridable == canOverride
      && (!UserOverrides(schema', user) ==>
            EffectiveFilters(schema', user) == filters
            && EffectiveJoin(schema', user, userOp) == Some(op.GetOr(And)))
  {
    var effects := SetTableFilters(filters, op, canOverride, true);
    var j := op.GetOr(And);
    var next := schema.(filters := Some(filters), filtersOverridable := canOverride,
                        joinOperator := Some(if j == And then "AND" else "OR"));
    assert effects == [LogEvent(TableFilterEvent), UpdateTableSchema(filters, canOverride, j)];
    assert effects[1..][1..] == [];
    assert ApplyToSchema(schema, effects) == ApplyToSchema(schema, effects[1..]) == ApplyToSchema(next, []);
    assert ToJoin(next.joinOperator) == j;
  }

  /**
   * Round trip of the user save: once written under a non-empty table id,
   * the filters read back as stored, and on an overridable table
   * non-empty ones take effect with the chosen operator.
   */
  lemma UserSaveTakesEffect(settings: UserSettings, tableId: string, filters: seq<Filter>, op: Option<JoinOperator>, schema: TableSchema)
    requires tableId != ""
    ensures var settings' := ApplyToUserSettings(settings, SetUserFilters(Some(filters), op, tableId, true));
      var user := UserFilters(settings', tableId);
      && user == Present(filters)
      && (schema.filtersOverridable && |filters| > 0 ==>
            EffectiveFilters(schema, user) == filters
            && EffectiveJoin(schema, user, UserJoinOperator(settings', tableId)) == Some(op.GetOr(And)))
  {
    var effects := SetUserFilters(Some(filters), op, tableId, true);
    var j := op.GetOr(And);
    var hidden := if tableId in settings.tables then settings.tables[tableId].hiddenFields else None;
    var next := settings.(tables := settings.tables[tableId :=
      UserTableSettings(Present(filters), Some(if j == And then "AND" else "OR"), hidden)]);
    assert effects == [LogEvent(LocalFilterEvent), UpdateUserSettings(tableId, Present(filters), j)];
    assert effects[1..][1..] == [];
    assert ApplyToUserSettings(settings, effects) == ApplyToUserSettings(settings, effects[1..]) == ApplyToUserSettings(next, []);
    assert ToJoin(UserJoinOperator(next, tableId)) == j;
  }

  /**
   * As written, "Clear All (ignore table filter)" writes nothing: a user
   * with no stored filters on an overridable table with filters still gets
   * the table's filters.
   */
  lemma ClearWithOverrideKeepsTableFilters(settings: UserSettings, tableId: string, op: Option<JoinOperator>, schema: TableSchema)
    requires schema.filtersOverridable && HasTableFilters(schema)
    requires UserFilters(settings, tableId) == Absent
    ensures var settings' := ApplyToUserSettings(settings, SetUserFilters(None, op, tableId, true));
      && settings' == settings
      && EffectiveFilters(schema, UserFilters(settings', tableId)) == schema.filters.value
      && EffectiveFilters(schema, UserFilters(settings', tableId)) != []
  {
    assert SetUserFilters(None, op, tableId, true)[1..] == [];
  }

  /** With `null` stored, the same button suppresses the table's filters on an overridable table. */
  lemma ClearWithOverrideStoringNull(settings: UserSettings, tableId: string, op: Option<JoinOperator>, schema: TableSchema)
    requires tableId != "" && schema.filtersOverridable
    ensures var settings' := ApplyToUserSettings(settings, SetUserFiltersStoringNull(None, op, tableId, true));
      && UserFilters(settings', tableId) == NullFilters
      && EffectiveFilters(schema, UserFilters(settings', tableId)) == []
  {
    var effects := SetUserFiltersStoringNull(None, op, tableId, true);
    var j := op.GetOr(And);
    var hidden := if tableId in settings.tables then settings.tables[tableId].hiddenFields else None;
    var next := settings.(tables := settings.tables[tableId :=
      UserTableSettings(NullFilters, Some(if j == And then "AND" else "OR"), hidden)]);
    assert effects == [LogEvent(LocalFilterEvent), UpdateUserSettings(tableId, NullFilters, j)];
    assert effects[1..][1..] == [];
    assert ApplyToUserSettings(settings, effects) == ApplyToUserSettings(settings, effects[1..]) == ApplyToUserSettings(next, []);
  }
}
