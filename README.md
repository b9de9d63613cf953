# Rowy table state, modelled in Dafny

Rowy is a spreadsheet-like web interface over Firestore collections. This
project models the client-side layer that turns stored documents into what a
table shows, and the edits the table writes back:

- the local row buffer and its reducer (`set`, `add`, `update` with deleted
  fields, `delete`), and the merged view of the local and the listener's
  rows, one row per document path in path order (`src/atoms/tableScope/table.ts`);
- the ordered column list and the columns object built back from it;
- the toolbar filters: when Apply is disabled, which of the table's and the
  user's stored filters and join operator take effect, the sort reset, the
  "overridden" badge, the initial tab and the two save paths (`Filters.tsx`);
- the table's column definitions, column visibility and pinning, the
  last-frozen column, the infinite-scroll rule and the header drop (`Table.tsx`);
- the audit hook and the request it sends (`useAuditChange.ts`);
- the tables a user may see, their sections, the union of their roles, the
  user stamp and the cell update (`RowyContext.tsx`);
- the home page's search callback, favourites, sections and links (`Home.tsx`);
- the navigation drawer's sections and width (`NavDrawer.tsx`);
- the side drawer form's fields, default values and rendered fields
  (`SideDrawer/Form/index.tsx`).

The shared modules model the JavaScript and lodash behaviour the code
relies on. `Strings` covers `split`, `toLowerCase`, `includes`, `trim`,
global `replace` and string `<` (on code points, see Left out). `Collections` covers the stable `sortBy`
and `orderBy`, `uniqBy`, `find`, `filter` and `new Set`. `Records` models
JavaScript objects whose key order shows, as ordered entry lists: assignment,
spread and `groupBy`. `Values` holds the document values, lodash `isEmpty`
and truthiness. `TableTypes` holds the entities.

React state is modelled in one of two ways:
- State a hook or atom changes in place is a class with `modifies` clauses:
  - `TableAtoms.LocalRowsAtom`, the local row buffer;
  - `Filters.FilterState`, the applied filters, sorts and join operator;
  - `TableView.TablePage`, the page counter;
  - `AuditChange.AuditChangeAtom`, the audit function;
  - `RowyContext.TableDirectory`, the visible tables and sections.
- Derived values (`useMemo`, derived atoms) are functions.

Each derived value has lemmas that relate it to a reference property: a
permutation, a sort order, membership in both directions, a round trip, or
a value read back after a write.

Three behaviours of the code are easy to misread, and the model keeps them
as written:
- RowyContext.tsx:115 tests the section for truthiness before trimming it,
  so a whitespace-only section becomes `""`, not `"OTHER"`
  (`RowyContext.NormalSection`).
- Filters.tsx:95-97 reads the user's filters only for a non-empty `tableId`,
  while the join effect at Filters.tsx:194-205 reads the user's join
  operator with no such test (`Filters.UserJoinOperator`).
- The comment at Filters.tsx:228-229 and the `null` test at Filters.tsx:122
  expect "Clear All (ignore table filter)" to store `null`, but the guard at
  Filters.tsx:235 stores nothing. See Findings.

## Model

| member | source | states |
|---|---|---|
| Strings.Split | src/atoms/tableScope/table.ts:110 | `split` gives at least one part; no part holds the separator; joining the parts gives back the string; there is one part exactly when the separator does not occur |
| Strings.LastPieceIsFinalSegment | src/atoms/tableScope/table.ts:110 | `split(sep).pop()` is the suffix after the last separator: it holds no separator, and it is the whole string exactly when there is no separator, otherwise it follows a separator |
| Strings.ToLower | src/pages/Home.tsx:57-60 | lowercasing keeps the length and maps every character through the letter case map |
| Strings.Trim | src/contexts/RowyContext.tsx:115 | `trim` leaves a substring with only whitespace around it, starting and ending with non-whitespace; the result is empty exactly when the string is all whitespace |
| Strings.TrimUnpadded | src/contexts/RowyContext.tsx:115 | a string that neither starts nor ends with whitespace is its own trim |
| Strings.TrimIdempotent | src/contexts/RowyContext.tsx:115 | trimming a trimmed string changes nothing |
| Strings.ReplaceAll | src/pages/Home.tsx:155 | after replacing every `c` by a replacement without `c`, no `c` remains; a string without `c` is unchanged |
| Strings.ReplaceAllAppend | src/pages/Home.tsx:155 | global `replace` works part by part: replacing in a concatenation gives the concatenation of the replacements |
| Strings.ReplaceAllChar | src/pages/Home.tsx:155 | on one character, `c` becomes the replacement and any other character stays; with `ReplaceAllAppend` this fixes the result for every string |
| Strings.LessEqTotal | src/atoms/tableScope/table.ts:140-146 | any two strings are comparable, so sorting by path is defined for all rows |
| Strings.LessEqTransitive | src/atoms/tableScope/table.ts:140-146 | string order is transitive |
| Strings.LessEqAntisymmetric | src/atoms/tableScope/table.ts:140-146 | two strings ordered both ways are equal, so a path order with distinct paths is strict |
| Strings.LessEqIsTotalPreorder | src/contexts/RowyContext.tsx:107 | string comparison is a total preorder, which lodash `sortBy` by `name` or by path requires |
| Collections.FindBy | src/pages/Home.tsx:69 | `find` returns an element with the key exactly when one exists, and it is the first element with the key |
| Collections.FindInConcat | src/atoms/tableScope/table.ts:141-143 | in the concatenation of local and listener rows, a path's first row comes from the local rows when they hold that path |
| Collections.UniqBy | src/atoms/tableScope/table.ts:141-144 | `uniqBy` keeps every key, keeps for each key its first element, leaves no repeated key and adds no element |
| Collections.SortBy | src/atoms/tableScope/table.ts:140-146 | `sortBy` returns a permutation of its input, sorted by the key, with the same keys |
| Collections.SortSortedIsIdentity | src/atoms/tableScope/table.ts:46 | sorting a list that is already in key order returns it unchanged |
| Collections.InsertStable | src/atoms/tableScope/table.ts:46 | inserting an element puts it ahead of every element whose key ties with its key, and leaves the order of the tied elements alone |
| Collections.SortStable | src/atoms/tableScope/table.ts:46 | the sort is stable: taking out any class of elements whose keys all tie gives the same list before and after sorting |
| Collections.SortStableKey | src/contexts/RowyContext.tsx:107 | in particular, the elements with any one key come out in their input order |
| Collections.SortKeepsDistinct | src/atoms/tableScope/table.ts:140-146 | sorting a list with distinct keys keeps them distinct and keeps each key's element |
| Collections.FilterBy | src/atoms/tableScope/table.ts:117-123 | `filter` keeps exactly the elements that pass, in their order (a subsequence of the input), never adds any, and returns the list unchanged when all pass |
| Collections.FilterCounts | src/atoms/tableScope/table.ts:117-123 | `filter` keeps each passing element as often as it occurs and drops every failing one |
| Collections.FilterKeepsSorted | src/components/SideDrawer/Form/index.tsx:29-31 | filtering a sorted list leaves it sorted |
| Collections.FilterAppend | src/pages/Home.tsx:160 | filtering a concatenation filters each part |
| Collections.FilterAgree | src/atoms/tableScope/table.ts:117-123 | two tests that agree on every element filter the list alike |
| Collections.FilterCommutes | src/components/SideDrawer/Form/index.tsx:29-31 | two filters applied in either order give the same list |
| Collections.FilterPermutes | src/contexts/RowyContext.tsx:107-112 | filtering permutations of each other gives permutations of each other |
| Collections.SubsequenceCounts | src/atoms/tableScope/table.ts:117-123 | a subsequence holds no element more often than the sequence it is taken from |
| Collections.FilterIsDetermined | src/atoms/tableScope/table.ts:117-123 | any subsequence of `s` that keeps each passing element as often as `s` has it, and no failing one, is `s.filter(p)`: order and counts pin the filter down |
| Collections.UniqByIdentity | src/contexts/RowyContext.tsx:127-129 | taking unique elements keeps every element and repeats none |
| Collections.Dedup | src/contexts/RowyContext.tsx:127-129 | `Array.from(new Set(s))` holds exactly the elements of `s`, each once |
| Collections.UniqByFromSnoc | src/atoms/tableScope/table.ts:141-144 | an element appended to the input is appended to the result exactly when its key is neither taken already nor in the input |
| Collections.DedupSnoc | src/contexts/RowyContext.tsx:127-129 | `Set` keeps insertion order: the empty list gives none, and an appended element is appended exactly when it is new; this fixes the result for every list |
| Records.KeysOfAt | src/atoms/tableScope/table.ts:54 | an object's i-th key is the key of its i-th entry |
| Records.Lookup | src/atoms/tableScope/table.ts:54 | a key has a value exactly when the object lists it |
| Records.Put | src/atoms/tableScope/table.ts:54 | `a[k] = v` makes `k` read `v` and leaves every other key's value alone; an existing key keeps its place and a new key goes last; no key is duplicated |
| Records.PutNewKeyAppends | src/atoms/tableScope/table.ts:54 | assigning a new key appends exactly one entry |
| Records.Assign | src/pages/Home.tsx:68-71 | `{...t, ...s}`: the keys of `s` take their values from `s`, the others keep theirs from `t`; the keys of `t` stay first, in order, followed by the keys of `s` that `t` lacks, in their order in `s` |
| Records.MapValues | src/pages/Home.tsx:68-71 | mapping the values keeps the keys and their order, and maps each key's value |
| Records.Members | src/contexts/RowyContext.tsx:118 | a key's group, the filter of the elements by key, is non-empty exactly when some element has that key |
| Records.GroupBy | src/contexts/RowyContext.tsx:118 | `groupBy` has one entry per key that occurs, none repeated, in the order the keys first occur; each group is exactly the elements with that key, in order |
| Records.GroupIntoOrder | src/contexts/RowyContext.tsx:118 | the grouping fold appends each key at its first occurrence, unless the groups so far have it |
| TableAtoms.UnsetPath | src/atoms/tableScope/table.ts:96-98 | `unset` along a path adds no key and changes no top-level key other than the path's first |
| TableAtoms.UnsetPathRemovesExactly | src/atoms/tableScope/table.ts:96-98 | after `unset` at `p`, nothing is found at `p` or below it, and any path that neither lies below `p` nor leads to it reads as before |
| TableAtoms.CastPath | src/atoms/tableScope/table.ts:97 | the path `unset` follows starts at the field itself or at the field's first dotted segment |
| TableAtoms.Unset | src/atoms/tableScope/table.ts:97 | `unset` removes a dot-free field or a field present under its literal name, adds no key, and keeps every key it does not touch |
| TableAtoms.UnsetAll | src/atoms/tableScope/table.ts:96-98 | the delete-fields loop adds no key |
| TableAtoms.UnsetAllEffect | src/atoms/tableScope/table.ts:96-98 | after the loop every listed dot-free field is gone, and every key that no listed field touches keeps its value |
| TableAtoms.DeepMergeIsFirestoreMerge | src/atoms/tableScope/table.ts:151-158 | the given deep merge behaves as a Firestore merge write: what the update sets replaces the old value unless both are objects |
| TableAtoms.IndexOfPath | src/atoms/tableScope/table.ts:91 | `findIndex` by path gives the first row with that path, and none exactly when no row has it |
| TableAtoms.IdFromPath | src/atoms/tableScope/table.ts:110 | the new row's id is the path's last segment, or the whole path when the path has no `/` or ends in `/` |
| TableAtoms.WithoutPath | src/atoms/tableScope/table.ts:117-123 | deleting one path removes every row with it and keeps every other row as often as it occurred, in its order |
| TableAtoms.WithoutPaths | src/atoms/tableScope/table.ts:117-123 | deleting several paths removes every row with one of them and keeps every other row as often as it occurred, in its order |
| TableAtoms.Reduce | src/atoms/tableScope/table.ts:79-126 | adding puts the new rows before the old ones, which stay in order; an update leaves a row with its path, one more only when the buffer had none; a delete leaves a subsequence of the rows with none of the deleted paths |
| TableAtoms.ReduceSetAdd | src/atoms/tableScope/table.ts:83-89 | `set` replaces the buffer; `add` puts the new row or rows first, in their order |
| TableAtoms.UpdateFound | src/atoms/tableScope/table.ts:90-102 | `update` of a path the buffer holds rewrites the fields of its first row only, keeping that row's reference, the length and every other row |
| TableAtoms.UpdateKeepsUntouchedFields | src/atoms/tableScope/table.ts:94-100 | with a Firestore merge, the update keeps every field that neither the partial row nor a deleted field touches, removes a deleted dot-free field the partial row does not set, and writes every non-object value of the partial row |
| TableAtoms.UpdateMissing | src/atoms/tableScope/table.ts:103-114 | `update` of an unknown path puts one new row first, made of the partial row under that path and its id |
| TableAtoms.DeleteRemovesPaths | src/atoms/tableScope/table.ts:116-124 | `delete` removes exactly the rows with the given paths, keeps the others in their order and as often as they occurred, and leaves a buffer without those paths unchanged |
| TableAtoms.DeleteFieldsThenMergeExample | src/atoms/tableScope/table.ts:90-101 | `{a: 0, b: 2, c: 3}` with `b` deleted and `{a: 1}` merged gives `{a: 1, c: 3}` |
| TableAtoms.UnsetPlainExample | src/atoms/tableScope/table.ts:96-98 | deleting `b` from `{a: 0, b: 2, c: 3}` leaves `{a: 0, c: 3}` |
| TableAtoms.MergeIntoExample | src/atoms/tableScope/table.ts:100 | merging `{a: 1}` into `{a: 0, c: 3}` gives `{a: 1, c: 3}` |
| TableAtoms.UpdateMergeExample | src/atoms/tableScope/table.ts:100 | merging `{a: 1}` into `{a: 0, b: 2}` keeps `b` |
| TableAtoms.LocalRowsAtom.constructor | src/atoms/tableScope/table.ts:131-134 | the buffer starts empty, with the given row update function |
| TableAtoms.LocalRowsAtom.Dispatch | src/atoms/tableScope/table.ts:79-126 | dispatching an action makes the buffer the reducer's result; the delete-fields loop computes the fold of `unset` |
| TableAtoms.MergedRows | src/atoms/tableScope/table.ts:139-147 | every merged row is a row of one of the buffers, and every path of either buffer is shown |
| TableAtoms.MergedRowsSorted | src/atoms/tableScope/table.ts:139-147 | the merged rows have pairwise distinct paths in ascending order, and every one comes from one of the buffers |
| TableAtoms.MergedRowsAt | src/atoms/tableScope/table.ts:139-147 | a path is in the merged rows exactly when a buffer has it, and its row is the local buffer's first when the local buffer has it, else the listener's first |
| TableAtoms.MergedRowsSpec | src/atoms/tableScope/table.ts:139-147 | the two lemmas above, for every path at once |
| TableAtoms.IndexOrderIsTotal | src/atoms/tableScope/table.ts:46 | the order on column indices is a total preorder |
| TableAtoms.OrderedColumns | src/atoms/tableScope/table.ts:43-47 | no columns gives `[]`; otherwise the result is a permutation of the schema's columns in non-decreasing index order |
| TableAtoms.OrderedColumnsStable | src/atoms/tableScope/table.ts:46 | columns that share an index keep the order of `Object.values` |
| TableAtoms.ColumnsRecord | src/atoms/tableScope/table.ts:49-56 | the columns object lists no key twice and has at most one entry per column |
| TableAtoms.ColumnsRecordKeys | src/atoms/tableScope/table.ts:49-56 | the columns object has exactly one entry per column key |
| TableAtoms.ColumnsRecordLastWins | src/atoms/tableScope/table.ts:49-56 | a key's entry is its last column, with `index` set to that column's array position |
| TableAtoms.ColumnsRecordDense | src/atoms/tableScope/table.ts:49-56 | with distinct keys the object lists the columns in order, indexed 0, 1, 2, … |
| TableAtoms.ColumnsRoundTrip | src/atoms/tableScope/table.ts:43-56 | ordering the columns object built from columns with distinct keys gives back those columns, each indexed by its position |
| TableAtoms.ReduceColumns | src/atoms/tableScope/table.ts:49-56 | the reduce loop builds the columns object; with distinct keys its values are the columns re-indexed in order |
| Filters.BlankValues | src/components/TableToolbar/Filters/Filters.tsx:50-53 | the values that block Apply are exactly the nullish values and the empty string, array and object |
| Filters.ZeroFalseAndDatesAreNotBlank | src/components/TableToolbar/Filters/Filters.tsx:50-53 | `0`, `false` and dates never block Apply; `""` does |
| Filters.ShouldDisableApplyButton | src/components/TableToolbar/Filters/Filters.tsx:44-57 | Apply is disabled exactly when there is no query or some query's value is blank |
| Filters.UserFilters | src/components/TableToolbar/Filters/Filters.tsx:95-97 | the user's filters are the stored entry's, and none when the table id is empty or has no entry |
| Filters.UserJoinOperator | src/components/TableToolbar/Filters/Filters.tsx:194-205 | the user's join operator is the stored entry's for any id, the empty one included, and none without an entry |
| Filters.EffectiveFilters | src/components/TableToolbar/Filters/Filters.tsx:118-128 | an override applies the user's filters (`[]` for `null`), otherwise the table's, otherwise the user's; the result is empty exactly when an overriding user stored `null` or neither side has filters |
| Filters.ToJoin | src/components/TableToolbar/Filters/Filters.tsx:197 | the operator is AND exactly when the stored string is `"AND"` |
| Filters.EffectiveJoin | src/components/TableToolbar/Filters/Filters.tsx:194-205 | the join operator comes from the user when the user's filters win, from the table when the table's win, and is unchanged exactly when neither applies |
| Filters.JoinFollowsFilters | src/components/TableToolbar/Filters/Filters.tsx:118-128 | the table and the user never both win, and the join operator is unchanged exactly when no filters apply and no overriding `null` is stored |
| Filters.FilterState.constructor | src/atoms/tableScope/table.ts:58-61 | the applied filters and sorts start empty. The sorts atom that Filters.tsx:35 and 72 import, `tableSortsAtom`, is not declared in table.ts, so it is taken to be `tableOrdersAtom`, the sorts atom declared there. The join operator starts at the join atom's initial value, which is given because its declaration is not part of this model |
| Filters.FilterState.ResolveFilters | src/components/TableToolbar/Filters/Filters.tsx:104-135 | the resolution effect applies the effective filters and clears the sorts exactly when those filters are non-empty |
| Filters.FilterState.ResolveJoin | src/components/TableToolbar/Filters/Filters.tsx:194-213 | the join effect sets the effective join operator and leaves it alone when none applies |
| Filters.TableFiltersOverridden | src/components/TableToolbar/Filters/Filters.tsx:153-156 | on an overridable table the badge shows exactly when the table has filters and the user's override applies; on another table it shows exactly for an admin who stored filters or `null`, while the table's filters apply |
| Filters.OverriddenBadge | src/components/TableToolbar/Filters/Filters.tsx:153-156 | on an overridable table the badge means the user's filters apply; on a non-overridable table an admin sees the badge while the table's filters apply |
| Filters.InitialTab | src/components/TableToolbar/Filters/Filters.tsx:162-166 | the popover opens on the table tab exactly when the table has filters, they are not overridden and no default query is given; the table's filters then apply |
| Filters.SetTableFilters | src/components/TableToolbar/Filters/Filters.tsx:216-227 | the save logs `table_filter` and writes the filters, the override checkbox and the operator (default AND) exactly when the schema can be written |
| Filters.SetUserFilters | src/components/TableToolbar/Filters/Filters.tsx:230-239 | the save logs `local_filter` and writes the user's filters and operator exactly when the settings can be written and `filters` is an array |
| Filters.SetUserFiltersStoringNull | src/components/TableToolbar/Filters/Filters.tsx:228-229 | the save as its comment intends it: `null` is written too, as `null` |
| Filters.TableSaveTakesEffect | src/components/TableToolbar/Filters/Filters.tsx:216-227 | once saved, non-empty table filters and their operator take effect unless a user override applies |
| Filters.UserSaveTakesEffect | src/components/TableToolbar/Filters/Filters.tsx:230-239 | once saved under a table id, the user's filters read back as written, and on an overridable table non-empty ones take effect with their operator |
| Filters.ClearWithOverrideKeepsTableFilters | src/components/TableToolbar/Filters/Filters.tsx:341-342 | as written, clearing with "ignore table filter" changes nothing, so the table's filters still apply |
| Filters.ClearWithOverrideStoringNull | src/components/TableToolbar/Filters/Filters.tsx:341-342 | with `null` stored, the same button makes no filters apply on an overridable table |
| TableView.GetRowId | src/components/Table/Table.tsx:49 | the row id is the path when the path is non-empty, and the reference's id otherwise |
| TableView.MergedRowIdsDistinct | src/components/Table/Table.tsx:123-129 | when every row has a path, the merged rows have distinct row ids |
| TableView.Accessors | src/components/Table/Table.tsx:83-92 | each column gets one accessor definition, in order |
| TableView.AccessorsMembers | src/components/Table/Table.tsx:83-92 | a column has an accessor definition exactly when it is listed, and every definition is a column's own |
| TableView.Columns | src/components/Table/Table.tsx:79-104 | one accessor per non-hidden ordered column, in the columns' order, with the field name as id, the config as meta, resizing unless `resizable` is false and the 80-pixel minimum; the actions column comes last, exactly when the user can add columns or edit cells |
| TableView.HideAll | src/components/Table/Table.tsx:109 | the reduce over hidden columns maps exactly those ids, each to `false` |
| TableView.ColumnVisibility | src/components/Table/Table.tsx:107-110 | no array gives `{}`; otherwise exactly the hidden columns are mapped to `false` |
| TableView.ColumnPinning | src/components/Table/Table.tsx:113-118 | a definition's id is pinned exactly when the definition is fixed and has an id |
| TableView.PinningKeepsOrder | src/components/Table/Table.tsx:113-118 | the pinned ids follow the columns' order |
| TableView.LastFrozen | src/components/Table/Table.tsx:119-120 | there is no last frozen column exactly when nothing is pinned |
| TableView.LastFrozenIsLastPinned | src/components/Table/Table.tsx:113-120 | the last frozen column is a pinned column after which none is pinned |
| TableView.TablePage.constructor | src/atoms/tableScope/table.ts:63 | the page counter starts at 0 |
| TableView.TablePage.FetchMoreOnBottomReached | src/components/Table/Table.tsx:170-180 | the next page is requested exactly when there is a container whose view ends less than 300 pixels above the content's end |
| TableView.HandleDropColumn | src/components/Table/Table.tsx:154-168 | a drop without a destination index or a dragged id does nothing; otherwise one update moves that column to that index with an empty config |
| AuditChange.Request | src/sources/TableSourceFirestore/useAuditChange.ts:46-57 | the request goes to the audit route with the change type, the data and a reference naming the row, the table and the collection |
| AuditChange.Caught | src/sources/TableSourceFirestore/useAuditChange.ts:58 | after `.catch(console.log)` the promise always resolves, with the backend's value when it resolved |
| AuditChange.AuditChangeAtom.constructor | src/atoms/tableScope/table.ts:188 | the audit function starts unset |
| AuditChange.AuditChangeAtom.Effect | src/sources/TableSourceFirestore/useAuditChange.ts:28-39 | the audit function is set exactly when the table has an id and a collection, auditing is on and the backend is at least 1.1.1, and then it uses those settings |
| AuditChange.AuditChangeAtom.Cleanup | src/sources/TableSourceFirestore/useAuditChange.ts:61 | the cleanup unsets the audit function |
| AuditChange.AuditChangeAtom.Call | src/sources/TableSourceFirestore/useAuditChange.ts:40-58 | calling the function sends the request for the stored settings and settles as the caught promise |
| RowyContext.NormalSection | src/contexts/RowyContext.tsx:115 | a missing or empty section becomes `"OTHER"`, any other is trimmed |
| RowyContext.VisibleFrom | src/contexts/RowyContext.tsx:108-112 | exactly the tables the user can see are kept: an admin sees all, others see those sharing a role |
| RowyContext.NormaliseAll | src/contexts/RowyContext.tsx:113-116 | each table is kept in place with its section normalised |
| RowyContext.VisibleTables | src/contexts/RowyContext.tsx:107-116 | the visible tables are the normalised tables the user can see, each as often as it is stored, and each with a section |
| RowyContext.NormaliseAllPermutes | src/contexts/RowyContext.tsx:113-116 | normalising permutations of each other gives permutations of each other |
| RowyContext.NormaliseAllByName | src/contexts/RowyContext.tsx:113-116 | normalising keeps names, so it commutes with picking the tables of one name |
| RowyContext.VisibleTablesStable | src/contexts/RowyContext.tsx:107-116 | visible tables that share a name are listed in the order they are stored in |
| RowyContext.VisibleTablesMembers | src/contexts/RowyContext.tsx:107-116 | the visible tables are exactly the normalised tables the user can see |
| RowyContext.VisibleTablesOrdered | src/contexts/RowyContext.tsx:107-116 | the visible tables are in ascending name order, and each section is already trimmed |
| RowyContext.Sections | src/contexts/RowyContext.tsx:118 | the sections have no repeated name and come in the order the names first occur among the visible tables; each holds exactly the visible tables with that section |
| RowyContext.SectionMembers | src/contexts/RowyContext.tsx:118 | a table is in a section exactly when it is visible and has that section |
| RowyContext.AllRoles | src/contexts/RowyContext.tsx:128 | the reduce collects exactly the roles of the tables |
| RowyContext.Roles | src/contexts/RowyContext.tsx:124-132 | `roles` is `[]` while the tables are unset, otherwise every role of some table, each once |
| RowyContext.TableDirectory.constructor | src/contexts/RowyContext.tsx:97-98 | the tables and sections start unset |
| RowyContext.TableDirectory.Derive | src/contexts/RowyContext.tsx:104-122 | once the settings' tables and the roles are known and the sections are unset, the visible tables and their sections are stored; otherwise nothing changes |
| RowyContext.RowyUser | src/contexts/RowyContext.tsx:73-91 | the stamp carries the time of the call and copies `displayName`, `email`, `uid`, `emailVerified`, `isAnonymous` and `photoURL` each into its own field |
| RowyContext.RowyUserCopiesExactly | src/contexts/RowyContext.tsx:73-91 | two users get the same stamp exactly when their six copied fields agree |
| RowyContext.NullableString | src/contexts/RowyContext.tsx:74-90 | a missing name, e-mail or photo is copied as `null`, a present one as its string |
| RowyContext.StampValue | src/contexts/RowyContext.tsx:74-90 | the stored `_updatedBy` object has exactly the keys `timestamp` and the six copied fields, each with the value the user object holds, and none of them undefined |
| RowyContext.StampValueInjective | src/contexts/RowyContext.tsx:74-90 | the stored object determines the stamp: two stamps are stored alike exactly when they are equal |
| RowyContext.UpdateCell | src/contexts/RowyContext.tsx:143-160 | an undefined value writes nothing; any other value writes the field, `_updatedBy` and `_updatedAt` (the same time) to that document, and no other key |
| RowyContext.UpdatedByHoldsUser | src/contexts/RowyContext.tsx:150-158 | a cell write puts into `_updatedBy` the write's time and the signed-in user's six fields, `null` where the user has none |
| RowyContext.OnWriteSuccess | src/contexts/RowyContext.tsx:161-163 | after the write, `onSuccess` is called once with the cell's reference, field and value when the caller passed it, and not at all otherwise |
| RowyContext.SuccessReportsWrite | src/contexts/RowyContext.tsx:158-163 | the document and the value `onSuccess` receives are the ones the write stored |
| RowyContext.OnWriteError | src/contexts/RowyContext.tsx:164-173 | a permission error shows one two-second error notification with the permission message; any other error shows none |
| Home.CapitalNotInLower | src/pages/Home.tsx:56-60 | a query with a capital letter is not contained in any lowercased string |
| Home.MatchesQuery | src/pages/Home.tsx:54-61 | the empty query matches every table |
| Home.SearchBounds | src/pages/Home.tsx:56-60 | the empty query matches every table; a query with a capital letter matches none |
| Home.ToggleFavorite | src/pages/Home.tsx:158-160 | checking appends the id; unchecking removes every occurrence and keeps the other ids in their order and as often as they were, and leaves a list without the id unchanged |
| Home.ToggleRoundTrip | src/pages/Home.tsx:158-160 | checking and then unchecking a table that was not a favourite restores the favourites |
| Home.HandleFavorite | src/pages/Home.tsx:157-166 | the toggle sends one update, whose list is the toggled favourites, holding the id exactly when it was checked |
| Home.FavoriteEntries | src/pages/Home.tsx:69 | one entry per favourite, in order: the first search result with that id, or nothing exactly when no result has it |
| Home.HomeSections | src/pages/Home.tsx:68-71 | Favorites comes first, then the other sections in the order their names first occur among the results; a section named Favorites replaces it; every other section holds exactly the results with that section |
| Home.EncodeId | src/pages/Home.tsx:155 | the encoded id holds no `/`, and an id without `/` is unchanged |
| Home.EncodeIdParts | src/pages/Home.tsx:155 | every `/` becomes `~2F` and every other character stays, part by part |
| Home.GetLink | src/pages/Home.tsx:152-155 | the link is the group or table route, `/`, then the encoded id as one path segment, from which decoding recovers an id without `~` |
| Home.EncodeRoundTrip | src/pages/Home.tsx:155 | decoding undoes the encoding for every id without `~` |
| Home.EncodingCollides | src/pages/Home.tsx:155 | the ids `a/b` and `a~2Fb` get the same link segment |
| NavDrawer.FavoriteTables | src/layouts/Navigation/NavDrawer.tsx:89-91 | Favorites lists, for each favourite id some table has, a table with that id, and no other table; each listed table is the first with its id |
| NavDrawer.FavoriteTablesInOrder | src/layouts/Navigation/NavDrawer.tsx:89-91 | the Favorites list follows the favourites' order |
| NavDrawer.NavSections | src/layouts/Navigation/NavDrawer.tsx:88-93 | the sections have distinct names: Favorites first, then the other sections in the order their names first occur among the tables; a section named Favorites replaces it; every other section holds exactly the tables with that section |
| NavDrawer.RenderedSections | src/layouts/Navigation/NavDrawer.tsx:249-251 | exactly the non-empty sections are rendered, in their order and as often as they are listed |
| NavDrawer.LookupIn | src/layouts/Navigation/NavDrawer.tsx:250 | a section's value is among the object's entries |
| NavDrawer.RenderedNavSections | src/layouts/Navigation/NavDrawer.tsx:249-260 | every section other than Favorites that some table has is rendered with all its tables |
| NavDrawer.Layout | src/layouts/Navigation/NavDrawer.tsx:95-101 | the drawer is collapsed exactly when closed and permanent, expanded for the moment exactly when collapsed and hovered or with a menu open, 56 pixels wide exactly when collapsed and not expanded, otherwise 256, and closes itself exactly when it is not permanent |
| SideDrawerForm.HiddenFields | src/components/SideDrawer/Form/index.tsx:26-27 | the user's hidden fields for the table, `[]` when the document, the table's entry or its list is missing |
| SideDrawerForm.ByIndex | src/components/SideDrawer/Form/index.tsx:29 | the columns sorted by index, as a permutation |
| SideDrawerForm.ByIndexStable | src/components/SideDrawer/Form/index.tsx:29 | columns that share an index keep the order of `Object.values` |
| SideDrawerForm.FormFields | src/components/SideDrawer/Form/index.tsx:29-31 | exactly the columns whose name is not hidden, each as often as it occurs, in index order |
| SideDrawerForm.FormFieldsSpec | src/components/SideDrawer/Form/index.tsx:29-31 | the form lists a column exactly when it exists and is not hidden, in non-decreasing index order |
| SideDrawerForm.FormFieldsStable | src/components/SideDrawer/Form/index.tsx:29-31 | unhidden fields that share an index keep the order of `Object.values` |
| SideDrawerForm.InitialValues | src/components/SideDrawer/Form/index.tsx:35-38 | the initial values have exactly the fields' keys |
| SideDrawerForm.InitialValuesLastWins | src/components/SideDrawer/Form/index.tsx:35-38 | a key's initial value is that of the type of the last field with the key |
| SideDrawerForm.RowValues | src/components/SideDrawer/Form/index.tsx:39-40 | the row's values without `ref`, each sanitised |
| SideDrawerForm.DefaultValues | src/components/SideDrawer/Form/index.tsx:41 | the default values hold the fields' keys and the row's other keys; the row's value wins, otherwise the initial value |
| SideDrawerForm.RenderType | src/components/SideDrawer/Form/index.tsx:83-86 | a non-empty `renderFieldType` overrides the field's type |
| SideDrawerForm.RenderedFields | src/components/SideDrawer/Form/index.tsx:81-115 | the fields whose render type has a component are shown, in the fields' order, each named by its key and labelled by its name, disabled exactly when `editable` is false; no other field is shown |
| SideDrawerForm.DebugText | src/components/SideDrawer/Form/index.tsx:122 | the debug text is the ref's path, else the id, else "No ref" |

## Left out

- Firestore reads and writes, document listeners, analytics and snackbars. Writes, log events and notifications are returned as values (`Effect`, `RowWrite`, `UserDocUpdate`, `ColumnUpdate`, `Notification`). A save is then applied to the settings by a model of a merge write.
- `updateRowData` is not part of this model. It is a parameter of the row buffer. `TableAtoms.DeepMerge` is a Firestore-style deep merge used for the worked examples, in which arrays and other non-object values are replaced.
- `cloneDeep` is not modelled: values are immutable, so a copy cannot be aliased.
- `unset` on bracketed or array-index paths is not modelled. Paths go through nested objects only. An update that deletes `_rowy_ref` is not modelled: the reference is kept apart from the fields.
- JavaScript lists integer-like object keys first. That ordering rule is not modelled in `Records`.
- `sanitizeFirestoreRefs`, the field registry (`getFieldProp`: `initialValue`, `SideDrawerField`, cell renderers), the route table, the backend version check and `rowyRun` are not part of this model. They are parameters.
- `useBasicSearch` is not part of this model. `Home.MatchesQuery` is its callback; the search results are an input.
- The 500 ms throttling of `fetchMoreOnBottomReached` and the effect that calls it on mount are not modelled; only one call is.
- Rendering and UI-local state are not modelled:
  - JSX, MUI and the TanStack table internals (sizing, keyboard navigation, `useSaveColumnSizing`);
  - the Filters popover's query inputs and their join operators (Filters.tsx:104-116, 168-192);
  - the override checkbox and the Apply button's other condition;
  - the side drawer's scroll and focus effect, `Autosave` and `Reset`;
  - the home page's dialogs and view state;
  - the navigation drawer's menus.
- RowyContext's claims fetch (RowyContext.tsx:134-141) is asynchronous and not modelled. The roles are an input.
- Numbers are real numbers, not IEEE doubles. `new Date()` is a millisecond parameter.
- Strings.ToLower: lowercases the ASCII letters only, because Unicode case mapping tables are not modelled.
- RowyContext.Roles: states membership and uniqueness; the first-occurrence order of `Set` is stated for `Collections.Dedup` by `Collections.DedupSnoc`, not restated here.
- Strings.LessEq: compares Unicode code points, while JavaScript's `<` compares UTF-16 code units. The two orders differ when a character above U+FFFF meets one in U+E000 to U+FFFF, so the path order of `TableAtoms.MergedRows` and the name order of `RowyContext.VisibleTables` follow code points for such strings.
- The signed-in user's type comes from the Firebase v8 SDK, which is not part of this model. Its `displayName`, `email` and `photoURL` are taken to be `string | null`, so a missing one is stored as `null`.
- `tableSortsAtom`, which Filters.tsx imports, is not declared in table.ts. `Filters.FilterState` takes it to be `tableOrdersAtom` (table.ts:61), which also starts as `[]`.
- The effects of the caller's `onSuccess` callback are not part of this model. `RowyContext.OnWriteSuccess` records only the call.
- NavDrawer.FavoriteTables: states the favourites' order through `FavoriteTablesInOrder` rather than per element.

## Findings

| source | as written | input that shows it | evidently intended | confidence | as-written member | corrected member |
|---|---|---|---|---|---|---|
| src/components/TableToolbar/Filters/Filters.tsx:235 | `setUserFilters` writes only when `filters` is truthy, so `null` is never stored | an overridable table with filters, a user with none, and "Clear All (ignore table filter)", which calls `setUserFilters(null)` (line 342) | `null` is stored, so that the table's filters are ignored, as the comment at lines 228-229 and the resolution at line 122 expect | not executed | Filters.ClearWithOverrideKeepsTableFilters | Filters.ClearWithOverrideStoringNull |
