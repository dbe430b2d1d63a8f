# DataTable ordering and selection core

A Dafny model of the logic inside the React `DataTable` component: how a row's identity is
resolved (`getRowKey`), how two cell values compare (`compareValues`), how the sorted view is
derived from the data, the columns and the sort state (`sortedData`), and the handlers that
change the two state cells: `toggleSort` for the sort state and `toggleRow`, `toggleAll` and
"Clear selection" for the selection set. It also covers the derived header-checkbox flags
`allSelected` / `someSelected`.

Layout:

- `options.dfy` (`Options`): the `Option` type used for the nullable sort state, the
  column lookup and the `onRowSelect` emission.
- `cell_values.dfy` (`CellValues`): cell values (`Null`, integers, strings), their string
  form and the comparator `Compare`, with its algebraic laws.
- `row_keys.dfy` (`RowKeys`): rows as maps from field name to value, the three ways of
  choosing a row identity (`KeySpec`) and `GetRowKey`.
- `sort_engine.dfy` (`SortEngine`): column lookup, the index-decorated sort with the
  source's comparator lambda, and the sorted view `SortedData`. It proves the view is a
  permutation, ordered and stable, unique, reversed by the other direction when there are no
  ties, and idempotent.
- `sort_examples.dfy` (`SortExamples`): the component test's sort scenario and the
  nulls-first scenario, worked out on the model.
- `selection_engine.dfy` (`SelectionEngine`): the next selection set for a row toggle, the
  filter that produces the emitted rows, the key-collecting loop used by select-all, and the
  derived flags.
- `data_table.dfy` (`Table`): the component as a class `DataTable`. Its props are
  constant fields and `sort` / `selected` are mutable fields. The constructor takes every prop
  explicitly: an omitted `selectionMode` is `Multiple` and an omitted `selectable` is `false`.
  Each handler is a method performing one atomic transition; a call of `onRowSelect` is returned as `Some(rows)`,
  and `None` means no call. The file ends with client scenarios (sorting keeps the
  selection, select-all twice, select-all on an empty table, the component test's two-row
  selection).

Notes on the code's behaviour:

- Columns carry no comparator of their own (the `Column` type, DataTable.tsx lines 5-14);
  every column sorts with `compareValues`.
- `compareValues` is not a total order on columns that mix numbers and strings (see
  `CompareMixedCycle`). The ordering theorems therefore assume a column holding only numbers
  or only strings (plus missing values). The permutation property needs no assumption.
- An empty-string `rowKey` is falsy, so `getRowKey` treats it like an absent one and rows are
  then keyed by position (`PositionKeyed`).
- `toggleAll` itself has no selection-mode guard; only the header check box that calls it is
  rendered in multiple mode alone (line 211). `ToggleAll` is modelled for both modes, so in
  single mode it can select several keys (`SelectAllSelectsSeveral`).

## Model

| member | source | states |
|---|---|---|
| RowKeys.GetRowKey | src/components/DataTable/DataTable.tsx:36-43 | With no key (or the empty field name) the key is the position; with a key function it is the function's value on the row; otherwise it is the row's field, missing reading as null |
| RowKeys.RowKeyIgnoresPosition | src/components/DataTable/DataTable.tsx:41-42 | A field or function key does not depend on the row's position, so re-sorting does not change a row's identity |
| RowKeys.PositionKeyFollowsPosition | src/components/DataTable/DataTable.tsx:41 | Index keys of different positions differ, so with index keys a selection follows positions, not rows |
| RowKeys.ViewKeysPositional | src/components/DataTable/DataTable.tsx:41 | With index keys the key set of a view is exactly the positions 0 .. n-1 |
| CellValues.NatToString | src/components/DataTable/DataTable.tsx:51 | The decimal text of a natural number: non-empty, digits only, a leading zero only for 0, one digit exactly below 10 |
| CellValues.NatToStringRoundTrip | src/components/DataTable/DataTable.tsx:51 | Reading the decimal text back gives the number, so the text determines it |
| CellValues.IntToString | src/components/DataTable/DataTable.tsx:51 | `String(n)` for an integer: a leading minus sign exactly for negatives, digits after it, the digits being the text of the magnitude |
| CellValues.IntToStringInjective | src/components/DataTable/DataTable.tsx:51 | Different integers have different string forms, so at most one number compares equal to a given string in the fallback |
| CellValues.ToStr | src/components/DataTable/DataTable.tsx:51 | `String(a)` for the values that reach it: the decimal text for a number, the string itself for a string; missing values return before line 51, so the text for `Null` is never used |
| CellValues.StrCompare | src/components/DataTable/DataTable.tsx:51 | The string order (standing in for localeCompare) returns -1, 0 or 1 and returns 0 exactly for equal strings |
| CellValues.StrCompareAntisymmetric | src/components/DataTable/DataTable.tsx:51 | Swapping the strings negates the string comparison |
| CellValues.StrCompareTransitive | src/components/DataTable/DataTable.tsx:51 | The string order is transitive |
| CellValues.Compare | src/components/DataTable/DataTable.tsx:46-52 | `compareValues`: a missing value sorts below a present one in both argument orders, equal values compare as zero, two numbers are ordered as integers, two strings are ordered by the string order, and a number and a string, in either order, by the number's decimal text |
| CellValues.ComparatorRules | src/components/DataTable/DataTable.tsx:46-52 | Two nulls compare equal; null is below every present value in both argument orders; two numbers compare by their difference (negative iff less, zero iff equal); two strings are ordered by the string order (zero iff identical); a number and a string, in either argument order, are ordered by the number's decimal text against the string |
| CellValues.CompareAntisymmetric | src/components/DataTable/DataTable.tsx:46-52 | Swapping the arguments flips the sign of the comparison, and every value compares equal to itself |
| CellValues.CompareTransitive | src/components/DataTable/DataTable.tsx:46-52 | The comparison is transitive among values that do not mix numbers and strings |
| CellValues.CompareMixedCycle | src/components/DataTable/DataTable.tsx:50-51 | On mixed columns the comparator has a cycle: 10 < "5" < 9 < 10 |
| SortEngine.FindColumn | src/components/DataTable/DataTable.tsx:123 | `columns.find`: none iff no column has the key; otherwise the first column with that key |
| SortEngine.Dir | src/components/DataTable/DataTable.tsx:125 | `dir` is 1 exactly for ascending and -1 otherwise |
| SortEngine.Decorate | src/components/DataTable/DataTable.tsx:127 | Each row is paired with its original index, in order |
| SortEngine.Rows | src/components/DataTable/DataTable.tsx:134 | `.map((x) => x.row)` keeps one row per entry |
| SortEngine.Insert | src/components/DataTable/DataTable.tsx:128-133 | Inserting into the sorted prefix adds exactly the one entry |
| SortEngine.SortEntries | src/components/DataTable/DataTable.tsx:128-133 | Sorting the decorated rows permutes them |
| SortEngine.SortRows | src/components/DataTable/DataTable.tsx:126-134 | Stripping the decoration after the sort yields a permutation of the rows |
| SortEngine.SortedData | src/components/DataTable/DataTable.tsx:121-135 | The sorted view is a permutation of the data; with no sort state, or a key matching no column, it is the data itself |
| SortEngine.SortCompare | src/components/DataTable/DataTable.tsx:128-133 | The sort lambda: on a tie of the column values it orders by original position whatever the direction; otherwise it is non-zero, negative for a smaller value ascending and for a larger value descending |
| SortEngine.SortCompareAntisymmetric | src/components/DataTable/DataTable.tsx:128-133 | The sort lambda is antisymmetric and never reports a tie between different original positions |
| SortEngine.SortCompareTransitive | src/components/DataTable/DataTable.tsx:128-133 | The sort lambda is a strict order on a column of one kind, in both directions |
| SortEngine.InsertSorted | src/components/DataTable/DataTable.tsx:128-133 | Inserting a new entry into a sorted sequence keeps it sorted |
| SortEngine.SortEntriesSorted | src/components/DataTable/DataTable.tsx:128-133 | The sort returns entries ordered by the lambda |
| SortEngine.SortedIsUnique | src/components/DataTable/DataTable.tsx:128-133 | Two sorted permutations of the same entries are equal: the lambda determines the result |
| SortEngine.AnySortAgrees | src/components/DataTable/DataTable.tsx:128-133 | Any sort algorithm that returns the entries ordered by the lambda returns the model's sequence |
| SortEngine.SortIsStable | src/components/DataTable/DataTable.tsx:125-133 | Each output entry is an input row at its original index, each index used once; all pairs satisfy `compareValues(va, vb) * dir <= 0`; rows that compare equal keep their input order in both directions |
| SortEngine.StrictlySortedMeaning | src/components/DataTable/DataTable.tsx:128-133 | A sequence ordered by the lambda has every pair in the direction's order and tied pairs in original order |
| SortEngine.SortedHeadsAgree | src/components/DataTable/DataTable.tsx:128-133 | Two sequences ordered by the lambda with the same entries start with the same entry |
| SortEngine.SortedDataSorted | src/components/DataTable/DataTable.tsx:121-135 | The sorted view is ordered by the sort column in the chosen direction |
| SortEngine.ReversePermutes | src/components/DataTable/DataTable.tsx:125 | Reversal is a permutation |
| SortEngine.ReverseDescending | src/components/DataTable/DataTable.tsx:125-132 | Reversing an ascending order with no ties gives the descending order |
| SortEngine.RowsReverse | src/components/DataTable/DataTable.tsx:134 | Reversal commutes with stripping the decoration |
| SortEngine.DescendingReversesAscending | src/components/DataTable/DataTable.tsx:121-135 | Without ties the descending view is the ascending view reversed |
| SortEngine.SortIdempotent | src/components/DataTable/DataTable.tsx:121-135 | Sorting the sorted view again by the same state changes nothing |
| SortExamples.SortByNameExample | src/components/DataTable/DataTable.test.tsx:19-31 | Sorting rows named C, A, B by name ascending yields A, B, C |
| SortExamples.SortedByColumn | src/components/DataTable/DataTable.tsx:123-134 | With a matching column the sorted view is the undecorated sort of the data by that column's field |
| SortExamples.SortByNameTest | src/components/DataTable/DataTable.test.tsx:19-31 | With the test's rows C, A, B and its name and age columns, the sorted view after sorting by name is A, B, C |
| SortExamples.NullsFirstExample | src/components/DataTable/DataTable.tsx:46-52 | Sorting values null, 5, null, 2 ascending yields null, null, 2, 5, with the nulls in input order |
| SelectionEngine.NextSelection | src/components/DataTable/DataTable.tsx:151-157 | Single mode: exactly the toggled key, even if it was already selected. Multiple mode: the key's membership flips and no other key changes |
| SelectionEngine.ToggleTwiceRestores | src/components/DataTable/DataTable.tsx:156 | Toggling the same key twice in multiple mode restores the selection |
| SelectionEngine.SingleModeExclusive | src/components/DataTable/DataTable.tsx:152-154 | After a single-mode row toggle exactly one key is selected, and the latest toggle wins |
| SelectionEngine.SelectedRows | src/components/DataTable/DataTable.tsx:158 | The filter reports no more rows than the view has; which rows, and in what order, is stated by `SelectedRowsInViewOrder` |
| SelectionEngine.SelectedPositions | src/components/DataTable/DataTable.tsx:158 | The kept positions are in range and strictly increasing, and a position is kept iff its row's key is selected |
| SelectionEngine.SelectedRowsInViewOrder | src/components/DataTable/DataTable.tsx:158 | The reported rows are exactly the view's rows at the kept positions, in view order |
| SelectionEngine.SelectedRowsAll | src/components/DataTable/DataTable.tsx:158 | When every key of the view is selected the filter reports the whole view |
| SelectionEngine.SelectedRowsNone | src/components/DataTable/DataTable.tsx:158 | When no key of the view is selected the filter reports nothing |
| SelectionEngine.CollectKeys | src/components/DataTable/DataTable.tsx:175-176 | The `forEach`/`add` loop collects exactly the keys of the view |
| SelectionEngine.AllSelected | src/components/DataTable/DataTable.tsx:164-166 | `allSelected` implies a selectable table, a non-empty view, a non-empty selection, and every row of the view selected |
| SelectionEngine.SomeSelected | src/components/DataTable/DataTable.tsx:168 | `someSelected` iff something is selected and the table is not selectable, the view is empty, or some row of the view is unchecked |
| SelectionEngine.AllSelectedIffCovered | src/components/DataTable/DataTable.tsx:164-166 | `allSelected` iff selectable, the view is non-empty and every key of the view is selected |
| SelectionEngine.FlagsConsistent | src/components/DataTable/DataTable.tsx:164-168 | `allSelected` and `someSelected` never hold together; `someSelected` needs a non-empty selection; an empty selection sets neither |
| SelectionEngine.SelectAllSetsFlag | src/components/DataTable/DataTable.tsx:164-176 | Selecting exactly the view's keys makes `allSelected` true iff the view is non-empty |
| SelectionEngine.SelectAllSelectsSeveral | src/components/DataTable/DataTable.tsx:171-178 | Select-all on a two-row table keyed by position selects both positions, while a single-mode row toggle leaves one key |
| SelectionEngine.SelectTwoRowsExample | src/components/DataTable/DataTable.test.tsx:49-57 | Selecting ids 1 then 2 in multiple mode gives {1, 2}, and the filter reports the first two rows in order |
| Table.NextSort | src/components/DataTable/DataTable.tsx:138-144 | A non-sortable column leaves the state unchanged; a new column (or no sort) becomes ascending on that column; the current column swaps direction |
| Table.SortClickCycle | src/components/DataTable/DataTable.tsx:138-144 | Repeated clicks on one sortable header cycle ascending, descending, ascending, ... |
| Table.ToggleSortTwice | src/components/DataTable/DataTable.tsx:141-142 | Two clicks on the current sort column restore the sort state |
| Table.DataTable.constructor | src/components/DataTable/DataTable.tsx:110-111 | A new table has no sort state and an empty selection |
| Table.DataTable.IsAllSelected | src/components/DataTable/DataTable.tsx:164-166 | The header check box is checked only on a selectable table with a non-empty view and a non-empty selection |
| Table.DataTable.IsSomeSelected | src/components/DataTable/DataTable.tsx:168 | The indeterminate state needs a non-empty selection and excludes the checked state |
| Table.DataTable.SortedView | src/components/DataTable/DataTable.tsx:121-135 | The displayed rows are a permutation of the data, and the data itself when there is no sort or no matching column |
| Table.DataTable.IsRowSelected | src/components/DataTable/DataTable.tsx:302-303 | A row is checked iff its key (its position, its field, or the key function's value) is in the selection |
| Table.DataTable.ToggleSort | src/components/DataTable/DataTable.tsx:138-144 | The sort field becomes the next sort state and nothing else changes |
| Table.DataTable.ToggleRow | src/components/DataTable/DataTable.tsx:147-161 | Not selectable: no change and no emission. Otherwise the selection becomes the next selection for the row's key, and the emitted rows are the sorted view filtered by the new selection |
| Table.DataTable.ToggleAll | src/components/DataTable/DataTable.tsx:171-180 | Not selectable: no change and no emission. All selected: cleared, no emission. Otherwise: exactly the view's keys are selected and the whole view is emitted; any emission equals the view filtered by the new selection |
| Table.DataTable.ClearSelection | src/components/DataTable/DataTable.tsx:195 | The selection becomes empty and nothing is emitted |
| Table.SortKeepsSelection | src/components/DataTable/DataTable.tsx:138-144 | A sort click leaves the selection unchanged; with field or function keys a selected row stays selected at any position |
| Table.SelectAllTwice | src/components/DataTable/DataTable.tsx:164-180 | Select-all on a non-empty view emits the whole view; a second select-all clears without emitting |
| Table.SelectAllOnEmpty | src/components/DataTable/DataTable.tsx:171-178 | Select-all on an empty table selects nothing and emits an empty list |
| Table.SelectsMultipleRows | src/components/DataTable/DataTable.test.tsx:33-57 | In multiple mode keyed by id, checking rows 1 and 2 emits exactly those two rows in order |

## Left out

- Rendering: the JSX markup, `SortIcon`, `LoadingSpinner`, `EmptyState`, size, striping and
  hover classes, and the loading and empty branches. These are presentation with no state of
  their own. The `InputField` component, the demo `App`, the stories and the test scaffolding
  are not part of this model.
- `localeCompare` is replaced by code-point lexicographic order (`StrCompare`), and
  JavaScript's floating-point numbers by unbounded integers, so `a - b` is exact. Locale
  collation, `NaN` and fractional numbers are not modelled.
- `String(a)` is modelled only for the three value kinds; values such as objects, booleans
  and dates are not.
- `null` and `undefined` (a missing field) are one value, `Null`. The comparator treats
  them the same (`== null`), but a JavaScript `Set` keeps them apart: with `rowKey="id"`, a row
  `{id: null}` and a row without `id` have different identities in the component and the
  same identity in the model, so selecting one also selects the other here.
- Props are fixed per `DataTable` object. A re-render with new `data`, `columns`, `rowKey`,
  `selectable` or `selectionMode` under the existing `sort` and `selected` state is not
  modelled; after one, the selection may hold keys of rows no longer shown.
- Rows: its contract states only the length; the row at each position is given by its
  definition and used through `RowsCons`, because a pointwise contract made the permutation
  proofs too costly.
- `toggleAll` in single mode: the component never calls it there, because the header check
  box is rendered in multiple mode only; the model does not state that single mode keeps at
  most one key, since `ToggleAll` can break it.
- React's `useState` updater batching and `useMemo` caching: each handler is one atomic
  transition, and the sorted view is recomputed from the fields on demand.
- `onRowSelect` being optional: the model always returns the would-be emission, and the
  `?.` call is the caller's concern.
- `Array.prototype.sort` is modelled by an insertion sort. `SortedIsUnique` and
  `AnySortAgrees` show that any algorithm that returns an order consistent with the
  comparator gives the same result. On a column mixing numbers and strings the comparator is
  inconsistent, the engine's order is implementation-defined, and `SortedData` (so
  `SortedView` and the order of the rows `ToggleRow` emits) is the insertion sort's result,
  which may differ from what a browser returns.
- SortIsStable: requires a column that does not mix numbers and strings, because
  `compareValues` is not transitive there and no sorted order need exist.
- SortedDataSorted: requires the same single-kind column, for the same reason.
- SortEntriesSorted: requires the same single-kind column, for the same reason.
- AnySortAgrees: requires the same single-kind column, for the same reason.
- SortIdempotent: requires the same single-kind column, because on a mixed column a
  platform sort's result is implementation-defined.
- DescendingReversesAscending: additionally requires that no two rows tie on the column,
  since tied rows keep their input order in both directions.
- Duplicate row keys: as in the source, rows sharing a key are selected and emitted together;
  no distinctness is assumed or enforced.
