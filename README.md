# Table and input widgets: a verified model

This project models the behaviour behind two user-interface widgets: a data
table that sorts its rows on a header click and lets the user select rows
in single or multiple mode, and a text input whose clear button, password
toggle, input type, disabled flag and message line follow from its
properties.

- `Types.dfy`: rows, columns, the table's property set, the selection mode
  (`false`, `'single'`, `'multiple'`), and `Option` for `undefined`.
  A row is a map from attribute names to integers. `Cell` reads one
  attribute; an attribute the row lacks reads as `None`, which is JavaScript's
  `undefined`. Row-key equality (`===`) is equality of these values.
- `TableSort.dfy`: the three-way comparator, which follows JavaScript's `<` and
  `>` (a comparison with `undefined` is false both ways). It also holds the
  stable sort of the copied rows, the derived display order and the
  header-click transition of the sort configuration. As in the source, the sort
  reads the attribute named by the column's `key`, not its `dataIndex`.
- `TableSelection.dfy`: membership by row key (`some`), removal by row key
  (`filter`), and the new selection after a row click or a select-all click.
  It also holds the "all selected" test and an invariant under which that
  length test is exact.
- `DataTable.dfy`: the table as a class. It holds the latest properties and
  the two pieces of local state, `selectedRows` and `sortConfig`. The three
  click handlers are methods proved against the functions above. The
  selection-change callback is modelled as a returned value: what the
  callback receives, or `None` when it is not called. The choice between the
  loading, empty and table branches is `ViewOf`.
- `InputField.dfy`: the visibility, type, disabled and message rules as
  predicates and functions over the properties. The class holds
  `showPassword`, which the toggle click flips, and `HandleClear`, which
  reports whether the clear callback is called.

The sort configuration and selection persist across renders. `Rerender`
replaces the properties and keeps the state, as the framework's state hooks
do. Because the data can change under a kept selection, the invariant
`Consistent` is conditional. It says the data's keys and the selected keys are
each distinct, and every selected key is a data key. The select-all click,
and a click on a row of the data, preserve it. While it holds, the header
checkbox's length test means "every row is selected".

`readOnly` is only forwarded to the input element. It hides neither the
clear button (`src/components/InputField/InputField.tsx:75`) nor the
password toggle (`:86`), and `loading` does not hide the toggle either.
`ReadOnlyIgnored` and `LoadingEffects` state this.

## Model

| member | source | states |
|---|---|---|
| `Types.Cell` | src/components/DataTable/DataTable.tsx:23-24 | reading an attribute gives its value when the row holds it and `undefined` otherwise |
| `Types.DefaultTableProps` | src/components/DataTable/DataTable.tsx:8-11 | an omitted property means not loading, not selectable, no callback, row key `"id"` |
| `TableSort.Less` | src/components/DataTable/DataTable.tsx:26-29 | `<` holds only between two present values, and then exactly when the first is smaller; a comparison with `undefined` is false |
| `TableSort.LessIsStrict` | src/components/DataTable/DataTable.tsx:26-29 | `<` on cell values is irreflexive, asymmetric and transitive, and two present values are equal or ordered one way |
| `TableSort.Compare` | src/components/DataTable/DataTable.tsx:22-33 | the comparator is -1, 0 or 1. It is 0 exactly when a value is missing or the two values are equal. It is negative exactly when both values are present and in the configured direction's order |
| `TableSort.SortRows` | src/components/DataTable/DataTable.tsx:22 | sorting keeps the length and the multiset of rows (a permutation) and leaves no neighbouring pair inverted by the comparator |
| `TableSort.SortedData` | src/components/DataTable/DataTable.tsx:19-34 | with no sort configuration the displayed rows are `data` itself, in order. With one they are a permutation of `data` with no inverted neighbours. `data` is a value and stays unchanged |
| `TableSort.SortedDataAdjacent` | src/components/DataTable/DataTable.tsx:22-33 | neighbouring displayed rows that both hold the sort attribute are non-decreasing when ascending and non-increasing when descending |
| `TableSort.SortedDataOrdered` | src/components/DataTable/DataTable.tsx:22-33 | when every row holds the sort attribute, every pair of displayed rows is in the configured order |
| `TableSort.NoInversionOrdered` | src/components/DataTable/DataTable.tsx:26-31 | when no neighbours are inverted and every row holds the attribute, the whole sequence is ordered |
| `TableSort.InsertStable` | src/components/DataTable/DataTable.tsx:32 | a row inserted by the sort goes ahead of every row with an equal sort value, which the comparator leaves in place |
| `TableSort.SortStable` | src/components/DataTable/DataTable.tsx:22 | the sort is stable: rows with equal sort values keep their relative order |
| `TableSort.NextSort` | src/components/DataTable/DataTable.tsx:36-44 | a click on a non-sortable column changes nothing. On a sortable column the key becomes that column. The direction is descending exactly when the previous configuration was that key ascending |
| `TableSort.ClickCycle` | src/components/DataTable/DataTable.tsx:39-43 | the first click on a column sorts ascending unless it was already ascending on it. Clicks on one column alternate ascending, descending, ascending |
| `TableSort.OtherColumnResets` | src/components/DataTable/DataTable.tsx:39-43 | clicking a column other than the current sort key sorts ascending on it |
| `TableSort.HeaderIndicator` | src/components/DataTable/DataTable.tsx:135-147 | only sortable columns show an arrow. It points up or down exactly when the column is the active key, ascending or descending |
| `TableSort.ClickMovesArrow` | src/components/DataTable/DataTable.tsx:131-147 | after a click on a sortable column its arrow is active and every other sortable column shows the faded arrow |
| `TableSelection.HasKey` | src/components/DataTable/DataTable.tsx:53-55 | true exactly when some row has the given row-key value |
| `TableSelection.WithoutKey` | src/components/DataTable/DataTable.tsx:58-60 | no remaining row has the given key value, and a single row is kept exactly when its key differs |
| `TableSelection.WithoutKeyCounts` | src/components/DataTable/DataTable.tsx:58-60 | the filter drops every copy of each row with the given key value and keeps every other row with its multiplicity |
| `TableSelection.WithoutKeyConcat` | src/components/DataTable/DataTable.tsx:58-60 | filtering a concatenation concatenates the filtered parts, so with the one-row case the kept rows stay in their original order |
| `TableSelection.WithoutAbsentKey` | src/components/DataTable/DataTable.tsx:58-60 | filtering out a key no row holds returns the rows unchanged |
| `TableSelection.IsRowSelected` | src/components/DataTable/DataTable.tsx:80-84 | a row is selected exactly when some selected row has the same row-key value |
| `TableSelection.DistinctKeyUnique` | src/components/DataTable/DataTable.tsx:86 | with distinct row keys, no other row shares the key of a given row |
| `TableSelection.RemoveKeepsOrder` | src/components/DataTable/DataTable.tsx:53-60 | over distinct keys, clicking the selected row at position `k` in multiple mode gives the selection with exactly that row removed and the others in their order |
| `TableSelection.NextRowSelection` | src/components/DataTable/DataTable.tsx:46-64 | when not selectable there is no new selection. Single mode gives `[row]`. Multiple mode filters out, in order, every row sharing the clicked key if one does, keeping each other row with its multiplicity, and otherwise appends the row after the earlier entries |
| `TableSelection.SingleSelectsOne` | src/components/DataTable/DataTable.tsx:50-51 | in single mode the new selection has length 1 and the clicked row is selected |
| `TableSelection.MultipleToggles` | src/components/DataTable/DataTable.tsx:53-63 | in multiple mode a click flips whether the clicked row is selected |
| `TableSelection.WithoutAppended` | src/components/DataTable/DataTable.tsx:58-62 | removing the key of an appended row that no earlier entry shares gives back the earlier entries |
| `TableSelection.SelectTwiceRestores` | src/components/DataTable/DataTable.tsx:53-63 | clicking a previously unselected row twice restores the original selection exactly |
| `TableSelection.NextSelectAll` | src/components/DataTable/DataTable.tsx:70-74 | outside multiple mode nothing happens. Otherwise the new selection is empty when the lengths match (or there is no data), else a copy of `data` |
| `TableSelection.AllSelected` | src/components/DataTable/DataTable.tsx:86 | the header checkbox is checked exactly when the mode is multiple, data is non-empty and the lengths are equal; a click on a checked box then empties the selection |
| `TableSelection.SelectAllFlips` | src/components/DataTable/DataTable.tsx:70-86 | over non-empty data a select-all click flips the header checkbox |
| `TableSelection.LengthTestExact` | src/components/DataTable/DataTable.tsx:86 | if the data keys are distinct and the selection invariant holds, then equal lengths mean exactly that every data row is selected |
| `TableSelection.DistinctKeyCount` | src/components/DataTable/DataTable.tsx:86 | with distinct row keys there are as many key values as rows, which the length test relies on |
| `TableSelection.RowSelectionConsistent` | src/components/DataTable/DataTable.tsx:46-68 | a click on a data row keeps the selection invariant in every mode |
| `TableSelection.SelectAllConsistent` | src/components/DataTable/DataTable.tsx:70-78 | a select-all click keeps the selection invariant |
| `DataTable.ViewOf` | src/components/DataTable/DataTable.tsx:88-107 | the view is loading exactly when `loading` is set. It is empty exactly when not loading and `data` is empty. Otherwise it is the table over a non-empty permutation of `data` |
| `DataTable.DataTable.constructor` | src/components/DataTable/DataTable.tsx:13-17 | the table starts with an empty selection and no sort, and satisfies the selection invariant when the data's keys are distinct |
| `DataTable.DataTable.Rerender` | src/components/DataTable/DataTable.tsx:5-17 | new properties replace the old ones and the local state is kept |
| `DataTable.DataTable.HandleSort` | src/components/DataTable/DataTable.tsx:36-44 | the new sort configuration is `NextSort` of the old one: unchanged on a non-sortable column, else keyed on the clicked column |
| `DataTable.DataTable.HandleRowSelect` | src/components/DataTable/DataTable.tsx:46-68 | the selection becomes `NextRowSelection` of the old one, or stays when not selectable. The callback, when present, receives exactly the new selection. It is not called when not selectable. The selection invariant is kept for a data row |
| `DataTable.DataTable.HandleSelectAll` | src/components/DataTable/DataTable.tsx:70-78 | the selection becomes `NextSelectAll` of the old one and is unchanged outside multiple mode. The callback receives exactly the new selection. The invariant is kept |
| `DataTable.DataTable.Displayed` | src/components/DataTable/DataTable.tsx:156 | the body rows are a permutation of `data`: `data` itself when unsorted, and with no inverted neighbours for the active sort |
| `DataTable.DataTable.IsRowSelected` | src/components/DataTable/DataTable.tsx:80-84 | a row is shown selected exactly when some selected row has the same row-key value |
| `DataTable.DataTable.IsAllSelected` | src/components/DataTable/DataTable.tsx:86 | the header checkbox is checked exactly when the mode is multiple, data is non-empty and the selection and data have equal lengths |
| `DataTable.DataTable.AllSelectedExact` | src/components/DataTable/DataTable.tsx:86 | while the invariant holds, the checkbox is checked exactly when the mode is multiple, data is non-empty and every data row is selected |
| `InputField.DefaultInputProps` | src/components/InputField/InputField.tsx:5-18 | an omitted property means an empty value, type `"text"` and every flag off |
| `InputField.InputDisabled` | src/components/InputField/InputField.tsx:68 | the input is disabled exactly when `disabled` or `loading` is set |
| `InputField.ClearButtonVisible` | src/components/InputField/InputField.tsx:75 | the clear button is rendered exactly when the field is clearable, holds text and is neither disabled nor loading |
| `InputField.PasswordToggleVisible` | src/components/InputField/InputField.tsx:86 | the toggle is rendered exactly on a password field that is not disabled, and there a click switches the rendered type between `"password"` and `"text"` |
| `InputField.EffectiveType` | src/components/InputField/InputField.tsx:64 | the rendered type is `"text"` for a password shown in clear and the given type otherwise |
| `InputField.Message` | src/components/InputField/InputField.tsx:104-111 | the message line is rendered exactly when the helper or error text is non-empty. It shows the error text when that is non-empty, else the helper text |
| `InputField.DescribedByIffMessage` | src/components/InputField/InputField.tsx:71 | the input refers to the message line exactly when the line is rendered |
| `InputField.ReadOnlyIgnored` | src/components/InputField/InputField.tsx:68-86 | `readOnly` changes neither the clear button, nor the password toggle, nor the disabled flag |
| `InputField.LoadingEffects` | src/components/InputField/InputField.tsx:68-86 | a loading input is disabled and has no clear button. It keeps the password toggle exactly when it is a password field and not disabled |
| `InputField.InputField.constructor` | src/components/InputField/InputField.tsx:22 | `showPassword` starts false, so the given type is rendered |
| `InputField.InputField.Rerender` | src/components/InputField/InputField.tsx:22 | new properties replace the old ones and `showPassword` is kept |
| `InputField.InputField.TogglePassword` | src/components/InputField/InputField.tsx:86-89 | a click on the rendered toggle flips `showPassword` and switches the rendered type between `"text"` and `"password"` |
| `InputField.InputField.HandleClear` | src/components/InputField/InputField.tsx:25-27 | the clear callback is called exactly when it is present. Nothing else changes, including the value |
| `InputField.ToggleTwice` | src/components/InputField/InputField.tsx:89 | two toggle clicks restore `showPassword` |

## Left out

- Markup and styling are not modelled: class strings, size and variant tables, icons, the label, the spinner, and the radio-versus-checkbox choice of the selection cells.
- Custom cell renderers (`column.render`) are caller code and are not modelled. So is the value shown in each cell.
- Callbacks are not modelled as code. `onRowSelect` and `onClear` are presence flags. A handler returns what the callback would receive.
- `onChange` and the value it passes are not modelled. The input's value is a property owned by the caller.
- Cell values are integers, and a missing attribute is `undefined`. String values are not modelled, and neither are JavaScript comparisons across mixed or non-comparable types.
- TableSort.SortRows: the engine's own sort is replaced by a stable insertion sort. When some rows lack the sort attribute, the comparator is not a consistent order and the engine's result is implementation-defined. The model then promises only a permutation with no inverted neighbours.
- The framework's scheduling of state updates and memoisation is not modelled. State is plain fields, updated at once, and the sorted rows are a function of the data and the sort configuration.
- InputField.InputField.TogglePassword: it requires the toggle to be rendered, because the click handler exists only on the rendered button.
