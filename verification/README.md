# airytable, modelled in Dafny

airytable is a small Airtable-like spreadsheet. A user owns bases. A base holds tables, and a table holds typed columns (fields), rows (records) and saved views.

Cell values are stored sparsely, in two cell tables: one for numbers and one for text. A (field, record) pair has a row in a cell table only while it holds a non-empty value. A view stores a table's sort list, filter list and hidden-field list.

The server is a set of tRPC routers over a Prisma database. Every endpoint is scoped to the caller through the owner chain User -> Base -> Table -> Field / Record / View. The client is a React page. It edits the three lists of the current view and saves each change back to the view.

This project models both halves.

- **The database** is `Store.Db`: a class with one row sequence per model, in ascending id order, and one counter that hands out fresh ids. `Store.DbState` is a value snapshot of it. `Store.Consistent` is the invariant every router keeps:
  - ids ascend and are below the counter;
  - at most one cell per (field, record) pair in each cell table;
  - every cell's field id and record id are below the counter;
  - every reference a table, field, record or view holds (its base or its table) is below the counter.
- **Each router endpoint** is a method on `Db`. It states the new state as a function of the old one, through the specification functions beside it (`CellRouter.WriteCell`, `RecordRouter.AfterCreateRecords`, `TableRouter.AfterDeleteTable`, `TableRouter.Scaffolded`, `ViewRouter.WithView`, `BaseRouter.GetAll`, ...). Lemmas prove what each endpoint promises about those functions.
- **The client page** is `ViewSession.Session`: the three lists, the `loaded` flag, and the log of save requests it has sent. Each list editor of the menus (sort, filter, hide fields) is a method that computes the new list with the JavaScript array primitives of module `Js` and hands it to the session's setter. A function states what the edit means, and a lemma relates the two.
- **The grid's helpers** (`Grid`) are pure functions with lemmas: the column layout, the field-type map, the row update, page concatenation and the fetch-more condition.

Integers stand for ids. Bases, tables and views have cuid strings in the source, and the model uses nats from one counter for them too. Ids matter through equality and through creation order, which the counter preserves. A row never refers to an id before the counter has handed it out. The database's foreign keys refuse a table whose base does not exist, and a view or record whose table does not exist; the model fails those inserts with `ForeignKey` and changes nothing. So a fresh id is never already the target of a reference, and `Consistent` states this.

## Model

| member | source | states |
|---|---|---|
| CellRouter.UpdateCell | src/server/api/routers/cell.ts:4-57 | Fails with the thrown message and changes nothing unless both the field and the record are in tables whose base is the caller's. Otherwise the chosen cell table and the id counter become the result of the write rule, and the reply is the rule's reply. The store stays consistent. |
| CellRouter.WriteEmptyDeletes | src/server/api/routers/cell.ts:33-40 | null or "" over an existing cell deletes exactly that cell: one row fewer, no cell left for the pair, every other pair's cells kept, reply null. |
| CellRouter.WriteValueUpdates | src/server/api/routers/cell.ts:41-46 | A non-empty value over an existing cell keeps the cell's id, field and record, and changes only its value. The table length is unchanged, every other pair is kept, and the reply is the updated row. |
| CellRouter.WriteValueCreates | src/server/api/routers/cell.ts:47-55 | A non-empty value (including the number 0) where no cell exists appends exactly one cell with the next id and the given field, record and value. The reply is that row. |
| CellRouter.WriteEmptyNoop | src/server/api/routers/cell.ts:33-56 | null or "" where no cell exists leaves the table and the counter as they were and replies undefined. |
| CellRouter.WriteKeepsTable | src/server/api/routers/cell.ts:26-55 | Every write keeps ids ascending below the counter and at most one cell per (field, record). Every cell afterwards was there before or belongs to the written pair. |
| CellRouter.WriteLeavesOtherPairs | src/server/api/routers/cell.ts:26-56 | A cell of any other (field, record) pair is present after the write exactly when it was present before. |
| CellRouter.SamePairSameCell | src/server/api/routers/cell.ts:26-31 | In a table with distinct pairs, two cells with the same pair are the same cell, so the lookup finds the only one. |
| CellRouter.WriteKeepsConsistent | src/server/api/routers/cell.ts:26-55 | A write for a record that exists keeps the whole store consistent. The other cell table is untouched. |
| CellRouter.UpdateNumber | src/server/api/routers/cell.ts:60-71 | A number or null is written to the number cells only. The text cells are unchanged, and it fails without change when ownership fails. |
| CellRouter.UpdateText | src/server/api/routers/cell.ts:73-84 | A string or null is written to the text cells only. The number cells are unchanged, and it fails without change when ownership fails. |
| RecordRouter.GenValue | src/server/api/routers/record.ts:29-42 | The generator registered under the field's name supplies the value. Otherwise a Number field gets the random integer and any other field the random noun. |
| RecordRouter.NewRecords | src/server/api/routers/record.ts:15-16 | Exactly `amount` records, all in the given table, numbered consecutively from the next id. |
| RecordRouter.PlanCells | src/server/api/routers/record.ts:27-51 | The nested record x field loops produce the planned number cells and the planned text cells. |
| RecordRouter.PlanRow | src/server/api/routers/record.ts:28-50 | The inner loop over the fields gives one record's planned number cells and planned text cells, in field order. |
| RecordRouter.CreateRecords | src/server/api/routers/record.ts:7-54 | An amount outside 0 .. 2^32 - 1 fails with RangeError (`Array(amount)`) before any write. Otherwise, when records are to be written to a table that does not exist, the foreign key refuses them and nothing changes. Otherwise the store becomes `AfterCreateRecords`, and it stays consistent. |
| RecordRouter.AppendRows | src/server/api/routers/record.ts:52-53 | The records are appended, then the text cells and the number cells, numbered after the records. |
| RecordRouter.PlannedCount | src/server/api/routers/record.ts:27-51 | With data generation, the new cells number exactly (new records) x (fields of the table). |
| RecordRouter.RowCellsCount | src/server/api/routers/record.ts:28-50 | Each record gets one cell per field of the table, split between the two cell tables. |
| RecordRouter.PlannedMembers | src/server/api/routers/record.ts:27-51 | A cell is planned for a cell table exactly when it is the planned cell of some new record and some field whose type selects that table: Number to the number table, anything else to the text table. It carries that record's id and that field's id. |
| RecordRouter.RowCellsMembers | src/server/api/routers/record.ts:28-50 | One record's cells are exactly the planned cells of the fields whose type selects the table. |
| RecordRouter.PlannedDistinct | src/server/api/routers/record.ts:27-51 | The planned cells of each table have distinct (field, record) pairs, so each pair gets exactly one cell. |
| RecordRouter.RowCellsDistinct | src/server/api/routers/record.ts:28-50 | One record's planned cells have distinct fields. |
| RecordRouter.PlannedRecordIds | src/server/api/routers/record.ts:33-46 | Every generated cell belongs to one of the new records. |
| RecordRouter.DefaultValuesInRange | src/server/api/routers/record.ts:30-42 | Without generators, a new number cell holds an integer in 0..1000 and a new text cell a word of 1 to 5 letters, given a random source that keeps its documented ranges. |
| RecordRouter.AfterCreateRecordsKeeps | src/server/api/routers/record.ts:15-53 | Bases, tables, fields and views are unchanged. The records gain exactly the new ones at the end. Without data generation no cell is created; with it, amount x (fields of the table) cells are created. |
| RecordRouter.AfterCreateRecordsConsistent | src/server/api/routers/record.ts:7-54 | Creating records keeps the store consistent, including one cell per (field, record) pair. |
| RecordRouter.Create | src/server/api/routers/record.ts:56-78 | `numRows` < 1 is rejected by the schema. A table the caller does not own fails with the thrown message. `numRows` >= 2^32 fails with RangeError. All three failures change nothing. Otherwise the records are created, with `randomData` defaulting to false and no generators. |
| TableRouter.GetAllViews | src/server/api/routers/table.ts:59-71 | Every view listed is a view of the store in the requested table. |
| TableRouter.GetAllViewsExact | src/server/api/routers/table.ts:59-71 | `getAllViews` lists exactly the views of the table, in ascending id order, for any caller. |
| Store.FieldsOfExact | src/server/api/routers/table.ts:10-15 | The `getFields` helper returns exactly the table's fields. |
| Store.FieldsOfOrdered | src/server/api/routers/table.ts:10-15 | The helper returns them in ascending id order. |
| TableRouter.GetFields | src/server/api/routers/table.ts:202-220 | Every field listed is a field of the store in the requested table. A caller who does not own the table gets an empty list. |
| TableRouter.GetFieldsOwned | src/server/api/routers/table.ts:202-220 | The router's `getFields` is the helper's list when the caller owns the table, and empty otherwise. |
| TableRouter.CreateTable | src/server/api/routers/table.ts:17-56 | A base that does not exist is refused by the foreign key, and nothing changes. Otherwise it writes the table, its view and its three columns, then the records. A record count outside 0 .. 2^32 - 1 fails with RangeError after the first three writes, which stay. The result is the new table. The store stays consistent. |
| TableRouter.Scaffold | src/server/api/routers/table.ts:24-39 | The table row, then "Grid View" through `createView`, then the columns Name, Color and Number. |
| TableRouter.Create | src/server/api/routers/table.ts:91-108 | An empty name is rejected with no change, and so is a base that does not exist. A record count outside 0 .. 2^32 - 1 fails with RangeError and leaves the scaffold. `generateData` defaults to true and `numRecords` to 3. |
| TableRouter.CreateTableShape | src/server/api/routers/table.ts:21-54 | From any consistent store, the new table has exactly one view, "Grid View", with empty lists; the fields Name (Text), Color (Text) and Number (Number), in that order; and exactly `numRecords` records. |
| TableRouter.ScaffoldViews | src/server/api/routers/table.ts:30 | From any consistent store, the new table's only view is "Grid View", with empty lists. |
| TableRouter.ScaffoldFields | src/server/api/routers/table.ts:33-39 | The new table's fields are Name (Text), Color (Text) and Number (Number), with consecutive ids. |
| TableRouter.DeleteTable | src/server/api/routers/table.ts:110-157 | Fails with "Error occurred" and deletes nothing unless the table's base is the caller's. Otherwise the store becomes `AfterDeleteTable` and stays consistent. |
| TableRouter.RemoveTable | src/server/api/routers/table.ts:131-154 | The six deletes run in source order. The cells are looked up through the records before those are deleted. |
| TableRouter.DeleteTableExact | src/server/api/routers/table.ts:131-154 | Afterwards the table is gone. No field, record or view of it remains, and no cell of its records. Every other table, field, record, view and cell, and every base, is kept. |
| TableRouter.DeleteTableConsistent | src/server/api/routers/table.ts:131-154 | The cascade keeps the store consistent. |
| TableRouter.GetRecords | src/server/api/routers/table.ts:159-200 | A negative offset or a size below 1 is rejected (defaults 0 and 100). Otherwise the result is the run of the caller's records of the table starting at `offset`, at most `size` of them, each formatted from its text and number cells. Nothing changes. |
| TableRouter.FormatRecord | src/server/api/routers/table.ts:187-197 | The two `forEach` loops and the `recordId` assignment build the formatted record. |
| TableRouter.GetRecordsPage | src/server/api/routers/table.ts:163-184 | The page holds at most `size` records and is exactly positions offset .. offset+size-1 of the caller's records of the table. All of them are in the table and owned by the caller, in strictly ascending id order. |
| TableRouter.FormattedExact | src/server/api/routers/table.ts:187-197 | A formatted record maps "recordId" to the record id and each field id of its cells to a cell of that field; a number cell overrides a text cell. It has no other keys. With one cell per field, each cell sits under its own field id. |
| TableRouter.AssignedKeys | src/server/api/routers/table.ts:189-194 | After the `forEach` assignments, the keys are the old keys plus one key per cell. |
| TableRouter.AssignedCell | src/server/api/routers/table.ts:189-194 | With distinct fields, each cell is found under its field id. |
| TableRouter.RecordCellsDistinct | src/server/api/routers/table.ts:176-181 | In a consistent store, one record's cells in either cell table have distinct fields. |
| ViewRouter.CreateView | src/server/api/routers/view.ts:19-34 | A table that does not exist is refused by the foreign key, and nothing changes. Otherwise it appends a view with the given name and table, empty sort and filter lists, and no hidden-field list, under the next id. The store stays consistent. |
| ViewRouter.Create | src/server/api/routers/view.ts:37-46 | An empty name is rejected with no change, and so is a table that does not exist. Otherwise it behaves as `createView`. |
| ViewRouter.OwnedView | src/server/api/routers/view.ts:56-65 | The lookup finds a view exactly when the view exists and its table's base is the caller's. |
| ViewRouter.CreatedViewFound | src/server/api/routers/view.ts:19-34 | A view just created for a table of the caller's is the view the update endpoints find under its id. |
| ViewRouter.UpdateSort | src/server/api/routers/view.ts:76-110 | Fails with "Error occurred" and changes nothing unless the caller owns the view. Otherwise the view's sort list becomes the input; its filters and hidden fields stay. |
| ViewRouter.ParseFilters | src/server/api/routers/view.ts:116-124 | The filter list is accepted exactly when every operator is one of the seven enum strings. It is then parsed entry by entry, id and optional value kept. |
| ViewRouter.ParseFiltersRoundTrip | src/server/api/routers/view.ts:7-17 | Filters written with their operators' names parse back to themselves. |
| ViewRouter.UpdateFilter | src/server/api/routers/view.ts:112-150 | An unknown operator is rejected. A view the caller does not own fails. Both failures change nothing. Otherwise only the view's filter list is replaced. |
| ViewRouter.UpdateHiddenFields | src/server/api/routers/view.ts:152-181 | Fails and changes nothing unless the caller owns the view. Otherwise only the view's hidden-field list is replaced. |
| ViewRouter.WithViewChangesOne | src/server/api/routers/view.ts:102-107 | Replacing a view's data changes that view only, and the number of views is unchanged. |
| ViewRouter.DeleteView | src/server/api/routers/view.ts:48-74 | Fails with "Error occurred" and changes nothing unless the caller owns the view. Otherwise the rows with that id are removed. |
| ViewRouter.DeleteViewRemovesOne | src/server/api/routers/view.ts:69-71 | Deleting removes exactly the matched view: one row fewer, every other view kept. |
| BaseRouter.Create | src/server/api/routers/base.ts:10-23 | An empty name is rejected with no change. Otherwise a base with that name, owned by the caller and stamped with the clock, is appended. |
| BaseRouter.Insert | src/server/api/routers/base.ts:27-30 | Placing a base into a newest-first list keeps it newest first and adds exactly that base. |
| BaseRouter.ByRecency | src/server/api/routers/base.ts:27-30 | The ordering by `modifiedAt` descending is newest first and a permutation of its input. |
| BaseRouter.GetAll | src/server/api/routers/base.ts:25-32 | The list is newest first, and every base in it is a base of the store owned by the caller. |
| BaseRouter.GetAllExact | src/server/api/routers/base.ts:25-32 | `getAll` lists exactly the caller's bases, each once, newest first. |
| BaseRouter.CreatedListed | src/server/api/routers/base.ts:10-32 | A base just created is listed for its owner. |
| BaseRouter.Delete | src/server/api/routers/base.ts:34-52 | Removes only the base matching both the id and the caller. It fails with "Error occured, no base deleted" and changes nothing when no base matched. |
| BaseRouter.DeleteExact | src/server/api/routers/base.ts:41-50 | Afterwards the caller has no base with that id, and every other base is kept. |
| BaseRouter.OwnedBase | src/server/api/routers/base.ts:62-71 | The lookup finds a base exactly when one with that id belongs to the caller. |
| BaseRouter.Rename | src/server/api/routers/base.ts:54-77 | An empty name is rejected. A missing or foreign base fails with "Base not found". Both failures change nothing. Otherwise only the base's name changes. |
| BaseRouter.Open | src/server/api/routers/base.ts:79-105 | A missing or foreign base fails with "Base not found" and nothing changes. Otherwise only the base's `modifiedAt` becomes the current time. |
| BaseRouter.WithBaseChangesOne | src/server/api/routers/base.ts:73-76 | Replacing a base's data changes that base only, and nothing else in the store. |
| BaseRouter.OpenedListedFirst | src/server/api/routers/base.ts:25-32 | A base opened later than every other base of the caller is the first one `getAll` lists. |
| FieldRouter.Create | src/server/api/routers/field.ts:5-21 | An empty name, then a type other than "Text"/"Number", then a table the caller does not own, each fail and add nothing. Otherwise a field with exactly that name, type and table is appended. |
| FieldRouter.CreatedFieldListed | src/server/api/routers/field.ts:18-20 | A field just created is the last of its table's fields, and the caller owns it. |
| FieldRouter.OwnedField | src/server/api/routers/field.ts:30-38 | The `where` matches a field exactly when the field's table's base is the caller's. |
| FieldRouter.Delete | src/server/api/routers/field.ts:23-40 | Removes the caller's field. A field the `where` does not match fails and changes nothing. |
| FieldRouter.DeleteRemovesOne | src/server/api/routers/field.ts:30-39 | Exactly that field is removed and every other field is kept. |
| FieldRouter.Rename | src/server/api/routers/field.ts:42-63 | An empty name is rejected. An unmatched field fails. Both failures change nothing. Otherwise only the field's name changes. |
| FieldRouter.RenameChangesOne | src/server/api/routers/field.ts:50-62 | Renaming keeps every other field and the number of fields, and the renamed field keeps its table and type. |
| Entities.ParseOpExact | src/server/api/routers/view.ts:7-17 | An operator string is accepted exactly when it is one of the enum values, and it parses back to the operator it names. |
| Entities.ParseFieldType | src/server/api/routers/field.ts:10 | "Text" and "Number" are the only accepted field types. |
| Entities.FilterNamesMatchEnums | src/app/_components/base/table.tsx:39-66 | The menus `numberFilters` and `textFilters` list exactly the number and text enum values, in enum order. |
| Js.FindIndex | src/app/_components/base/sort-option.tsx:42-44 | `findIndex` gives the first matching position, or -1 exactly when nothing matches. |
| Js.SpliceFound | src/app/_components/base/sort-option.tsx:42-47 | Splicing at the position `findIndex` found removes the first match. |
| Js.SpliceMinusOne | src/app/_components/base/sort-option.tsx:157-160 | `splice(-1, 1)` drops the last element. |
| Js.RemoveFirstKeeps | src/app/_components/base/hide-field-option.tsx:25 | Removing the first match keeps every other element, in order. |
| SortOption.FilteredFields | src/app/_components/base/sort-option.tsx:28-30 | Every field offered is a field of the table that no sort entry names. |
| SortOption.FilteredFieldsExact | src/app/_components/base/sort-option.tsx:28-30 | The fields offered are exactly those no sort entry names. |
| SortOption.SelectedSort | src/app/_components/base/sort-option.tsx:24-26 | The row's entry is found exactly when some entry names its field. |
| SortOption.Swap | src/app/_components/base/sort-option.tsx:36-50 | The handler's copy, append, `findIndex` and splice give `Swapped`: the row's entry goes and an ascending entry for the new field is appended. Only the sort list changes, and it is saved once loaded. |
| SortOption.SwapLength | src/app/_components/base/sort-option.tsx:36-48 | The length is unchanged when the old entry was present, and grows by one otherwise. |
| SortOption.SwapKeepsDistinct | src/app/_components/base/sort-option.tsx:28-41 | Pointing a row at an offered field keeps the entries' field ids distinct. |
| SortOption.SwapKeepsOthers | src/app/_components/base/sort-option.tsx:36-48 | Entries of other fields stay, in their order. |
| SortOption.SetDirection | src/app/_components/base/sort-option.tsx:94-100 | Sets `desc` on the row's entry. With no entry the non-null assertion fails and nothing changes. |
| SortOption.RedirectedExact | src/app/_components/base/sort-option.tsx:94-99 | Fails exactly when the row's field has no entry. Otherwise only that entry's `desc` changes; its id and every other entry stay. |
| SortOption.Remove | src/app/_components/base/sort-option.tsx:155-162 | The handler splices the copy at the row's entry's `findIndex`. Only the sort list changes. |
| SortOption.RemoveExact | src/app/_components/base/sort-option.tsx:155-161 | The row's entry is dropped and the others keep their order; the length drops by one. With no entry, -1 drops the last entry. |
| ViewNavbarSort.SortedFieldRowsExact | src/app/_components/base/view-navbar-sort.tsx:59-63 | A field gets a sort row exactly when an entry names it, in field order. It is never also an "add another sort" candidate, and the two lists together cover the fields. |
| ViewNavbarSort.Pick | src/app/_components/base/view-navbar-sort.tsx:106-134 | Both pick handlers set `Picked`, and only the sort list changes. |
| ViewNavbarSort.PickedAppends | src/app/_components/base/view-navbar-sort.tsx:95-134 | Picking appends an ascending entry and keeps the existing entries in order. An empty list becomes exactly that entry. An offered field never repeats a field id. |
| FilterOption.OperatorChoicesFit | src/app/_components/base/filter-option.tsx:135-138 | The operators offered are exactly the text operators for a Text field and the number operators for a Number field. Each is accepted by the filter schema, and the default operator of a newly chosen field is among them. |
| FilterOption.ChangeField | src/app/_components/base/filter-option.tsx:43-57 | Without a field or without a filter at the index, nothing changes. Otherwise the filter list becomes `FieldChanged` and is saved once loaded. |
| FilterOption.FieldChangedExact | src/app/_components/base/filter-option.tsx:44-55 | The change happens exactly when a field is given and a filter exists at the index. Only that filter is replaced, by the field's id, "<" for Number or "contains" for Text, and no value. The length is unchanged. |
| FilterOption.ChangeOperator | src/app/_components/base/filter-option.tsx:101-105 | The operator of the filter at the index is set. With no filter there, the property write fails and nothing changes. |
| FilterOption.Blur | src/app/_components/base/filter-option.tsx:155-159 | The value of the filter at the index is set to the text. With no filter there, the property write fails and nothing changes. |
| FilterOption.EditsChangeOnePart | src/app/_components/base/filter-option.tsx:101-104 | The operator and value edits change that one part of the filter at the index and nothing else. |
| FilterOption.RemoveAt | src/app/_components/base/filter-option.tsx:165-169 | The copy is spliced at the index. Only the filter list changes. |
| FilterOption.RemoveAtExact | src/app/_components/base/filter-option.tsx:165-168 | At an index of the list, exactly that filter is dropped and the others keep their order. |
| HideFieldOption.OnChange | src/app/_components/base/hide-field-option.tsx:23-28 | The copy is spliced at `indexOf` or pushed, giving `Toggled`. Only the hidden-field list changes. |
| HideFieldOption.Toggled | src/app/_components/base/hide-field-option.tsx:21-27 | The switch shortens the list by one when the id is hidden and lengthens it by one when it is shown. It adds no id other than the switched one. |
| HideFieldOption.ToggledExact | src/app/_components/base/hide-field-option.tsx:21-27 | A shown field's id is appended. A hidden field's id loses one occurrence. Other ids stay, in their order. |
| HideFieldOption.ToggleFlips | src/app/_components/base/hide-field-option.tsx:21-27 | On a list without repeats, a toggle flips shown/hidden and introduces no repeats. Toggling twice restores the membership, and restores the list itself when the field was shown. |
| ViewSession.Session.constructor | src/app/_components/base/view.tsx:61-64 | The page starts with empty lists, not loaded, nothing sent. |
| ViewSession.Session.SetSorting | src/app/_components/base/view.tsx:82-85 | Sets the sort list and sends `updateSort` with it only once loaded. |
| ViewSession.Session.SetFilters | src/app/_components/base/view.tsx:77-80 | Sets the filter list and sends `updateFilter` with it only once loaded. |
| ViewSession.Session.SetHiddenFields | src/app/_components/base/view.tsx:87-89 | Sets the hidden-field list and sends `updateHiddenFields` with it only once loaded. |
| ViewSession.Session.UpdateView | src/app/_components/base/view.tsx:67-73 | The current view's lists become the state, with a missing hidden-field list read as [], and the page is marked loaded. A missing view fails on the property read. |
| ViewSession.CurrentView | src/app/_components/base/view.tsx:68 | The view is found exactly when one with the page's id is listed. |
| ViewSession.EditBeforeLoad | src/app/_components/base/view.tsx:77-89 | Edits before loading send nothing. |
| ViewSession.LoadThenSort | src/app/_components/base/view.tsx:67-89 | After loading, a sort edit sends exactly that edit. |
| ViewSession.VisibleFields | src/app/_components/base/view.tsx:156 | Every field the grid gets is a field of the table whose id is not hidden. Hiding nothing gives every field, in order. |
| ViewSession.VisibleFieldsExact | src/app/_components/base/view.tsx:156 | The grid gets exactly the fields whose id is not hidden, in their order. Hiding nothing shows every field. |
| ViewSession.NewViewName | src/app/_components/base/view.tsx:122-126 | A new view is named "View " followed by the view count plus one. |
| ViewSession.NewViewNameInjective | src/app/_components/base/view.tsx:122-126 | Different view counts give different names. |
| ViewSession.CanDelete | src/app/_components/base/view.tsx:115 | Delete is offered exactly when the table has a view and removing any one of its views leaves another. |
| ViewSession.CanDeleteLeavesOne | src/app/_components/base/view.tsx:115 | Deleting a view offered for deletion leaves at least one view. |
| Grid.Types | src/app/_components/base/table.tsx:98-102 | Every field's id string is a key of the map. The last field's entry holds its type, since a later spread overwrites an earlier one. |
| Grid.TypesExact | src/app/_components/base/table.tsx:98-102 | `types` has exactly the fields' id strings as keys. With distinct ids, each maps to its field's type. |
| Grid.Columns | src/app/_components/base/table.tsx:108-193 | The columns are "id", then one per field, in field order, with the field's id string as column id. |
| Grid.ColumnsDistinct | src/app/_components/base/table.tsx:108-193 | With distinct field ids, no two columns share an id. |
| Grid.UpdateData | src/app/_components/base/table.tsx:227-239 | The length is kept, and every row but the one at the index is unchanged. |
| Grid.UpdateDataExact | src/app/_components/base/table.tsx:227-239 | In the row at the index, only the column changes. An index outside the rows changes nothing, and the update is idempotent. |
| Grid.AllRecords | src/app/_components/base/table.tsx:216-220 | A record is in the grid exactly when it is in one of the fetched pages. |
| Grid.AllRecordsAppend | src/app/_components/base/table.tsx:216-220 | A new page appends its records after the rows already loaded. |
| Grid.AllRecordsSize | src/app/_components/base/table.tsx:216-220 | The grid holds as many rows as the pages hold records. |
| Grid.AllRecordsAt | src/app/_components/base/table.tsx:216-220 | Record k of page p sits after all records of the earlier pages. |
| Grid.ShouldFetchMore | src/app/_components/base/table.tsx:265-282 | A fetch is asked for only within 500px of the bottom. Never while a fetch is in flight, and never with no cursor or a cursor of 0. |
| Grid.FetchMoreNeeds | src/app/_components/base/table.tsx:265-282 | A fetch happens only within 500px of the bottom, with no fetch in flight and a truthy cursor; a cursor of 0 or none never fetches. |
| Common.IdStringInjective | src/app/_components/base/table.tsx:173 | Field ids rendered as strings are distinct for distinct ids, so string keys identify fields. |

## Left out

- The view-query engine: joins per field, compiled filters, sort and null ordering, and `nextCursor` arithmetic. It is not in this code. `getRecords` (src/server/api/routers/table.ts:159-200) takes no view id and applies no sort or filter. It returns a plain, id-ordered offset/size page of the caller's records. The client code expects a sorted, filtered page with a `nextCursor` (src/app/_components/base/table.tsx:200-220); the server code does not provide one.
- The client's record query sends `viewId` and `limit` and reads `nextCursor` and `page.records` (src/app/_components/base/table.tsx:200-220). The server accepts none of these and returns a bare list. The grid's helpers are modelled against the client's own contract, and the mismatch is not modelled.
- Prisma and SQL themselves: the store is in-memory row sequences. Prisma's `findFirst` without `orderBy` is taken to return the first match in id order.
- Foreign-key actions of the database schema: the schema is not part of this model. `field.delete` and `base.delete` remove only their own row, as the router code does. The model checks only that a referenced base or table exists (`ForeignKey`), on the inserts of `createView`, `view.create`, `createRecords` and `createTable`. Referential actions on delete (cascades) are not modelled. `createTable` does not check that the caller owns the base, and the model does not either.
- Transactions: the steps of `createTable` and `deleteTable` are separate writes. The model states their combined effect; a failure between steps is modelled only for a record count `Array` refuses.
- RecordRouter.Create, RecordRouter.CreateRecords, TableRouter.Create, TableRouter.CreateTable, TableRouter.GetRecords: counts, offsets and sizes are integers in the model. The schema's `z.number()` (src/server/api/routers/record.ts:61, src/server/api/routers/table.ts:97, src/server/api/routers/table.ts:164-165) also accepts fractions such as 1.5. The source then throws RangeError from `Array(1.5)`, or the database refuses a fractional `skip`/`take`. Those inputs are not modelled.
- RecordRouter.GenValue: field names that are members of `Object.prototype` ("toString", "constructor", "valueOf", "__proto__", ...) are treated as having no generator, so they get the faker default. In the source, `generators[field.name]?.()` finds the inherited member. It calls it (a "[object Object]" string, or an object the insert later refuses after the records are written), or throws TypeError for "__proto__".
- Grid.ShouldFetchMore: scroll metrics are integers in the model; the browser's `scrollTop` may be fractional.
- Floating point: number cells hold integers. `Number()` parsing in table-cell.tsx is not part of this model.
- The random source (faker) and the clock are parameters. `RecordRouter.Faker` gives the draw for each (record, field), and `now` is the time.
- RecordRouter.DefaultValuesInRange: the 0..1000 and 1..5 ranges are assumptions about the random source, stated by `InRange`. They are not proved from faker.
- Ids are natural numbers from one counter, in place of autoincrement ids and cuid strings. Only equality and creation order are used.
- BaseRouter.GetAll: bases with equal `modifiedAt` are listed in one fixed order (an inserted base goes before the first that is not newer). The database's tie order is unspecified.
- BaseRouter.Rename: whether the database also refreshes `modifiedAt` on every update depends on the schema, which is not part of this model. Only the name is changed.
- BaseRouter.Create: the database default of `modifiedAt` is not visible, so the creation time is the `now` parameter.
- `getLatestView` (src/server/api/routers/table.ts:73-89) is not modelled. It is not one of the operations this model covers.
- React effect timing and asynchronous `mutate`/`invalidate` ordering. The three save effects are modelled as firing with each setter call, as `ViewSession.Session` states. The echo save that the effects send right after `updateView` loads a view (the lists change while `loaded` is being set) is not modelled: `UpdateView` sends nothing.
- Aliasing of the in-place property writes in the client handlers (`sort!.desc = value`, `newFilters[fieldIdx]!.type = ...`, `.value = ...`). These also change the entry shared with the old list. The model treats lists as values.
- FilterOption.OperatorChoicesFit: the `[]` fallback for a field type other than Text or Number cannot arise, because field types are only those two.
- The selected-field state of the sort and filter rows (`setSelected`) is not modelled. The handlers take the row's field as a parameter.
- Authentication, sessions and page routing; every presentation component; row virtualisation; the row-number column's rendering; table-cell.tsx.
