# UFO-DB storage engine in Dafny

This project models the storage engine of UFO-DB (`UFOBase.h`), a small in-memory record
store. It has three layers:

- **Records** (`UFORecords`): a record is a map from field name to string value. `add`
  upserts a field. `getField` returns the empty string for a missing field.
- **Tables** (`UFOTable`): a table has a name, a fixed column list, an ordered sequence of
  records and a `nextID` counter. `insertRecord` stamps the record's `"id"` field with the
  counter and advances it. `selectWhere` filters by one field. `updateRecord` upserts into
  the first record with a given id. `deleteRecord` removes every record with that id.
- **Store** (`UFO_DB`): a map from table name to table, plus a `currentTable` name. It routes
  operations to tables and checks for errors. It also writes and reads the line-oriented
  save file.

Each C++ `throw` becomes a `DbError` value (module `Errors`). The engine's `int` is the subtype
`Int32`, and `std::to_string`/`>>` on it are `IntToString`/`ParseInt` (module `Decimal`).

The functional core is value-level: the datatype `TableValue` and the functions `Inserted`,
`Select`, `Updated` and `Deleted`. The C++ objects that change in place are classes proved
against those functions:
- `Tables.Table` has `records` and `nextID` fields.
- `Store.Db` has `tables` and `currentTable` fields; `Db.Snapshot()` gives its value, a
  map from name to `TableValue`.

`UFORecords` is copied by value in the C++ (it is pushed into the vector as a copy), so it is
a datatype here. An in-place write to a record replaces that element of the table's sequence.

The save file is modelled as its sequence of lines. `Format.SaveLines` is the encoder.
`Format.LoadStore` is the decoder. On a well-formed file it replays `loadFromFile`, which
calls `createTable` for each table and `insert` for each record. On a malformed file it
stops where the C++ would read zeros or empty strings and go on (see "## Left out").
`Db.Save` and `Db.Load` are the loops that implement them. Their table and record loops are split into helper methods:
`LoadTable`, `CreateAndFill`, `FillTable`, `ReadCounters` and `ReadRecords`.

The model follows these behaviours of the code:

- **Load renumbers ids.** The loader reads each record's id token, but then calls `insert`,
  and `insertRecord` overwrites `"id"` with the counter. So a table saved with counter N and
  k records reloads with ids N, …, N+k-1, and its counter ends at N+k (`Format.Reloaded`,
  `Format.LoadSaved`). Ids do not survive a reload. In a table built by inserts and deletes,
  every id is below the counter, so no record keeps its id across a save and reload
  (`Format.ReloadChangesIds`).
- **Load keeps `currentTable`.** It clears the tables only.
- **A repeated table name stops the load.** `createTable` throws `DuplicateTable`, and the
  tables read before it stay (`Format.LoadDuplicateBlock`). The loader never replaces a table
  it has read, and every loaded table is stored under its own name (`Format.LoadStore`).
- **Delete removes every record with the id**, not just one.
- **Update may rewrite `"id"`**, so ids are unique only under inserts and deletes
  (`Tables.FreshTableIds`).
- **Only declared columns are saved.** Fields outside the column list are lost on reload.

## Model

| member | source | states |
|---|---|---|
| `Records.Record.Get` | UFOBase.h:22-25 | getField returns the stored value, or "" when the field is missing |
| `Records.AddGet` | UFOBase.h:18-20 | after add, the field reads as the new value and every other field is unchanged; the key set gains the field |
| `Records.AddTwice` | UFOBase.h:18-20 | adding the same field twice keeps only the second value |
| `Records.BuildGet` | UFOBase.h:149-152 | the record built column by column has exactly the columns as fields; a repeated column holds the value at its last position; other fields read "" |
| `Tables.Inserted` | UFOBase.h:39-43 | insertRecord adds exactly one record, advances the counter by one, and keeps name and columns |
| `Tables.InsertedRecords` | UFOBase.h:39-43 | earlier records are unchanged; the new last record carries the old counter as its id, overriding a caller's id; its other fields are as given |
| `Tables.Table.constructor` | UFOBase.h:37 | a new table has the given name and columns, no records and counter 1 |
| `Tables.Table.InsertRecord` | UFOBase.h:39-43 | the table's new value is Inserted of its old value |
| `Tables.Select` | UFOBase.h:52-57 | selectWhere keeps exactly the records whose field reads as the value (a missing field reads "") |
| `Tables.SelectAppend` | UFOBase.h:54-55 | selecting from a concatenation is the concatenation of the selections, so the table order is kept |
| `Tables.SelectSingle` | UFOBase.h:54-55 | a single record is kept iff it matches; with SelectAppend this fixes the result as the in-order filter |
| `Tables.Table.SelectWhere` | UFOBase.h:52-57 | the records of this table that match, in table order |
| `Tables.FindId` | UFOBase.h:60-61 | find_if returns the first record with the id, or the end when none has it |
| `Tables.ApplyUpdates` | UFOBase.h:64-66 | each update key is upserted into the record; every other field is kept |
| `Tables.WriteUpdates` | UFOBase.h:64-66 | the loop over the updates produces ApplyUpdates |
| `Tables.Updated` | UFOBase.h:59-71 | fails with RecordNotFound iff no record has the id; otherwise only the first record with the id changes, and name, columns and counter are kept |
| `Tables.Table.UpdateRecord` | UFOBase.h:59-71 | success changes the table as Updated says; failure leaves it unchanged |
| `Tables.DeletedMembers` | UFOBase.h:75-78 | remove_if + erase keeps exactly the records without the id |
| `Tables.DeletedAppend` | UFOBase.h:75-78 | deleting from a concatenation is concatenating the deletions, so the survivors keep their relative order |
| `Tables.DeletedShrinks` | UFOBase.h:74-82 | something is removed iff some record has the id |
| `Tables.DeleteTwice` | UFOBase.h:74-82 | a second delete of the same id finds nothing and changes nothing |
| `Tables.DeletedNoMatch` | UFOBase.h:77-81 | deleting an id that no record has leaves the records as they are |
| `Tables.Table.DeleteRecord` | UFOBase.h:74-82 | the records become Deleted of the old ones, and the result is true iff some record had the id |
| `Tables.RunKeepsIds` | UFOBase.h:39-43 | under inserts and deletes, ids stay increasing and below the counter, and the counter grows by the number of inserts |
| `Tables.FreshTableIds` | UFOBase.h:33 | from a fresh table, the counter is 1 plus the number of inserts, and no record has the id the next insert will assign, so ids are never reused |
| `Tables.PeopleScenario` | UFOBase.h:140-155 | create people(name, age), add Ann and Bo, delete id 1, then add Cy: Cy gets id 3 and Bo keeps id 2 |
| `Decimal.ParseIntToString` | UFOBase.h:230-233 | reading back the decimal text of an int gives the same int |
| `Decimal.IntToStringInjective` | UFOBase.h:61 | two ids have equal decimal text iff they are equal |
| `Decimal.IntToStringNoSeparator` | UFOBase.h:194 | the decimal text of an int contains no bar character and no line break |
| `Store.Db.constructor` | UFOBase.h:107-108 | a new store has no tables and an empty current-table name |
| `Store.Db.CreateTable` | UFOBase.h:110-115 | an existing name fails with DuplicateTable and leaves the tables untouched; otherwise a fresh empty table with counter 1 is added under the name |
| `Store.Db.SetCurrentTable` | UFOBase.h:117-122 | a missing table fails with TableNotFound and leaves currentTable as it was; otherwise currentTable becomes the name; tables never change |
| `Store.Db.Insert` | UFOBase.h:124-129 | a missing table fails with no state change; otherwise only that table changes, as Inserted says |
| `Store.Db.Select` | UFOBase.h:132-137 | a missing table fails with TableNotFound; otherwise the table's records come back in order |
| `Store.Db.AddData` | UFOBase.h:140-155 | fails with no insert on a missing table or when the value count differs from the column count; otherwise inserts Build(columns, data) |
| `Store.Db.Update` | UFOBase.h:158-163 | a missing table fails with no state change; otherwise the table changes as Updated says, and a missing id leaves everything unchanged |
| `Store.Db.DeleteRecordFromTable` | UFOBase.h:166-171 | false for a missing table; otherwise true iff a record had the id, and only that table changes, as Deleted says |
| `Format.Project` | UFOBase.h:191-193 | a record line carries getField of each declared column, in column order |
| `Format.TableLines` | UFOBase.h:183-195 | a table block is 4 lines plus one per column and one per record |
| `Format.IndexOfBarFirst` | UFOBase.h:249 | the split point getline finds is the first bar character, or the end of the line |
| `Format.RecordLineRoundTrip` | UFOBase.h:241-254 | splitting a saved record line as the loader does gives back each column's value and the id, when none of them contains a bar character |
| `Store.WriteRecordLine` | UFOBase.h:191-194 | the loop writes getField(c) followed by a bar character for each column, then the id |
| `Store.WriteRecordLines` | UFOBase.h:190-195 | one record line per record, in vector order |
| `Store.WriteTable` | UFOBase.h:182-195 | the block of one table is TableLines of its value |
| `Store.EnumerationOf` | UFOBase.h:181 | the table loop visits every key exactly once, in an order left open |
| `Store.WriteTables` | UFOBase.h:181-196 | the blocks of the tables, in the enumeration order |
| `Store.SaveTables` | UFOBase.h:180-196 | the count line and then the blocks, for some enumeration of the keys |
| `Store.Db.Save` | UFOBase.h:174-198 | the file is SaveLines of the store's value for some enumeration order; the store is unchanged |
| `Records.Record.Add` | UFOBase.h:18-20 | after add, the field reads as the given value |
| `Records.Build` | UFOBase.h:149-152 | in the record built by adding each column's value in turn, the last column reads as the last value (`BuildGet` gives every column) |
| `Tables.Deleted` | UFOBase.h:75-78 | remove_if + erase leaves no record with the id, and never more records than before |
| `Tables.DeleteOne` | UFOBase.h:74-82 | with ids increasing below the counter, as inserts and deletes keep them, deleting a present id removes exactly one record |
| `Decimal.IntToString` | UFOBase.h:41 | std::to_string of an int is a nonempty text that starts with '-' exactly when the int is negative |
| `Decimal.ParseInt` | UFOBase.h:210 | reading an int succeeds only on a nonempty line, and a negative value only after a leading '-'; `ParseIntToString` reads back every to_string text |
| `Format.RecordLine` | UFOBase.h:191-194 | a record line has at least one bar character per column, ends with the id field, and has a bar character just before the id when there are columns |
| `Format.SaveLines` | UFOBase.h:180-196 | the first line of the file is the number of tables, whatever the enumeration order |
| `Format.NextField` | UFOBase.h:249 | getline on a bar character: once the stream is at its end it fails and keeps the previous value; a read that reaches the end takes the whole rest of the line |
| `Format.NextFieldConsumes` | UFOBase.h:249 | a read before the end gives a value with no bar character, and the text consumed is that value followed by the bar it stopped at, if any |
| `Format.ParseRecordLine` | UFOBase.h:253-254 | the "id" field of the record read from a line holds the token after the last column |
| `Format.ParseRecordLineFields` | UFOBase.h:242-254 | the record read from a line has exactly the declared columns and "id" as fields, and a column holds the value read at its last position |
| `Format.LoadStore` | UFOBase.h:207-256 | every table the load produces, complete or partial, is stored under its own name |
| `Format.LoadTablesKeeps` | UFOBase.h:214-227 | the table loop (`LoadTables`) never replaces a table already read, and keeps tables keyed by their names |
| `Format.LoadCountersKeeps` | UFOBase.h:227-239 | after createTable of a new name, the rest of the header (`LoadCounters`) leaves that table in the result with its declared columns, and the earlier tables stay |
| `Format.LoadRecordsKeeps` | UFOBase.h:241-255 | the record loop (`LoadRecords`) leaves its table in the result with its columns, and the earlier tables stay |
| `Format.LoadDuplicateBlock` | UFOBase.h:225-227 | a file whose second block repeats the first block's name loads the first table, then stops with DuplicateTable, keeping that table |
| `Store.ReadColumns` | UFOBase.h:222-225 | the column names are the lines after the column count |
| `Store.ReadRecordLine` | UFOBase.h:242-254 | the record built from a line is ParseRecordLine of it |
| `Store.ReadRecords` | UFOBase.h:241-256 | the record loop inserts each parsed line through insertRecord, as LoadRecords says |
| `Store.ReadCounters` | UFOBase.h:230-239 | the counter line sets nextID, then the record-count line starts the record loop, as LoadCounters says |
| `Store.Db.FillTable` | UFOBase.h:230-256 | filling the new table changes the snapshot at that table only |
| `Store.Db.CreateAndFill` | UFOBase.h:227 | createTable during a load fails on a name already loaded; otherwise the table is filled |
| `Store.Db.LoadTable` | UFOBase.h:214-257 | one turn of the table loop ends as LoadTables says: the remaining lines and Ok, or the error with the tables built so far |
| `Store.Db.Load` | UFOBase.h:201-259 | the tables become LoadStore of the lines, the status is its status, every table is new, and currentTable is unchanged |
| `Format.LoadTableBlock` | UFOBase.h:214-257 | the block of a saved table reads back as its Reloaded table |
| `Format.Reloaded` | UFOBase.h:253-255 | a reloaded table keeps name, columns and record count, and its counter is the saved counter plus the record count |
| `Format.ReloadedFields` | UFOBase.h:248-255 | the reloaded record i has id nextID + i, keeps every declared column's value, and has no other fields |
| `Format.ReloadChangesIds` | UFOBase.h:253-255 | in a table whose ids are below its counter, no reloaded record keeps its saved id |
| `Format.LoadSaved` | UFOBase.h:207-258 | loading a saved store succeeds, whatever the table order: every table comes back under its name as Reloaded, when no string has a line break and no value or id has a bar character |

## Left out

- Console output is not modelled: `selectAll`, `printHeader`, `printRecord`, and the printing
  done by `select`. `Db.Select` keeps the table check and returns the records instead.
- Opening and closing files, and the throws when a file cannot be opened, are not modelled.
  Save produces the file's lines and load consumes them.
- `Format.LoadCounters` (with `Format.LoadStore`, `Format.LoadTables` and
  `Store.ReadCounters`) does not model the stream edge cases of `>>` and `ignore()`. A count or counter line is read
  only when it is exactly an optional '-' and digits within 32 bits; any other line, or a
  missing line, ends the load with `Malformed`, keeping the tables created so far. The C++
  would read a zero there (a failed `>>`) and go on.
- `Format.LoadRecords` (with `Store.ReadRecords`): a missing record line ends the load with
  `Malformed`. The C++ `getline` would leave the
  line empty, and the loop would insert a record whose every column reads "".
- A missing table-name line, or a negative or too-large column count, also ends the load with
  `Malformed`.
- The enumeration order of `unordered_map` is not modelled. `Db.Save` picks an arbitrary
  order and returns it, and `LoadSaved` holds for every order.
- `Tables.Table.InsertRecord`, `Store.Db.Insert` and `Store.Db.AddData` require the counter
  to be below INT_MAX when they reach the insert (for `AddData`, only when the table exists
  and the value count matches), because `nextID++` at INT_MAX is signed overflow in C++. Load checks the
  same bound and stops with `CounterOverflow` instead.
- `std::to_string` is modelled as plain decimal with a leading '-'.
- Exceptions are not modelled as a mechanism. Each throw is an error value, and a partial
  load leaves the state the C++ would leave.
- `main.cpp` (the interactive menu) is not part of this model.
