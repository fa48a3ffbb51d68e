/**
 * UFO_DB: the tables by name, the name of the current table, the routed
 * operations that reach one table by its name, and saving to and loading
 * from the save file (modelled as its lines, see module Format).
 */
module Store {
  import opened Decimal
  import opened Errors
  import opened Records
  import opened Tables
  import opened Format

  class Db {
    var tables: map<string, Table>
    var currentTable: string

    /**
     * Each table is stored under its own name (so, since a table's name never
     * changes, no two names share a table object).
     */
    ghost predicate Valid()
      reads this, tables.Values
    {
      forall n :: n in tables ==> tables[n].name == n
    }

    /** The value of every table, by name. */
    function Snapshot(): (s: map<string, TableValue>)
      reads this, tables.Values
      ensures s.Keys == tables.Keys
    {
      map n | n in tables :: tables[n].Value()
    }

    /** A change confined to the table stored under `name` changes the snapshot at `name` only. */
    twostate lemma OnlyTableChanged(name: string)
      requires old(Valid()) && name in old(tables) && tables == old(tables)
      requires forall n :: n in tables && n != name ==> unchanged(tables[n])
      ensures Valid()
      ensures Snapshot() == old(Snapshot())[name := tables[name].Value()]
    {
      forall n | n in tables
        ensures Snapshot()[n] == old(Snapshot())[name := tables[name].Value()][n]
      {
      }
    }

    /** A new store: no tables, no current table. */
    constructor ()
      ensures Valid() && Snapshot() == map[] && currentTable == ""
    {
      tables := map[];
      currentTable := "";
    }

    /** createTable: a fresh empty table under a new name; a name in use is an error. */
    method CreateTable(name: string, columns: seq<string>) returns (s: Status)
      requires Valid()
      modifies this
      ensures Valid() && currentTable == old(currentTable)
      ensures name in old(tables) ==> s == Err(DuplicateTable(name)) && tables == old(tables)
      ensures name !in old(tables) ==>
        s == Ok && name in tables && fresh(tables[name]) && tables == old(tables)[name := tables[name]] &&
        Snapshot() == old(Snapshot())[name := EmptyTable(name, columns)]
    {
      if name in tables {
        return Err(DuplicateTable(name));
      }
      var t := new Table(name, columns);
      tables := tables[name := t];
      s := Ok;
    }

    /** setCurrentTable: only the name of an existing table is accepted. */
    method SetCurrentTable(tableName: string) returns (s: Status)
      requires Valid()
      modifies this
      ensures Valid() && tables == old(tables) && Snapshot() == old(Snapshot())
      ensures tableName in tables ==> s == Ok && currentTable == tableName
      ensures tableName !in tables ==> s == Err(TableNotFound(tableName)) && currentTable == old(currentTable)
    {
      if tableName !in tables {
        return Err(TableNotFound(tableName));
      }
      currentTable := tableName;
      s := Ok;
    }

    /** insert: insertRecord on the named table; every other table is left as it was. */
    method Insert(tableName: string, record: Record) returns (s: Status)
      requires Valid()
      requires tableName in tables ==> tables[tableName].nextID < INT_MAX
      modifies tables.Values
      ensures Valid()
      ensures tableName !in tables ==> s == Err(TableNotFound(tableName)) && Snapshot() == old(Snapshot())
      ensures tableName in tables ==>
        s == Ok && Snapshot() == old(Snapshot())[tableName := Inserted(old(Snapshot())[tableName], record)]
    {
      if tableName !in tables {
        return Err(TableNotFound(tableName));
      }
      tables[tableName].InsertRecord(record);
      OnlyTableChanged(tableName);
      s := Ok;
    }

    /**
     * select: a missing table is an error; otherwise the records selectAll
     * would print, in table order.
     */
    method Select(tableName: string) returns (s: Status, rows: seq<Record>)
      requires Valid()
      ensures tableName !in tables ==> s == Err(TableNotFound(tableName)) && rows == []
      ensures tableName in tables ==> s == Ok && rows == Snapshot()[tableName].records
    {
      if tableName !in tables {
        return Err(TableNotFound(tableName)), [];
      }
      s := Ok;
      rows := tables[tableName].records;
    }

    /**
     * addData: fails on a missing table or on a value count other than the
     * column count; otherwise inserts the record holding data[i] under
     * column i.
     */
    method AddData(tableName: string, data: seq<string>) returns (s: Status)
      requires Valid()
      requires tableName in tables && |data| == |tables[tableName].columns| ==> tables[tableName].nextID < INT_MAX
      modifies tables.Values
      ensures Valid()
      ensures tableName !in tables ==> s == Err(TableNotFound(tableName)) && Snapshot() == old(Snapshot())
      ensures tableName in tables && |data| != |tables[tableName].columns| ==>
        s == Err(ArityMismatch(|tables[tableName].columns|, |data|)) && Snapshot() == old(Snapshot())
      ensures tableName in tables && |data| == |tables[tableName].columns| ==>
        s == Ok && Snapshot() == old(Snapshot())[tableName :=
          Inserted(old(Snapshot())[tableName], Build(tables[tableName].columns, data))]
    {
      if tableName !in tables {
        return Err(TableNotFound(tableName));
      }
      var t := tables[tableName];
      if |data| != |t.columns| {
        return Err(ArityMismatch(|t.columns|, |data|));
      }
      var record := Empty;
      for i := 0 to |t.columns|
        invariant record == Build(t.columns[..i], data[..i])
      {
        assert t.columns[..i + 1][..i] == t.columns[..i] && data[..i + 1][..i] == data[..i];
        record := record.Add(t.columns[i], data[i]);
      }
      assert t.columns[..|t.columns|] == t.columns && data[..|data|] == data;
      t.InsertRecord(record);
      OnlyTableChanged(tableName);
      s := Ok;
    }

    /** update: updateRecord on the named table, whose missing id is an error too. */
    method Update(tableName: string, id: Int32, updates: map<string, string>) returns (s: Status)
      requires Valid()
      modifies tables.Values
      ensures Valid()
      ensures tableName !in tables ==> s == Err(TableNotFound(tableName)) && Snapshot() == old(Snapshot())
      ensures tableName in tables ==>
        var u := Updated(old(Snapshot())[tableName], id, updates);
        if u.Success? then s == Ok && Snapshot() == old(Snapshot())[tableName := u.value]
        else s == Err(u.error) && Snapshot() == old(Snapshot())
    {
      if tableName !in tables {
        return Err(TableNotFound(tableName));
      }
      s := tables[tableName].UpdateRecord(id, updates);
      OnlyTableChanged(tableName);
    }

    /** deleteRecordFromTable: false for a missing table, else whether deleteRecord removed anything. */
    method DeleteRecordFromTable(tableName: string, id: Int32) returns (removed: bool)
      requires Valid()
      modifies tables.Values
      ensures Valid()
      ensures tableName !in tables ==> !removed && Snapshot() == old(Snapshot())
      ensures tableName in tables ==>
        var t := old(Snapshot())[tableName];
        (removed <==> AnyHasId(t.records, id)) &&
        Snapshot() == old(Snapshot())[tableName := t.(records := Deleted(t.records, id))]
    {
      if tableName !in tables {
        return false;
      }
      removed := tables[tableName].DeleteRecord(id);
      OnlyTableChanged(tableName);
    }

    /**
     * saveToFile: the table count, then the block of each table, in the
     * enumeration order of the map, which the model leaves open: `order` is
     * the order this run chose.
     */
    method Save() returns (lines: seq<string>, order: seq<string>)
      ensures IsEnumeration(order, Snapshot().Keys)
      ensures lines == SaveLines(order, Snapshot())
    {
      lines, order := SaveTables(tables, Snapshot());
    }

    /**
     * loadFromFile: clears the tables, then reads them back one by one,
     * creating each with createTable and inserting each record line with
     * insert. On a failure the tables read so far stay; the current table
     * is never touched.
     */
    method Load(lines: seq<string>) returns (s: Status)
      modifies this
      ensures Valid() && currentTable == old(currentTable)
      ensures forall n :: n in tables ==> fresh(tables[n])
      ensures Snapshot() == LoadStore(lines).tables && s == LoadStore(lines).status
    {
      tables := map[];
      var tableCount := ReadInt(lines, 0);
      if tableCount.None? {
        return Err(Malformed);
      }
      var rest := lines[1..];
      assert Snapshot() == map[];
      assert LoadStore(lines) == LoadTables(rest, tableCount.value, map[]);
      var i := 0;
      while i < tableCount.value
        invariant Valid() && currentTable == old(currentTable)
        invariant forall n :: n in tables ==> fresh(tables[n])
        invariant LoadTables(rest, tableCount.value - i, Snapshot()) == LoadStore(lines)
        decreases tableCount.value - i
      {
        s, rest := LoadTable(rest, tableCount.value - i);
        if s.Err? {
          return;
        }
        i := i + 1;
      }
      assert LoadTables(rest, tableCount.value - i, Snapshot()) == Loaded(Snapshot(), Ok);
      s := Ok;
    }

    /**
     * One turn of the table loop of loadFromFile: the header of a table read,
     * the table made by createTable and given the counter read, then its
     * record lines read and inserted. It ends as LoadTables says: with the
     * lines after the table and Ok, or with the error that stopped it.
     */
    method LoadTable(lines: seq<string>, ghost remaining: int) returns (s: Status, rest: seq<string>)
      requires Valid() && remaining > 0
      modifies this
      ensures Valid() && currentTable == old(currentTable)
      ensures forall n :: n in old(tables) ==> n in tables && tables[n] == old(tables)[n]
      ensures forall n :: n in tables && n !in old(tables) ==> fresh(tables[n])
      ensures s.Ok? ==> LoadTables(rest, remaining - 1, Snapshot()) == LoadTables(lines, remaining, old(Snapshot()))
      ensures s.Err? ==> Loaded(Snapshot(), s) == LoadTables(lines, remaining, old(Snapshot()))
    {
      ghost var before := Snapshot();
      LoadTablesCases(lines, remaining, before);
      rest := lines;
      if lines == [] {
        return Err(Malformed), rest;
      }
      var tableName := lines[0];
      var columnCount := ReadInt(lines, 1);
      if columnCount.None? || columnCount.value < 0 || 2 + columnCount.value > |lines| {
        return Err(Malformed), rest;
      }
      var p := 2 + columnCount.value;
      var columns := ReadColumns(lines, p);
      s, rest := CreateAndFill(tableName, columns, lines[p..], remaining);
    }

    /**
     * createTable for a table header just read, then the rest of the table
     * filled in by FillTable; a name already loaded stops the load.
     */
    method CreateAndFill(tableName: string, columns: seq<string>, lines: seq<string>, ghost remaining: int)
      returns (s: Status, rest: seq<string>)
      requires Valid() && remaining > 0
      modifies this
      ensures Valid() && currentTable == old(currentTable)
      ensures forall n :: n in old(tables) ==> n in tables && tables[n] == old(tables)[n]
      ensures forall n :: n in tables && n !in old(tables) ==> fresh(tables[n])
      ensures var l := if tableName in old(tables) then Loaded(old(Snapshot()), Err(DuplicateTable(tableName)))
                       else LoadCounters(lines, EmptyTable(tableName, columns), old(Snapshot()), remaining);
        if s.Ok? then l == LoadTables(rest, remaining - 1, Snapshot()) else l == Loaded(Snapshot(), s)
    {
      ghost var before := Snapshot();
      rest := lines;
      s := CreateTable(tableName, columns);
      if s.Err? {
        return;
      }
      assert before == Snapshot() - {tableName};
      s, rest := FillTable(tableName, lines, remaining);
    }

    /**
     * The table `tableName` that createTable has just made, filled from the
     * counter line on (see ReadCounters); the other tables stay as they are.
     */
    method FillTable(tableName: string, lines: seq<string>, ghost remaining: int) returns (s: Status, rest: seq<string>)
      requires Valid() && tableName in tables
      modifies tables[tableName]
      ensures Valid()
      ensures var l := LoadCounters(lines, old(Snapshot())[tableName], old(Snapshot()) - {tableName}, remaining);
        if s.Ok? then l == LoadTables(rest, remaining - 1, Snapshot())
        else l == Loaded(Snapshot(), s)
    {
      ghost var acc := Snapshot() - {tableName};
      var t := tables[tableName];
      s, rest := ReadCounters(t, lines, acc, remaining);
      ghost var after := Snapshot();
      assert after.Keys == acc.Keys + {tableName};
      forall n | n in after
        ensures after[n] == acc[tableName := t.Value()][n]
      {
        if n != tableName {
          assert tables[n] != t;
        }
      }
      assert after == acc[t.name := t.Value()];
    }
  }

  /** The column lines of a table header: `std::getline` for each line from 2 up to `end`. */
  method ReadColumns(lines: seq<string>, end: nat) returns (columns: seq<string>)
    requires 2 <= end <= |lines|
    ensures columns == lines[2..end]
  {
    columns := [];
    for j := 2 to end
      invariant columns == lines[2..j]
    {
      columns := columns + [lines[j]];
    }
  }

  /**
   * The counter and record-count lines of the table `t` that createTable
   * has just made: the counter is stored as its nextID, then ReadRecords
   * reads the records.
   */
  method ReadCounters(t: Table, lines: seq<string>, ghost acc: map<string, TableValue>, ghost remaining: int)
    returns (s: Status, rest: seq<string>)
    modifies t
    ensures var l := LoadCounters(lines, old(t.Value()), acc, remaining);
      if s.Ok? then l == LoadTables(rest, remaining - 1, acc[t.name := t.Value()])
      else l == Loaded(acc[t.name := t.Value()], s)
  {
    rest := lines;
    var counter := ReadInt(lines, 0);
    if counter.None? {
      return Err(Malformed), rest;
    }
    t.nextID := counter.value;
    var recordCount := ReadInt(lines, 1);
    if recordCount.None? {
      return Err(Malformed), rest;
    }
    s, rest := ReadRecords(t, lines[2..], recordCount.value, acc, remaining);
  }

  /** saveToFile on the table map `tables`, whose values are `snap`: the count line, then the blocks. */
  method SaveTables(tables: map<string, Table>, ghost snap: map<string, TableValue>)
    returns (lines: seq<string>, order: seq<string>)
    requires snap.Keys == tables.Keys
    requires forall n :: n in tables ==> snap[n] == tables[n].Value()
    ensures IsEnumeration(order, snap.Keys)
    ensures lines == SaveLines(order, snap)
  {
    var count := |tables|;
    assert count == |tables.Keys|;
    order := EnumerationOf(tables.Keys);
    var blocks := WriteTables(tables, order, snap);
    lines := [IntToString(count)] + blocks;
  }

  /** The table blocks of saveToFile, written in the order `order` visits the table map. */
  method WriteTables(tables: map<string, Table>, order: seq<string>, ghost snap: map<string, TableValue>)
    returns (lines: seq<string>)
    requires forall i :: 0 <= i < |order| ==> order[i] in tables && order[i] in snap
    requires forall n :: n in tables && n in snap ==> snap[n] == tables[n].Value()
    ensures lines == TablesLines(order, snap)
  {
    lines := [];
    for i := 0 to |order|
      invariant lines == TablesLines(order[..i], snap)
    {
      var name := order[i];
      var block := WriteTable(tables[name]);
      assert block == TableLines(snap[name]);
      TablesLinesSnoc(order[..i], name, snap);
      assert order[..i + 1] == order[..i] + [name];
      lines := lines + block;
    }
    assert order[..|order|] == order;
  }

  /** An order in which the keys of the table map are visited: each key exactly once. */
  method EnumerationOf(keys: set<string>) returns (order: seq<string>)
    ensures IsEnumeration(order, keys) && |order| == |keys|
  {
    order := [];
    var pending := keys;
    while pending != {}
      invariant pending <= keys
      invariant forall i :: 0 <= i < |order| ==> order[i] in keys && order[i] !in pending
      invariant forall k :: k in keys ==> k in pending || k in order
      invariant forall i, j :: 0 <= i < j < |order| ==> order[i] != order[j]
      invariant |order| + |pending| == |keys|
      decreases pending
    {
      var n :| n in pending;
      order := order + [n];
      pending := pending - {n};
    }
  }

  /**
   * The record loop of loadFromFile for the table `t` just created: `count`
   * lines parsed and inserted in turn. It ends as LoadRecords says: with the
   * lines after the records and Ok, or with the error that stopped it.
   */
  method ReadRecords(t: Table, lines: seq<string>, count: Int32, ghost acc: map<string, TableValue>, ghost remaining: int)
    returns (s: Status, rest: seq<string>)
    modifies t
    ensures var l := LoadRecords(lines, count, old(t.Value()), acc, remaining);
      if s.Ok? then l == LoadTables(rest, remaining - 1, acc[t.name := t.Value()])
      else l == Loaded(acc[t.name := t.Value()], s)
  {
    rest := lines;
    var k := 0;
    while k < count
      invariant LoadRecords(rest, count - k, t.Value(), acc, remaining) == LoadRecords(lines, count, old(t.Value()), acc, remaining)
      decreases count - k
    {
      if rest == [] {
        return Err(Malformed), rest;
      }
      if t.nextID == INT_MAX {
        return Err(CounterOverflow(t.name)), rest;
      }
      var record := ReadRecordLine(rest[0], t.columns);
      t.InsertRecord(record);
      rest := rest[1..];
      k := k + 1;
    }
    s := Ok;
  }

  /** The text of one record line: each column's value followed by '|', then the id. */
  method WriteRecordLine(columns: seq<string>, r: Record) returns (line: string)
    ensures line == RecordLine(columns, r)
  {
    line := "";
    for j := 0 to |columns|
      invariant line == Joined(Project(columns[..j], r))
    {
      ProjectSnoc(columns, r, j);
      line := line + r.Get(columns[j]) + "|";
    }
    assert columns[..|columns|] == columns;
    line := line + r.Get(ID_FIELD);
  }

  /** The block of lines saveToFile writes for one table. */
  method WriteTable(t: Table) returns (block: seq<string>)
    ensures block == TableLines(t.Value())
  {
    var columns, records := t.columns, t.records;
    var header := [t.name, IntToString(|columns|)] + columns + [IntToString(t.nextID), IntToString(|records|)];
    var body := WriteRecordLines(columns, records);
    block := header + body;
  }

  /** The record lines of saveToFile, one per record in the order of the vector. */
  method WriteRecordLines(columns: seq<string>, records: seq<Record>) returns (lines: seq<string>)
    ensures lines == RecordLines(columns, records)
  {
    lines := [];
    for k := 0 to |records|
      invariant lines == RecordLines(columns, records[..k])
    {
      var line := WriteRecordLine(columns, records[k]);
      RecordLinesSnoc(columns, records[..k], records[k]);
      assert records[..k + 1] == records[..k] + [records[k]];
      lines := lines + [line];
    }
    assert records[..|records|] == records;
  }

  /**
   * One record line as loadFromFile reads it: a `getline(ss, value, '|')`
   * per column, each value added under its column, then one more for "id".
   */
  method ReadRecordLine(line: string, columns: seq<string>) returns (record: Record)
    ensures record == ParseRecordLine(line, columns)
  {
    var stream := FieldStream(line, false);
    var value := "";
    record := Empty;
    for c := 0 to |columns|
      invariant stream == FieldsAfter(line, c).stream && value == FieldsAfter(line, c).value
      invariant record == Build(columns[..c], FieldsAfter(line, c).values)
    {
      ghost var values := FieldsAfter(line, c).values;
      stream, value := NextField(stream, value).0, NextField(stream, value).1;
      assert FieldsAfter(line, c + 1).values == values + [value];
      assert columns[..c + 1][..c] == columns[..c] && (values + [value])[..c] == values;
      record := record.Add(columns[c], value);
    }
    assert columns[..|columns|] == columns;
    value := NextField(stream, value).1;
    record := record.Add(ID_FIELD, value);
  }
}
