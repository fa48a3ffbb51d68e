/**
 * The save file of UFO_DB as a sequence of lines:
 *
 *   <number of tables>
 *   for each table: <name>, <number of columns>, one column per line,
 *                   <nextID>, <number of records>, one line per record
 *
 * A record line is getField(c) followed by '|' for each column c, then the
 * record's "id" field. The file is modelled as its lines (the text split at
 * '\n'); opening and closing the file are not part of the model.
 */
module Format {
  import opened Decimal
  import opened Errors
  import opened Records
  import opened Tables

  // ------------------------------------------------------------------
  // Writing (saveToFile)

  /** The column values a record line carries: getField of each declared column. */
  function Project(columns: seq<string>, r: Record): (vs: seq<string>)
    ensures |vs| == |columns|
    ensures forall i :: 0 <= i < |columns| ==> vs[i] == r.Get(columns[i])
  {
    seq(|columns|, i requires 0 <= i < |columns| => r.Get(columns[i]))
  }

  /** Each value followed by '|'. */
  function Joined(values: seq<string>): string {
    if values == [] then "" else Joined(values[..|values| - 1]) + values[|values| - 1] + "|"
  }

  /**
   * The line saveToFile writes for a record: at least one '|' per column,
   * and the record's "id" field at the end, just after the last '|' when
   * there are columns.
   */
  function RecordLine(columns: seq<string>, r: Record): (line: string)
    ensures |line| >= |columns| + |r.Get(ID_FIELD)|
    ensures line[|line| - |r.Get(ID_FIELD)|..] == r.Get(ID_FIELD)
    ensures columns != [] ==> line[|line| - |r.Get(ID_FIELD)| - 1] == '|'
  {
    JoinedShape(Project(columns, r));
    Joined(Project(columns, r)) + r.Get(ID_FIELD)
  }

  /** Each value contributes at least its '|', and a nonempty join ends with one. */
  lemma {:induction false} JoinedShape(values: seq<string>)
    ensures |Joined(values)| >= |values|
    ensures values != [] ==> Joined(values)[|Joined(values)| - 1] == '|'
  {
    if values != [] {
      JoinedShape(values[..|values| - 1]);
    }
  }

  /** One record line per record, in the order of the table's vector. */
  function RecordLines(columns: seq<string>, records: seq<Record>): (ls: seq<string>)
    ensures |ls| == |records|
  {
    if records == [] then [] else [RecordLine(columns, records[0])] + RecordLines(columns, records[1..])
  }

  /** The block of lines saveToFile writes for one table. */
  function TableLines(t: TableValue): (ls: seq<string>)
    ensures |ls| == BlockSize(t)
  {
    [t.name, IntToString(|t.columns|)] + t.columns + [IntToString(t.nextId), IntToString(|t.records|)]
      + RecordLines(t.columns, t.records)
  }

  /** The number of lines of a table block: name, column count, columns, counter, record count, records. */
  function BlockSize(t: TableValue): nat {
    4 + |t.columns| + |t.records|
  }

  /** `order` lists every key exactly once: one enumeration order of the table map. */
  predicate IsEnumeration(order: seq<string>, keys: set<string>) {
    (forall i :: 0 <= i < |order| ==> order[i] in keys) &&
    (forall k :: k in keys ==> k in order) &&
    (forall i, j :: 0 <= i < j < |order| ==> order[i] != order[j])
  }

  /**
   * The table blocks, in the order given (a name that is not a key has no
   * block; an enumeration lists keys only).
   */
  function TablesLines(order: seq<string>, tables: map<string, TableValue>): seq<string> {
    if order == [] then []
    else (if order[0] in tables then TableLines(tables[order[0]]) else []) + TablesLines(order[1..], tables)
  }

  /** The whole file for the tables enumerated in `order`: its first line is the number of tables. */
  function SaveLines(order: seq<string>, tables: map<string, TableValue>): (lines: seq<string>)
    requires IsEnumeration(order, tables.Keys)
    ensures |lines| >= 1 && lines[0] == IntToString(|tables|)
  {
    EnumerationSize(order, tables.Keys);
    [IntToString(|order|)] + TablesLines(order, tables)
  }

  /** An enumeration has one entry per key. */
  lemma {:induction false} EnumerationSize(order: seq<string>, keys: set<string>)
    requires IsEnumeration(order, keys)
    ensures |order| == |keys|
    decreases |order|
  {
    if order != [] {
      var rest := keys - {order[0]};
      assert forall i :: 0 <= i < |order| - 1 ==> order[1..][i] == order[i + 1];
      assert forall k :: k in rest ==> k in order[1..] by {
        forall k | k in rest ensures k in order[1..] {
          var i :| 0 <= i < |order| && order[i] == k;
          assert i != 0;
          assert order[1..][i - 1] == k;
        }
      }
      EnumerationSize(order[1..], rest);
    } else {
      assert forall k :: k in keys ==> k in order;
      assert keys == {};
    }
  }

  /** The value list of a record line grows by one column at a time, as saveToFile writes it. */
  lemma ProjectSnoc(columns: seq<string>, r: Record, j: nat)
    requires j < |columns|
    ensures Project(columns[..j + 1], r) == Project(columns[..j], r) + [r.Get(columns[j])]
  {
  }

  /** Writing one more record appends its line. */
  lemma {:induction false} RecordLinesSnoc(columns: seq<string>, records: seq<Record>, r: Record)
    ensures RecordLines(columns, records + [r]) == RecordLines(columns, records) + [RecordLine(columns, r)]
    decreases |records|
  {
    if records == [] {
      assert ([] + [r])[1..] == [];
    } else {
      assert (records + [r])[1..] == records[1..] + [r];
      RecordLinesSnoc(columns, records[1..], r);
    }
  }

  /** Writing one more table appends its block. */
  lemma {:induction false} TablesLinesSnoc(order: seq<string>, n: string, tables: map<string, TableValue>)
    requires n in tables
    ensures TablesLines(order + [n], tables) == TablesLines(order, tables) + TableLines(tables[n])
    decreases |order|
  {
    var o := order + [n];
    if order == [] {
      assert o[1..] == [];
    } else {
      assert o[0] == order[0] && o[1..] == order[1..] + [n];
      TablesLinesSnoc(order[1..], n, tables);
      var head := if order[0] in tables then TableLines(tables[order[0]]) else [];
      calc {
        TablesLines(o, tables);
        head + TablesLines(order[1..] + [n], tables);
        head + (TablesLines(order[1..], tables) + TableLines(tables[n]));
        (head + TablesLines(order[1..], tables)) + TableLines(tables[n]);
        TablesLines(order, tables) + TableLines(tables[n]);
      }
    }
  }

  // ------------------------------------------------------------------
  // Reading (loadFromFile)

  /** `infile >> n` on a line that holds exactly one integer; anything else is a malformed file. */
  function ReadInt(lines: seq<string>, i: nat): (r: Option<Int32>)
    ensures r.Some? ==> i < |lines|
  {
    if i < |lines| then ParseInt(lines[i]) else None
  }

  /** Position of the first '|' in `s`, or |s| when there is none. */
  function IndexOfBar(s: string): (i: nat)
    ensures i <= |s|
  {
    if s == [] then 0 else if s[0] == '|' then 0 else 1 + IndexOfBar(s[1..])
  }

  /** The position found is the first '|', or the end when there is none. */
  lemma {:induction false} IndexOfBarFirst(s: string)
    ensures forall j :: 0 <= j < IndexOfBar(s) ==> s[j] != '|'
    ensures IndexOfBar(s) < |s| ==> s[IndexOfBar(s)] == '|'
  {
    if s != [] && s[0] != '|' {
      IndexOfBarFirst(s[1..]);
      assert forall j :: 1 <= j < |s| ==> s[j] == s[1..][j - 1];
    }
  }

  /** The part of a record line `std::getline(ss, value, '|')` has not yet consumed, and whether it hit the end. */
  datatype FieldStream = FieldStream(rest: string, atEnd: bool)

  /**
   * One `std::getline(ss, value, '|')`: once the end of the line has been hit
   * the call fails and leaves `value` as it was; otherwise `value` becomes the
   * text up to the next '|' (consumed) or up to the end of the line.
   */
  function NextField(s: FieldStream, value: string): (r: (FieldStream, string))
    ensures s.atEnd ==> r == (s, value)
    ensures !s.atEnd && r.0.atEnd ==> r.1 == s.rest
  {
    if s.atEnd then (s, value)
    else
      var i := IndexOfBar(s.rest);
      if i < |s.rest| then (FieldStream(s.rest[i + 1..], false), s.rest[..i])
      else (FieldStream([], true), s.rest)
  }

  /**
   * A getline call on a stream not yet at its end reads a value with no '|',
   * and the text it consumes is that value followed by the '|' it stopped at,
   * if any.
   */
  lemma NextFieldConsumes(s: FieldStream, value: string)
    requires !s.atEnd
    ensures var (s', v) := NextField(s, value);
      NoBar(v) && s.rest == v + (if s'.atEnd then "" else "|" + s'.rest)
  {
    var i := IndexOfBar(s.rest);
    IndexOfBarFirst(s.rest);
    assert forall j :: 0 <= j < i ==> s.rest[..i][j] == s.rest[j];
    if i < |s.rest| {
      assert s.rest == s.rest[..i] + "|" + s.rest[i + 1..];
    } else {
      assert s.rest[..i] == s.rest;
    }
  }

  datatype Fields = Fields(stream: FieldStream, value: string, values: seq<string>)

  /** The state after the first `k` getline calls on a line: the values read so far. */
  function FieldsAfter(line: string, k: nat): (f: Fields)
    ensures |f.values| == k
  {
    if k == 0 then Fields(FieldStream(line, false), "", [])
    else
      var f := FieldsAfter(line, k - 1);
      var (s, v) := NextField(f.stream, f.value);
      Fields(s, v, f.values + [v])
  }

  /** The column values and the id token the loader reads from one record line. */
  function SplitLine(line: string, columnCount: nat): (seq<string>, string) {
    var f := FieldsAfter(line, columnCount);
    (f.values, NextField(f.stream, f.value).1)
  }

  /** The record the loader builds from a line: each column's value, then "id" set to the id token. */
  function ParseRecordLine(line: string, columns: seq<string>): (r: Record)
    ensures r.Get(ID_FIELD) == SplitLine(line, |columns|).1
  {
    var (values, idToken) := SplitLine(line, |columns|);
    Build(columns, values).Add(ID_FIELD, idToken)
  }

  /**
   * The record read from a line has exactly the declared columns and "id" as
   * fields; a column other than "id" holds the value read at its last position.
   */
  lemma ParseRecordLineFields(line: string, columns: seq<string>, c: string)
    ensures ParseRecordLine(line, columns).fields.Keys == (set i | 0 <= i < |columns| :: columns[i]) + {ID_FIELD}
    ensures c in columns && c != ID_FIELD ==>
      ParseRecordLine(line, columns).Get(c) == SplitLine(line, |columns|).0[LastIndex(columns, c)]
  {
    var (values, idToken) := SplitLine(line, |columns|);
    BuildGet(columns, values, c);
    AddGet(Build(columns, values), ID_FIELD, idToken, c);
  }

  /** Every table of `tables` is stored under its own name. */
  predicate KeyedByName(tables: map<string, TableValue>) {
    forall n :: n in tables ==> tables[n].name == n
  }

  /** Every table of `acc` is still in `tables`, unchanged: the loader never replaces a table it has read. */
  predicate Keeps(acc: map<string, TableValue>, tables: map<string, TableValue>) {
    forall n :: n in acc ==> n in tables && tables[n] == acc[n]
  }

  lemma KeepsAdded(acc: map<string, TableValue>, t: TableValue, tables: map<string, TableValue>)
    requires t.name !in acc && Keeps(acc[t.name := t], tables)
    ensures Keeps(acc, tables) && t.name in tables && tables[t.name] == t
  {
    assert forall n :: n in acc ==> n in acc[t.name := t] && acc[t.name := t][n] == acc[n];
  }

  lemma KeyedAdded(acc: map<string, TableValue>, t: TableValue)
    ensures KeyedByName(acc) ==> KeyedByName(acc[t.name := t])
  {
  }

  /** What a load has produced: the tables read so far, and whether it finished. */
  datatype Loaded = Loaded(tables: map<string, TableValue>, status: Status)

  /**
   * The table loop of loadFromFile on the lines not yet read: `remaining`
   * more tables to read, `acc` holding the tables read so far. The header of
   * a table is read here (name, column count, columns, createTable, which
   * fails on a repeated name, counter, record count); its records are then
   * read by LoadRecords, which comes back here for the next table. A failure
   * keeps whatever the loader had already created.
   */
  function LoadTables(lines: seq<string>, remaining: int, acc: map<string, TableValue>): Loaded
    decreases |lines|, 0
  {
    if remaining <= 0 then Loaded(acc, Ok)
    else if lines == [] then Loaded(acc, Err(Malformed))
    else
      match ReadInt(lines, 1)
      case None => Loaded(acc, Err(Malformed))
      case Some(columnCount) =>
        // a negative count makes the column vector's constructor throw
        if columnCount < 0 || 2 + columnCount > |lines| then Loaded(acc, Err(Malformed))
        else
          var name := lines[0];
          var p := 2 + columnCount;
          if name in acc then Loaded(acc, Err(DuplicateTable(name)))
          else LoadCounters(lines[p..], EmptyTable(name, lines[2..p]), acc, remaining)
  }

  /** The outcomes of reading a table header: the cases of LoadTables one by one. */
  lemma LoadTablesCases(lines: seq<string>, remaining: int, acc: map<string, TableValue>)
    requires remaining > 0
    ensures lines == [] ==> LoadTables(lines, remaining, acc) == Loaded(acc, Err(Malformed))
    ensures lines != [] && (ReadInt(lines, 1).None? || ReadInt(lines, 1).value < 0 || 2 + ReadInt(lines, 1).value > |lines|) ==>
      LoadTables(lines, remaining, acc) == Loaded(acc, Err(Malformed))
    ensures lines != [] && ReadInt(lines, 1).Some? && 0 <= ReadInt(lines, 1).value && 2 + ReadInt(lines, 1).value <= |lines| ==>
      var p := 2 + ReadInt(lines, 1).value;
      LoadTables(lines, remaining, acc) ==
        if lines[0] in acc then Loaded(acc, Err(DuplicateTable(lines[0])))
        else LoadCounters(lines[p..], EmptyTable(lines[0], lines[2..p]), acc, remaining)
  {
  }

  /**
   * The rest of a table header, once createTable has made `created`: the
   * counter line, stored as the table's nextID, and the record count line;
   * then the record loop.
   */
  function LoadCounters(lines: seq<string>, created: TableValue, acc: map<string, TableValue>, remaining: int): Loaded
    decreases |lines|, 2
  {
    match ReadInt(lines, 0)
    case None => Loaded(acc[created.name := created], Err(Malformed))
    case Some(counter) =>
      var counted := created.(nextId := counter);
      match ReadInt(lines, 1)
      case None => Loaded(acc[created.name := counted], Err(Malformed))
      case Some(recordCount) => LoadRecords(lines[2..], recordCount, counted, acc, remaining)
  }

  /**
   * The record loop of the table `t` (not yet in `acc`): each line parsed
   * and passed to insert, which sets "id" from the table's counter; then the
   * table loop goes on with the remaining tables.
   */
  function LoadRecords(lines: seq<string>, count: int, t: TableValue, acc: map<string, TableValue>, remaining: int): Loaded
    decreases |lines|, 1
  {
    if count <= 0 then LoadTables(lines, remaining - 1, acc[t.name := t])
    else if lines == [] then Loaded(acc[t.name := t], Err(Malformed))
    else if t.nextId == INT_MAX then Loaded(acc[t.name := t], Err(CounterOverflow(t.name)))
    else LoadRecords(lines[1..], count - 1, Inserted(t, ParseRecordLine(lines[0], t.columns)), acc, remaining)
  }

  /**
   * loadFromFile on the file's lines: the tables map starts empty and is
   * filled table by table, each table under its own name.
   */
  function LoadStore(lines: seq<string>): (r: Loaded)
    ensures KeyedByName(r.tables)
  {
    match ReadInt(lines, 0)
    case None => Loaded(map[], Err(Malformed))
    case Some(tableCount) =>
      LoadTablesKeeps(lines[1..], tableCount, map[]);
      LoadTables(lines[1..], tableCount, map[])
  }

  /** The table loop never replaces a table already read, and keeps each table under its own name. */
  lemma {:induction false} LoadTablesKeeps(lines: seq<string>, remaining: int, acc: map<string, TableValue>)
    ensures Keeps(acc, LoadTables(lines, remaining, acc).tables)
    ensures KeyedByName(acc) ==> KeyedByName(LoadTables(lines, remaining, acc).tables)
    decreases |lines|, 0
  {
    if remaining > 0 && lines != [] {
      match ReadInt(lines, 1)
      case None =>
      case Some(columnCount) =>
        if 0 <= columnCount && 2 + columnCount <= |lines| && lines[0] !in acc {
          var p := 2 + columnCount;
          LoadCountersKeeps(lines[p..], EmptyTable(lines[0], lines[2..p]), acc, remaining);
        }
    }
  }

  /** After createTable of a new name, that table stays in the result with its columns, and so do the earlier tables. */
  lemma {:induction false} LoadCountersKeeps(lines: seq<string>, created: TableValue, acc: map<string, TableValue>, remaining: int)
    ensures KeptWith(acc, created, LoadCounters(lines, created, acc, remaining))
    decreases |lines|, 3
  {
    match ReadInt(lines, 0)
    case None =>
    case Some(counter) =>
      match ReadInt(lines, 1)
      case None =>
      case Some(recordCount) => LoadRecordsKeeps(lines[2..], recordCount, created.(nextId := counter), acc, remaining);
  }

  /**
   * What a load started with the tables `acc` and a table `t` not yet among
   * them produces: `acc` unchanged, `t` under its name with its columns, and,
   * when `acc` keys each table by its name, every table keyed by its name.
   */
  predicate KeptWith(acc: map<string, TableValue>, t: TableValue, r: Loaded) {
    (t.name !in acc ==> Keeps(acc, r.tables) && t.name in r.tables && r.tables[t.name].columns == t.columns) &&
    (KeyedByName(acc) ==> KeyedByName(r.tables))
  }

  /** The record loop leaves its table in the result with its columns, and the earlier tables stay. */
  lemma {:induction false} LoadRecordsKeeps(lines: seq<string>, count: int, t: TableValue, acc: map<string, TableValue>, remaining: int)
    ensures KeptWith(acc, t, LoadRecords(lines, count, t, acc, remaining))
    decreases |lines|, 2
  {
    if count > 0 && lines != [] && t.nextId < INT_MAX {
      var tail := lines[1..];
      var next := Inserted(t, ParseRecordLine(lines[0], t.columns));
      LoadRecordsKeeps(tail, count - 1, next, acc, remaining);
      assert LoadRecords(lines, count, t, acc, remaining) == LoadRecords(tail, count - 1, next, acc, remaining) by {
        assert [lines[0]] + tail == lines;
        LoadRecordsStep(lines[0], tail, count, t, acc, remaining);
      }
      KeptWithSameTable(acc, t, next, LoadRecords(lines, count, t, acc, remaining), LoadRecords(tail, count - 1, next, acc, remaining));
    } else {
      LoadRecordsEndKeeps(lines, count, t, acc, remaining);
    }
  }

  /** The record loop's last turn: the table goes into the map, and the table loop goes on or stops. */
  lemma LoadRecordsEndKeeps(lines: seq<string>, count: int, t: TableValue, acc: map<string, TableValue>, remaining: int)
    requires count <= 0 || lines == [] || t.nextId == INT_MAX
    ensures KeptWith(acc, t, LoadRecords(lines, count, t, acc, remaining))
    decreases |lines|, 1
  {
    var r := LoadRecords(lines, count, t, acc, remaining);
    if count <= 0 {
      assert r == LoadTables(lines, remaining - 1, acc[t.name := t]);
      LoadTablesKeeps(lines, remaining - 1, acc[t.name := t]);
      if t.name !in acc {
        KeepsAdded(acc, t, r.tables);
      }
    } else {
      assert r.tables == acc[t.name := t];
    }
    KeyedAdded(acc, t);
  }

  /** KeptWith depends on the table only through its name and columns. */
  lemma KeptWithSameTable(acc: map<string, TableValue>, t: TableValue, u: TableValue, r: Loaded, r': Loaded)
    requires u.name == t.name && u.columns == t.columns
    requires KeptWith(acc, u, r') && r == r'
    ensures KeptWith(acc, t, r)
  {
  }

  // ------------------------------------------------------------------
  // Record-line round trip

  lemma {:induction false} JoinedAppend(a: seq<string>, b: seq<string>)
    ensures Joined(a + b) == Joined(a) + Joined(b)
  {
    if b == [] {
      assert a + b == a;
    } else {
      var n := |b| - 1;
      assert (a + b)[..|a + b| - 1] == a + b[..n];
      JoinedAppend(a, b[..n]);
    }
  }

  predicate NoBar(s: string) { '|' !in s }

  lemma JoinedCons(v: string, rest: seq<string>)
    ensures Joined([v] + rest) == v + "|" + Joined(rest)
  {
    JoinedAppend([v], rest);
    assert [v][..0] == [];
  }

  /** getline on "v|rest" with no '|' in v reads v and leaves rest. */
  lemma NextFieldBar(v: string, rest: string, value: string)
    requires NoBar(v)
    ensures NextField(FieldStream(v + "|" + rest, false), value) == (FieldStream(rest, false), v)
  {
    var s := v + "|" + rest;
    var i := IndexOfBar(s);
    IndexOfBarFirst(s);
    assert s[|v|] == '|';
    assert forall j :: 0 <= j < |v| ==> s[j] == v[j];
    assert i == |v|;
    assert s[..i] == v && s[i + 1..] == rest;
  }

  /** The k-th getline call on a stream positioned at "v|rest". */
  lemma FieldsAfterStep(line: string, k: nat, v: string, rest: string)
    requires k > 0 && NoBar(v)
    requires FieldsAfter(line, k - 1).stream == FieldStream(v + "|" + rest, false)
    ensures FieldsAfter(line, k) == Fields(FieldStream(rest, false), v, FieldsAfter(line, k - 1).values + [v])
  {
    NextFieldBar(v, rest, FieldsAfter(line, k - 1).value);
  }

  /** The joined values from position k on start with the value at k and its '|'. */
  lemma JoinedFrom(values: seq<string>, k: nat, tail: string)
    requires k < |values|
    ensures Joined(values[k..]) + tail == values[k] + "|" + (Joined(values[k + 1..]) + tail)
  {
    assert values[k..] == [values[k]] + values[k + 1..];
    JoinedCons(values[k], values[k + 1..]);
  }

  /** The getline call after the first k - 1 reads the k-th value of a joined line. */
  lemma FieldsAfterJoinedStep(line: string, values: seq<string>, tail: string, k: nat)
    requires 0 < k <= |values| && NoBar(values[k - 1])
    requires FieldsAfter(line, k - 1).stream == FieldStream(Joined(values[k - 1..]) + tail, false)
    requires FieldsAfter(line, k - 1).values == values[..k - 1]
    ensures FieldsAfter(line, k).stream == FieldStream(Joined(values[k..]) + tail, false)
    ensures FieldsAfter(line, k).values == values[..k]
  {
    var v := values[k - 1];
    var rest := Joined(values[k..]) + tail;
    assert FieldsAfter(line, k) == Fields(FieldStream(rest, false), v, values[..k - 1] + [v]) by {
      JoinedFrom(values, k - 1, tail);
      FieldsAfterStep(line, k, v, rest);
    }
    assert values[..k - 1] + [v] == values[..k];
  }

  lemma {:induction false} FieldsAfterJoined(line: string, values: seq<string>, tail: string, k: nat)
    requires line == Joined(values) + tail
    requires k <= |values|
    requires forall i :: 0 <= i < |values| ==> NoBar(values[i])
    ensures FieldsAfter(line, k).stream == FieldStream(Joined(values[k..]) + tail, false)
    ensures FieldsAfter(line, k).values == values[..k]
  {
    if k == 0 {
      assert values[0..] == values;
    } else {
      FieldsAfterJoined(line, values, tail, k - 1);
      FieldsAfterJoinedStep(line, values, tail, k);
    }
  }

  /**
   * Splitting a saved record line on '|' as the loader does gives back each
   * column's value and the id, provided none of them contains a '|'.
   */
  lemma RecordLineRoundTrip(columns: seq<string>, r: Record)
    requires forall c :: c in columns ==> NoBar(r.Get(c))
    requires NoBar(r.Get(ID_FIELD))
    ensures SplitLine(RecordLine(columns, r), |columns|) == (Project(columns, r), r.Get(ID_FIELD))
  {
    var values := Project(columns, r);
    var id := r.Get(ID_FIELD);
    FieldsAfterJoined(RecordLine(columns, r), values, id, |values|);
    assert values[|values|..] == [] && values[..|values|] == values;
    assert Joined([]) + id == id;
    var i := IndexOfBar(id);
    IndexOfBarFirst(id);
    assert i == |id|;
  }


  // ------------------------------------------------------------------
  // Store round trip

  /**
   * A reloaded record: the column values of the saved record, and the id the
   * reloading insert assigns. Fields outside the column list are not saved.
   */
  function ReloadedRecord(columns: seq<string>, r: Record, id: Int32): Record {
    Build(columns, Project(columns, r)).Add(ID_FIELD, IntToString(id))
  }

  /** The records `records`, reloaded with ids first, first + 1, ... */
  function ReloadedRecords(columns: seq<string>, records: seq<Record>, first: Int32): (rs: seq<Record>)
    requires first + |records| <= INT_MAX
    ensures |rs| == |records|
  {
    if records == [] then [] else [ReloadedRecord(columns, records[0], first)] + ReloadedRecords(columns, records[1..], first + 1)
  }

  lemma {:induction false} ReloadedRecordsIndex(columns: seq<string>, records: seq<Record>, first: Int32, i: nat)
    requires first + |records| <= INT_MAX && i < |records|
    ensures ReloadedRecords(columns, records, first)[i] == ReloadedRecord(columns, records[i], first + i)
  {
    var rs := ReloadedRecords(columns, records, first);
    var rest := records[1..];
    var tail := ReloadedRecords(columns, rest, first + 1);
    assert rs == [ReloadedRecord(columns, records[0], first)] + tail;
    if i > 0 {
      ReloadedRecordsIndex(columns, rest, first + 1, i - 1);
      assert rs[i] == tail[i - 1];
      assert rest[i - 1] == records[i];
    }
  }

  /**
   * What a table turns into when saved and loaded again: the same name,
   * columns and record order; the records are renumbered from the saved
   * counter (insert overwrites the id read from the file), which ends
   * advanced by the number of records.
   */
  function Reloaded(t: TableValue): (u: TableValue)
    requires t.nextId + |t.records| <= INT_MAX
    ensures u.name == t.name && u.columns == t.columns && |u.records| == |t.records|
    ensures u.nextId == t.nextId + |t.records|
  {
    TableValue(t.name, t.columns, ReloadedRecords(t.columns, t.records, t.nextId), t.nextId + |t.records|)
  }

  /** Field by field, a reloaded record keeps each declared column and gets the id nextID + i. */
  lemma ReloadedFields(t: TableValue, i: nat, f: string)
    requires t.nextId + |t.records| <= INT_MAX && i < |t.records|
    ensures Reloaded(t).records[i].fields.Keys == (set k | 0 <= k < |t.columns| :: t.columns[k]) + {ID_FIELD}
    ensures HasId(Reloaded(t).records[i], t.nextId + i)
    ensures f != ID_FIELD && f in t.columns ==> Reloaded(t).records[i].Get(f) == t.records[i].Get(f)
    ensures f != ID_FIELD && f !in t.columns ==> Reloaded(t).records[i].Get(f) == ""
  {
    ReloadedRecordsIndex(t.columns, t.records, t.nextId, i);
    var values := Project(t.columns, t.records[i]);
    BuildGet(t.columns, values, f);
  }

  /**
   * Reloading renumbers: in a table whose ids increase below its counter (as
   * inserts and deletes keep them, see FreshTableIds), no reloaded record
   * keeps the id it was saved with.
   */
  lemma ReloadChangesIds(t: TableValue, i: nat)
    requires t.nextId + |t.records| <= INT_MAX && i < |t.records|
    requires IdsIncreasing(t.records, t.nextId)
    ensures IdOf(t.records[i]).Some?
    ensures !HasId(Reloaded(t).records[i], IdOf(t.records[i]).value)
  {
    ReloadedFields(t, i, ID_FIELD);
    var saved := IdOf(t.records[i]).value;
    IntToStringInjective(saved, t.nextId + i);
  }

  /** Each column value and the id of a record fits in one '|'-field of one line. */
  ghost predicate RecordSaveable(columns: seq<string>, r: Record) {
    NoBar(r.Get(ID_FIELD)) && '\n' !in r.Get(ID_FIELD) &&
    forall c :: c in columns ==> NoBar(r.Get(c)) && '\n' !in r.Get(c)
  }

  /** Every name, column, value and the id fits in one line and one '|'-field of the file. */
  ghost predicate TableSaveable(key: string, t: TableValue) {
    t.name == key && '\n' !in t.name &&
    |t.columns| <= INT_MAX && |t.records| <= INT_MAX && t.nextId + |t.records| <= INT_MAX &&
    (forall c :: c in t.columns ==> '\n' !in c) &&
    (forall r :: r in t.records ==> RecordSaveable(t.columns, r))
  }

  ghost predicate Saveable(tables: map<string, TableValue>) {
    forall n :: n in tables ==> TableSaveable(n, tables[n])
  }

  /** The table `u` after the loader has inserted the saved records `records`. */
  function WithReloaded(u: TableValue, records: seq<Record>): TableValue
    requires u.nextId + |records| <= INT_MAX
  {
    u.(records := u.records + ReloadedRecords(u.columns, records, u.nextId), nextId := u.nextId + |records|)
  }

  /** The table `u` once the loader has inserted the line of the saved record `r`. */
  function InsertSaved(u: TableValue, r: Record): (v: TableValue)
    requires u.nextId < INT_MAX
    ensures v.name == u.name && v.columns == u.columns && v.nextId == u.nextId + 1
  {
    u.(records := u.records + [ReloadedRecord(u.columns, r, u.nextId)], nextId := u.nextId + 1)
  }

  /** Inserting the parsed line of a saved record appends that record, reloaded with the counter as its id. */
  lemma InsertParsed(u: TableValue, r: Record)
    requires u.nextId < INT_MAX && RecordSaveable(u.columns, r)
    ensures Inserted(u, ParseRecordLine(RecordLine(u.columns, r), u.columns)) == InsertSaved(u, r)
  {
    RecordLineRoundTrip(u.columns, r);
    var built := Build(u.columns, Project(u.columns, r));
    assert ParseRecordLine(RecordLine(u.columns, r), u.columns) == built.Add(ID_FIELD, r.Get(ID_FIELD));
    AddTwice(built, ID_FIELD, r.Get(ID_FIELD), IntToString(u.nextId));
  }

  /** Inserting the first saved record, then the others, is inserting them all. */
  lemma WithReloadedStep(u: TableValue, records: seq<Record>)
    requires records != [] && u.nextId + |records| <= INT_MAX
    ensures WithReloaded(InsertSaved(u, records[0]), records[1..]) == WithReloaded(u, records)
  {
    var head := ReloadedRecord(u.columns, records[0], u.nextId);
    var tail := ReloadedRecords(u.columns, records[1..], u.nextId + 1);
    assert ReloadedRecords(u.columns, records, u.nextId) == [head] + tail;
    assert (u.records + [head]) + tail == u.records + ([head] + tail);
  }

  /**
   * Each of `records` fits the format, stated record by record from the
   * front: the shape of the induction in LoadRecordsOfLines. AllSaveableOf
   * derives it from the membership form that TableSaveable uses.
   */
  ghost predicate AllSaveable(columns: seq<string>, records: seq<Record>) {
    records == [] || (RecordSaveable(columns, records[0]) && AllSaveable(columns, records[1..]))
  }

  lemma {:induction false} AllSaveableOf(columns: seq<string>, records: seq<Record>)
    requires forall r :: r in records ==> RecordSaveable(columns, r)
    ensures AllSaveable(columns, records)
  {
    if records != [] {
      assert records[0] in records;
      assert forall x :: x in records[1..] ==> x in records;
      AllSaveableOf(columns, records[1..]);
    }
  }

  /** One turn of the record loop: the first line is parsed and inserted. */
  lemma LoadRecordsStep(line: string, tail: seq<string>, count: int, u: TableValue,
                        acc: map<string, TableValue>, remaining: int)
    requires count > 0 && u.nextId < INT_MAX
    ensures LoadRecords([line] + tail, count, u, acc, remaining)
         == LoadRecords(tail, count - 1, Inserted(u, ParseRecordLine(line, u.columns)), acc, remaining)
  {
    assert ([line] + tail)[1..] == tail;
  }

  /** One turn of the record loop on the line of a saved record that fits the format. */
  lemma LoadRecordsTurn(u: TableValue, records: seq<Record>, rest: seq<string>, acc: map<string, TableValue>, remaining: int)
    requires records != [] && u.nextId < INT_MAX && RecordSaveable(u.columns, records[0])
    ensures var next := InsertSaved(u, records[0]);
      LoadRecords(RecordLines(u.columns, records) + rest, |records|, u, acc, remaining)
        == LoadRecords(RecordLines(next.columns, records[1..]) + rest, |records[1..]|, next, acc, remaining)
  {
    var line := RecordLine(u.columns, records[0]);
    var tail := RecordLines(u.columns, records[1..]) + rest;
    assert RecordLines(u.columns, records) + rest == [line] + tail;
    LoadRecordsStep(line, tail, |records|, u, acc, remaining);
    InsertParsed(u, records[0]);
  }

  /** The record loop on saved record lines inserts every saved record, then goes on with the next table. */
  lemma {:induction false} LoadRecordsOfLines(u: TableValue, records: seq<Record>, rest: seq<string>,
                                              acc: map<string, TableValue>, remaining: int)
    requires u.nextId + |records| <= INT_MAX && AllSaveable(u.columns, records)
    ensures LoadRecords(RecordLines(u.columns, records) + rest, |records|, u, acc, remaining)
         == LoadTables(rest, remaining - 1, acc[u.name := WithReloaded(u, records)])
    decreases |records|
  {
    if records == [] {
      assert RecordLines(u.columns, records) + rest == rest;
      assert u.records + [] == u.records;
    } else {
      LoadRecordsTurn(u, records, rest, acc, remaining);
      LoadRecordsOfLines(InsertSaved(u, records[0]), records[1..], rest, acc, remaining);
      WithReloadedStep(u, records);
    }
  }

  /** The parts of a table block followed by the rest of the file, by position. */
  lemma TableLinesLayout(t: TableValue, rest: seq<string>)
    ensures var lines := TableLines(t) + rest; var nc := |t.columns|;
      |lines| == 4 + nc + |t.records| + |rest| &&
      lines[0] == t.name && lines[1] == IntToString(nc) && lines[2 .. 2 + nc] == t.columns &&
      lines[2 + nc] == IntToString(t.nextId) && lines[3 + nc] == IntToString(|t.records|) &&
      lines[4 + nc ..] == RecordLines(t.columns, t.records) + rest
  {
    var nc := |t.columns|;
    var head := [t.name, IntToString(nc)] + t.columns;
    var mid := head + [IntToString(t.nextId), IntToString(|t.records|)];
    assert TableLines(t) + rest == mid + (RecordLines(t.columns, t.records) + rest);
    assert head[2..] == t.columns;
  }

  /** The table createTable makes for the header of `t`, with the counter read from the file. */
  function Created(t: TableValue): (u: TableValue)
    ensures u.name == t.name && u.columns == t.columns && u.records == [] && u.nextId == t.nextId
  {
    EmptyTable(t.name, t.columns).(nextId := t.nextId)
  }

  /** A header that reads correctly, of a new table name, hands over to the record loop. */
  lemma HeaderRead(lines: seq<string>, acc: map<string, TableValue>, remaining: int,
                   name: string, columns: seq<string>, counter: Int32, recordCount: Int32)
    requires remaining > 0 && name !in acc && |columns| <= INT_MAX
    requires 4 + |columns| <= |lines|
    requires lines[0] == name && ReadInt(lines, 1) == Some(|columns|) && lines[2 .. 2 + |columns|] == columns
    requires ReadInt(lines, 2 + |columns|) == Some(counter) && ReadInt(lines, 3 + |columns|) == Some(recordCount)
    ensures LoadTables(lines, remaining, acc)
         == LoadRecords(lines[4 + |columns|..], recordCount, EmptyTable(name, columns).(nextId := counter), acc, remaining)
  {
  }

  /** The header of a saved table creates the table with its columns and counter, and starts its record loop. */
  lemma LoadTableHeader(t: TableValue, rest: seq<string>, acc: map<string, TableValue>, remaining: int)
    requires |t.columns| <= INT_MAX && |t.records| <= INT_MAX && t.name !in acc && remaining > 0
    ensures LoadTables(TableLines(t) + rest, remaining, acc)
         == LoadRecords(RecordLines(Created(t).columns, t.records) + rest, |t.records|, Created(t), acc, remaining)
  {
    TableLinesLayout(t, rest);
    ParseIntToString(|t.columns|);
    ParseIntToString(t.nextId);
    ParseIntToString(|t.records|);
    HeaderRead(TableLines(t) + rest, acc, remaining, t.name, t.columns, t.nextId, |t.records|);
  }

  /** Inserting all saved records into the created table gives the Reloaded table. */
  lemma CreatedReloaded(t: TableValue)
    requires t.nextId + |t.records| <= INT_MAX
    ensures Created(t).name == t.name && WithReloaded(Created(t), t.records) == Reloaded(t)
  {
    assert [] + ReloadedRecords(t.columns, t.records, t.nextId) == Reloaded(t).records;
  }

  /** The bounds and the '|'-freedom the reloading of a table depends on. */
  ghost predicate Reloadable(t: TableValue) {
    |t.columns| <= INT_MAX && |t.records| <= INT_MAX && t.nextId + |t.records| <= INT_MAX &&
    AllSaveable(t.columns, t.records)
  }

  /** The block of one saved table, followed by any lines, reads back as its Reloaded table. */
  lemma LoadTableBlock(t: TableValue, rest: seq<string>, acc: map<string, TableValue>, remaining: int)
    requires Reloadable(t) && t.name !in acc && remaining > 0
    ensures LoadTables(TableLines(t) + rest, remaining, acc) == LoadTables(rest, remaining - 1, acc[t.name := Reloaded(t)])
  {
    LoadTableHeader(t, rest, acc, remaining);
    LoadRecordsOfLines(Created(t), t.records, rest, acc, remaining);
    CreatedReloaded(t);
  }

  /**
   * A file whose second block repeats the name of the first: the first table
   * is read, then createTable throws DuplicateTable for the second and the
   * load stops, keeping the first table.
   */
  lemma LoadDuplicateBlock(t: TableValue, u: TableValue, rest: seq<string>, acc: map<string, TableValue>, remaining: int)
    requires Reloadable(t) && t.name !in acc && remaining > 1
    requires u.name == t.name && |u.columns| <= INT_MAX
    ensures LoadTables(TableLines(t) + TableLines(u) + rest, remaining, acc)
         == Loaded(acc[t.name := Reloaded(t)], Err(DuplicateTable(t.name)))
  {
    assert TableLines(t) + TableLines(u) + rest == TableLines(t) + (TableLines(u) + rest);
    LoadTableBlock(t, TableLines(u) + rest, acc, remaining);
    TableLinesLayout(u, rest);
    ParseIntToString(|u.columns|);
  }

  /** The tables map `acc` after the loader has added the tables of `order`, in that order, as reloaded. */
  function AddReloaded(acc: map<string, TableValue>, order: seq<string>, tables: map<string, TableValue>): map<string, TableValue>
    requires forall n :: n in order ==> n in tables && TableSaveable(n, tables[n])
    decreases |order|
  {
    if order == [] then acc
    else
      assert order[0] in order && forall n :: n in order[1..] ==> n in order;
      assert TableSaveable(order[0], tables[order[0]]);
      AddReloaded(acc[order[0] := Reloaded(tables[order[0]])], order[1..], tables)
  }

  /** The names of `order` come in with their reloaded tables; every other entry of `acc` stays. */
  lemma {:induction false} AddReloadedEntries(acc: map<string, TableValue>, order: seq<string>, tables: map<string, TableValue>)
    requires forall n :: n in order ==> n in tables && TableSaveable(n, tables[n])
    ensures forall n :: n in AddReloaded(acc, order, tables) <==> n in acc || n in order
    ensures forall n :: n in order ==> AddReloaded(acc, order, tables)[n] == Reloaded(tables[n])
    ensures forall n :: n in acc && n !in order ==> AddReloaded(acc, order, tables)[n] == acc[n]
    decreases |order|
  {
    if order != [] {
      var acc' := acc[order[0] := Reloaded(tables[order[0]])];
      assert forall n :: n in order <==> n == order[0] || n in order[1..];
      AddReloadedEntries(acc', order[1..], tables);
    }
  }

  /** One turn of the table loop on the saved block of a new table that fits the format. */
  lemma LoadTablesTurn(order: seq<string>, tables: map<string, TableValue>, acc: map<string, TableValue>)
    requires order != [] && order[0] in tables && order[0] !in acc && TableSaveable(order[0], tables[order[0]])
    requires forall i :: 0 <= i < |order| ==> order[i] in tables
    ensures LoadTables(TablesLines(order, tables), |order|, acc)
         == LoadTables(TablesLines(order[1..], tables), |order[1..]|, acc[order[0] := Reloaded(tables[order[0]])])
  {
    AllSaveableOf(tables[order[0]].columns, tables[order[0]].records);
    LoadTableBlock(tables[order[0]], TablesLines(order[1..], tables), acc, |order|);
  }

  /**
   * The table loop on the saved blocks of distinct tables that fit the
   * format, none of them loaded yet, adds each table as reloaded.
   */
  lemma {:induction false} LoadTablesOfBlocks(order: seq<string>, tables: map<string, TableValue>, acc: map<string, TableValue>)
    requires forall n :: n in order ==> n in tables && n !in acc && TableSaveable(n, tables[n])
    requires forall i, j :: 0 <= i < j < |order| ==> order[i] != order[j]
    ensures LoadTables(TablesLines(order, tables), |order|, acc) == Loaded(AddReloaded(acc, order, tables), Ok)
    decreases |order|
  {
    if order != [] {
      var acc' := acc[order[0] := Reloaded(tables[order[0]])];
      assert order[0] in order;
      LoadTablesTurn(order, tables, acc);
      assert forall i :: 0 <= i < |order| - 1 ==> order[1..][i] == order[i + 1];
      assert forall n :: n in order[1..] ==> n in order && n != order[0];
      LoadTablesOfBlocks(order[1..], tables, acc');
    }
  }

  /** The count line of a saved file reads back, and the table loop starts on the blocks. */
  lemma LoadStoreOfSaved(order: seq<string>, tables: map<string, TableValue>)
    requires IsEnumeration(order, tables.Keys) && |order| <= INT_MAX
    ensures LoadStore(SaveLines(order, tables)) == LoadTables(TablesLines(order, tables), |order|, map[])
  {
    assert SaveLines(order, tables)[1..] == TablesLines(order, tables);
    ParseIntToString(|order|);
  }

  /** Added in the order of an enumeration of its keys, the reloaded tables make up the whole map. */
  lemma AddReloadedAll(order: seq<string>, tables: map<string, TableValue>)
    requires IsEnumeration(order, tables.Keys) && Saveable(tables)
    ensures AddReloaded(map[], order, tables) == map n | n in tables :: Reloaded(tables[n])
  {
    AddReloadedEntries(map[], order, tables);
  }

  /**
   * load(save(S)) for a store whose strings fit the format: every table comes
   * back under its name with its columns; its records come back in order with
   * their column values, renumbered from the saved counter; and the load
   * succeeds. This holds for every enumeration order of the tables.
   */
  lemma LoadSaved(order: seq<string>, tables: map<string, TableValue>)
    requires IsEnumeration(order, tables.Keys) && |order| <= INT_MAX && Saveable(tables)
    ensures LoadStore(SaveLines(order, tables)) == Loaded(map n | n in tables :: Reloaded(tables[n]), Ok)
  {
    LoadStoreOfSaved(order, tables);
    LoadTablesOfBlocks(order, tables, map[]);
    AddReloadedAll(order, tables);
  }
}
