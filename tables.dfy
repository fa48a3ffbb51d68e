/**
 * UFOTable: a named table with a fixed column list, an ordered sequence of
 * records and the counter that gives each inserted record its id.
 *
 * `TableValue` is the value of a table; the functions on it say what each
 * table operation does, and the class `Table` performs the operations in
 * place and is proved against them.
 */
module Tables {
  import opened Decimal
  import opened Errors
  import opened Records

  const ID_FIELD: string := "id"

  datatype TableValue = TableValue(name: string, columns: seq<string>, records: seq<Record>, nextId: Int32)

  /** A table as the two-argument constructor makes it: no records, counter 1. */
  function EmptyTable(name: string, columns: seq<string>): TableValue {
    TableValue(name, columns, [], 1)
  }

  /** The record's "id" field is the decimal text of `id` (the test all id lookups use). */
  predicate HasId(r: Record, id: Int32) {
    r.Get(ID_FIELD) == IntToString(id)
  }

  /** insertRecord: the record, its "id" set to the counter, goes at the end; the counter advances. */
  function Inserted(t: TableValue, record: Record): (u: TableValue)
    requires t.nextId < INT_MAX
    ensures u.name == t.name && u.columns == t.columns
    ensures u.nextId == t.nextId + 1
    ensures |u.records| == |t.records| + 1
  {
    t.(records := t.records + [record.Add(ID_FIELD, IntToString(t.nextId))], nextId := t.nextId + 1)
  }

  /**
   * What insertRecord stores: the earlier records unchanged, then the record
   * with its "id" set to the old counter and every other field as given.
   */
  lemma InsertedRecords(t: TableValue, record: Record, f: string)
    requires t.nextId < INT_MAX
    ensures Inserted(t, record).records[..|t.records|] == t.records
    ensures HasId(Inserted(t, record).records[|t.records|], t.nextId)
    ensures f != ID_FIELD ==> Inserted(t, record).records[|t.records|].Get(f) == record.Get(f)
    ensures Inserted(t, record).records[|t.records|].fields.Keys == record.fields.Keys + {ID_FIELD}
  {
    AddGet(record, ID_FIELD, IntToString(t.nextId), f);
    AddGet(record, ID_FIELD, IntToString(t.nextId), ID_FIELD);
    assert (t.records + [record.Add(ID_FIELD, IntToString(t.nextId))])[..|t.records|] == t.records;
  }

  /** selectWhere: the records whose field `fieldName` reads as `value`, in table order. */
  function Select(records: seq<Record>, fieldName: string, value: string): (r: seq<Record>)
    ensures forall x :: x in r <==> x in records && x.Get(fieldName) == value
    ensures |r| <= |records|
  {
    if records == [] then []
    else
      var last := records[|records| - 1];
      Select(records[..|records| - 1], fieldName, value) + (if last.Get(fieldName) == value then [last] else [])
  }

  /** Selecting from two runs of records is selecting from each, in order. */
  lemma {:induction false} SelectAppend(a: seq<Record>, b: seq<Record>, fieldName: string, value: string)
    ensures Select(a + b, fieldName, value) == Select(a, fieldName, value) + Select(b, fieldName, value)
  {
    if b != [] {
      var n := |b| - 1;
      assert (a + b)[..|a + b| - 1] == a + b[..n];
      SelectAppend(a, b[..n], fieldName, value);
    } else {
      assert a + b == a;
    }
  }

  /** Selecting from a single record keeps it exactly when it matches. */
  lemma SelectSingle(x: Record, fieldName: string, value: string)
    ensures Select([x], fieldName, value) == if x.Get(fieldName) == value then [x] else []
  {
    assert [x][..0] == [];
  }

  /** find_if on the id: the position of the first record with that id, or |records| if none has it. */
  function FindId(records: seq<Record>, id: Int32): (i: nat)
    ensures i <= |records|
    ensures forall j :: 0 <= j < i ==> !HasId(records[j], id)
    ensures i < |records| ==> HasId(records[i], id)
  {
    if records == [] then 0
    else if HasId(records[0], id) then 0
    else 1 + FindId(records[1..], id)
  }

  /** The updates written into one record: each key set to its new value, other fields kept. */
  function ApplyUpdates(r: Record, updates: map<string, string>): (u: Record)
    ensures forall f :: u.Get(f) == if f in updates then updates[f] else r.Get(f)
    ensures u.fields.Keys == r.fields.Keys + updates.Keys
  {
    Record(r.fields + updates)
  }

  /**
   * updateRecord: fails with RecordNotFound when no record carries the id;
   * otherwise applies the updates to the first record that does.
   */
  function Updated(t: TableValue, id: Int32, updates: map<string, string>): (r: Result<TableValue>)
    ensures r.Failure? <==> forall j :: 0 <= j < |t.records| ==> !HasId(t.records[j], id)
    ensures r.Failure? ==> r.error == RecordNotFound(id)
    ensures r.Success? ==>
      var i := FindId(t.records, id);
      r.value.name == t.name && r.value.columns == t.columns && r.value.nextId == t.nextId &&
      |r.value.records| == |t.records| &&
      r.value.records[i] == ApplyUpdates(t.records[i], updates) &&
      forall j :: 0 <= j < |t.records| && j != i ==> r.value.records[j] == t.records[j]
  {
    var i := FindId(t.records, id);
    if i == |t.records| then Failure(RecordNotFound(id))
    else Success(t.(records := t.records[i := ApplyUpdates(t.records[i], updates)]))
  }

  /** remove_if + erase on the id: the records without that id, in their order. */
  function Deleted(records: seq<Record>, id: Int32): (r: seq<Record>)
    ensures |r| <= |records|
    ensures forall i :: 0 <= i < |r| ==> !HasId(r[i], id)
  {
    if records == [] then []
    else
      var last := records[|records| - 1];
      Deleted(records[..|records| - 1], id) + (if HasId(last, id) then [] else [last])
  }

  /** What delete keeps: exactly the records without the id. */
  lemma {:induction false} DeletedMembers(records: seq<Record>, id: Int32)
    ensures forall x :: x in Deleted(records, id) <==> x in records && !HasId(x, id)
  {
    if records != [] {
      var n := |records| - 1;
      DeletedMembers(records[..n], id);
      assert records == records[..n] + [records[n]];
    }
  }

  /** Deleting from two runs of records is deleting from each, in order. */
  lemma {:induction false} DeletedAppend(a: seq<Record>, b: seq<Record>, id: Int32)
    ensures Deleted(a + b, id) == Deleted(a, id) + Deleted(b, id)
  {
    if b != [] {
      var n := |b| - 1;
      assert (a + b)[..|a + b| - 1] == a + b[..n];
      DeletedAppend(a, b[..n], id);
    } else {
      assert a + b == a;
    }
  }

  /** Some record carries the id. */
  predicate AnyHasId(records: seq<Record>, id: Int32) {
    exists j :: 0 <= j < |records| && HasId(records[j], id)
  }

  lemma AnyHasIdSnoc(records: seq<Record>, id: Int32)
    requires records != []
    ensures AnyHasId(records, id) <==> AnyHasId(records[..|records| - 1], id) || HasId(records[|records| - 1], id)
  {
    var n := |records| - 1;
    if AnyHasId(records, id) {
      var j :| 0 <= j < |records| && HasId(records[j], id);
      if j < n { assert records[..n][j] == records[j]; }
    }
    if AnyHasId(records[..n], id) {
      var j :| 0 <= j < n && HasId(records[..n][j], id);
      assert records[j] == records[..n][j];
    }
  }

  /** Delete removes something exactly when some record carries the id. */
  lemma {:induction false} DeletedShrinks(records: seq<Record>, id: Int32)
    ensures |Deleted(records, id)| < |records| <==> AnyHasId(records, id)
  {
    if records != [] {
      var n := |records| - 1;
      DeletedShrinks(records[..n], id);
      AnyHasIdSnoc(records, id);
    }
  }

  /** A second delete of the same id finds nothing and changes nothing. */
  lemma DeleteTwice(records: seq<Record>, id: Int32)
    ensures Deleted(Deleted(records, id), id) == Deleted(records, id)
    ensures !AnyHasId(Deleted(records, id), id)
  {
    var once := Deleted(records, id);
    DeletedMembers(records, id);
    assert forall j :: 0 <= j < |once| ==> once[j] in once;
    DeletedNoMatch(once, id);
  }

  /** Deleting an id no record carries leaves the records as they are. */
  lemma {:induction false} DeletedNoMatch(records: seq<Record>, id: Int32)
    requires !AnyHasId(records, id)
    ensures Deleted(records, id) == records
  {
    if records != [] {
      var n := |records| - 1;
      AnyHasIdSnoc(records, id);
      DeletedNoMatch(records[..n], id);
      assert records[..n] + [records[n]] == records;
    }
  }

  /**
   * With unique increasing ids (as inserts and deletes keep them), deleting an
   * id that is present removes exactly one record.
   */
  lemma {:induction false} DeleteOne(records: seq<Record>, id: Int32, next: int)
    requires IdsIncreasing(records, next) && AnyHasId(records, id)
    ensures |Deleted(records, id)| == |records| - 1
  {
    var n := |records| - 1;
    var prefix := records[..n];
    var last := records[n];
    IdsIncreasingPrefix(records, n, next);
    AnyHasIdSnoc(records, id);
    if HasId(last, id) {
      ParseIntToString(id);
      assert IdOf(last) == Some(id);
      forall j | 0 <= j < n ensures !HasId(prefix[j], id) {
        assert prefix[j] == records[j];
      }
      DeletedNoMatch(prefix, id);
    } else {
      DeleteOne(prefix, id, next);
    }
  }

  /** Parsed value of a record's id field, when it is a well-formed integer. */
  function IdOf(r: Record): Option<Int32> {
    ParseInt(r.Get(ID_FIELD))
  }

  /** Every record has an integer id in [1, next), and the ids strictly increase along the table. */
  ghost predicate IdsIncreasing(records: seq<Record>, next: int) {
    (forall i :: 0 <= i < |records| ==> IdOf(records[i]).Some? && 1 <= IdOf(records[i]).value < next) &&
    (forall i, j :: 0 <= i < j < |records| && IdOf(records[i]).Some? && IdOf(records[j]).Some? ==>
       IdOf(records[i]).value < IdOf(records[j]).value)
  }

  /** Inserts and deletes, the operations that keep ids unique (an update may rewrite an id). */
  datatype TableOp = InsertOp(record: Record) | DeleteOp(id: Int32)

  function InsertCount(ops: seq<TableOp>): nat {
    if ops == [] then 0 else (if ops[0].InsertOp? then 1 else 0) + InsertCount(ops[1..])
  }

  function Run(t: TableValue, ops: seq<TableOp>): TableValue
    requires t.nextId + InsertCount(ops) <= INT_MAX
    decreases ops
  {
    if ops == [] then t
    else match ops[0]
      case InsertOp(r) => Run(Inserted(t, r), ops[1..])
      case DeleteOp(id) => Run(t.(records := Deleted(t.records, id)), ops[1..])
  }

  lemma IdsIncreasingPrefix(records: seq<Record>, n: nat, next: int)
    requires n <= |records| && IdsIncreasing(records, next)
    ensures IdsIncreasing(records[..n], next)
  {
    assert forall i :: 0 <= i < n ==> records[..n][i] == records[i];
  }

  lemma IdsIncreasingSnoc(d: seq<Record>, last: Record, next: int)
    requires IdsIncreasing(d, next)
    requires IdOf(last).Some? && 1 <= IdOf(last).value < next
    requires forall x :: x in d ==> IdOf(x).Some? && IdOf(x).value < IdOf(last).value
    ensures IdsIncreasing(d + [last], next)
  {
    var r := d + [last];
    assert forall i :: 0 <= i < |d| ==> r[i] == d[i] && d[i] in d;
  }

  lemma {:induction false} DeletedKeepsIdsIncreasing(records: seq<Record>, id: Int32, next: int)
    requires IdsIncreasing(records, next)
    ensures IdsIncreasing(Deleted(records, id), next)
  {
    if records != [] {
      var n := |records| - 1;
      var prefix := records[..n];
      var last := records[n];
      IdsIncreasingPrefix(records, n, next);
      DeletedKeepsIdsIncreasing(prefix, id, next);
      var d := Deleted(prefix, id);
      DeletedMembers(prefix, id);
      if !HasId(last, id) {
        forall x | x in d ensures IdOf(x).Some? && IdOf(x).value < IdOf(last).value {
          var k :| 0 <= k < n && prefix[k] == x;
          assert records[k] == x;
        }
        IdsIncreasingSnoc(d, last, next);
      }
    }
  }

  lemma InsertedKeepsIdsIncreasing(t: TableValue, r: Record)
    requires t.nextId < INT_MAX && t.nextId >= 1
    requires IdsIncreasing(t.records, t.nextId)
    ensures IdsIncreasing(Inserted(t, r).records, t.nextId + 1)
  {
    var u := Inserted(t, r);
    InsertedRecords(t, r, ID_FIELD);
    ParseIntToString(t.nextId);
    assert IdOf(u.records[|t.records|]) == Some(t.nextId);
    assert forall i :: 0 <= i < |t.records| ==> u.records[i] == t.records[i];
  }

  /**
   * Starting from a fresh table, every run of inserts and deletes leaves the
   * counter at 1 + the number of inserts and the ids increasing below it, so
   * the id the next insert assigns is carried by no record.
   */
  lemma {:induction false} FreshTableIds(name: string, columns: seq<string>, ops: seq<TableOp>)
    requires 1 + InsertCount(ops) <= INT_MAX
    ensures Run(EmptyTable(name, columns), ops).nextId == 1 + InsertCount(ops)
    ensures IdsIncreasing(Run(EmptyTable(name, columns), ops).records, Run(EmptyTable(name, columns), ops).nextId)
    ensures var t := Run(EmptyTable(name, columns), ops);
      forall i :: 0 <= i < |t.records| ==> !HasId(t.records[i], t.nextId)
  {
    RunKeepsIds(EmptyTable(name, columns), ops);
  }

  lemma {:induction false} RunKeepsIds(t: TableValue, ops: seq<TableOp>)
    requires t.nextId >= 1 && t.nextId + InsertCount(ops) <= INT_MAX
    requires IdsIncreasing(t.records, t.nextId)
    ensures Run(t, ops).nextId == t.nextId + InsertCount(ops)
    ensures IdsIncreasing(Run(t, ops).records, Run(t, ops).nextId)
    ensures forall i :: 0 <= i < |Run(t, ops).records| ==> !HasId(Run(t, ops).records[i], Run(t, ops).nextId)
    decreases ops
  {
    if ops == [] {
      ParseIntToString(t.nextId);
    } else {
      match ops[0]
      case InsertOp(r) =>
        InsertedKeepsIdsIncreasing(t, r);
        RunKeepsIds(Inserted(t, r), ops[1..]);
      case DeleteOp(id) =>
        DeletedKeepsIdsIncreasing(t.records, id, t.nextId);
        RunKeepsIds(t.(records := Deleted(t.records, id)), ops[1..]);
    }
  }

  /**
   * A table people(name, age): two addData calls, a delete of id 1, then a
   * third addData. The survivor keeps id 2 and the new record gets id 3:
   * ids are not reused.
   */
  lemma PeopleScenario(t0: TableValue, t1: TableValue, t2: TableValue, t3: TableValue, t4: TableValue)
    requires t0 == EmptyTable("people", ["name", "age"])
    requires t1 == Inserted(t0, Build(t0.columns, ["Ann", "30"]))
    requires t2 == Inserted(t1, Build(t0.columns, ["Bo", "25"]))
    requires t3 == t2.(records := Deleted(t2.records, 1))
    requires t4 == Inserted(t3, Build(t0.columns, ["Cy", "40"]))
    ensures |t4.records| == 2 && t4.nextId == 4
    ensures HasId(t4.records[0], 2) && t4.records[0].Get("name") == "Bo"
    ensures HasId(t4.records[1], 3) && t4.records[1].Get("name") == "Cy" && t4.records[1].Get("age") == "40"
  {
    var columns := t0.columns;
    SmallIds();
    var first := Build(columns, ["Ann", "30"]).Add(ID_FIELD, "1");
    var second := Build(columns, ["Bo", "25"]).Add(ID_FIELD, "2");
    var third := Build(columns, ["Cy", "40"]).Add(ID_FIELD, "3");
    assert t2.records == [first, second] && t2.nextId == 3;
    DeleteFirstOfTwo(first, second, 1);
    assert t4.records == [second, third];
    ScenarioFields(columns, ["Bo", "25"], "2", "name");
    ScenarioFields(columns, ["Cy", "40"], "3", "name");
    ScenarioFields(columns, ["Cy", "40"], "3", "age");
  }

  /** The decimal text of the ids in the scenario. */
  lemma SmallIds()
    ensures IntToString(1) == "1" && IntToString(2) == "2" && IntToString(3) == "3"
  {
  }

  /** Of two records of which only the first has the id, delete keeps the second. */
  lemma DeleteFirstOfTwo(a: Record, b: Record, id: Int32)
    requires HasId(a, id) && !HasId(b, id)
    ensures Deleted([a, b], id) == [b]
  {
    assert [a, b][..1] == [a];
    assert [a][..0] == [];
  }

  /** A record built from two columns and stamped with an id: its id and a column value. */
  lemma ScenarioFields(columns: seq<string>, values: seq<string>, id: string, c: string)
    requires columns == ["name", "age"] && |values| == 2 && c in columns
    ensures Build(columns, values).Add(ID_FIELD, id).Get(ID_FIELD) == id
    ensures Build(columns, values).Add(ID_FIELD, id).Get(c) == values[LastIndex(columns, c)]
  {
    BuildGet(columns, values, c);
    AddGet(Build(columns, values), ID_FIELD, id, c);
  }

  class Table {
    const name: string
    const columns: seq<string>
    var records: seq<Record>
    var nextID: Int32

    function Value(): TableValue
      reads this
    {
      TableValue(name, columns, records, nextID)
    }

    /** UFOTable(tableName, cols): no records, counter 1. */
    constructor (tableName: string, cols: seq<string>)
      ensures Value() == EmptyTable(tableName, cols)
    {
      name := tableName;
      columns := cols;
      records := [];
      nextID := 1;
    }

    /** insertRecord: incrementing the counter at INT_MAX is signed overflow, which callers must avoid. */
    method InsertRecord(record: Record)
      requires nextID < INT_MAX
      modifies this
      ensures Value() == Inserted(old(Value()), record)
    {
      var newRecord := record.Add(ID_FIELD, IntToString(nextID));
      nextID := nextID + 1;
      records := records + [newRecord];
    }

    /**
     * selectWhere, the member of the table object: it reads the records
     * field. `Select` is the same filter on a record sequence, which the
     * value-level lemmas (SelectAppend, SelectSingle) are stated over.
     */
    function SelectWhere(fieldName: string, value: string): (r: seq<Record>)
      reads this
      ensures forall x :: x in r <==> x in records && x.Get(fieldName) == value
      ensures r == Select(records, fieldName, value)
    {
      Select(records, fieldName, value)
    }

    /** updateRecord: a find_if for the id, then each update written into the found record. */
    method UpdateRecord(id: Int32, updates: map<string, string>) returns (s: Status)
      modifies this
      ensures var u := Updated(old(Value()), id, updates);
        if u.Success? then s == Ok && Value() == u.value
        else s == Err(u.error) && Value() == old(Value())
    {
      var i := 0;
      while i < |records| && !HasId(records[i], id)
        invariant 0 <= i <= |records|
        invariant forall j :: 0 <= j < i ==> !HasId(records[j], id)
      {
        i := i + 1;
      }
      if i == |records| {
        return Err(RecordNotFound(id));
      }
      assert i == FindId(records, id) by { FindIdUnique(records, id, i); }
      var target := WriteUpdates(records[i], updates);
      records := records[i := target];
      s := Ok;
    }

    /** deleteRecord: remove_if + erase keeps the other records in order; true iff something went. */
    method DeleteRecord(id: Int32) returns (removed: bool)
      modifies this
      ensures Value() == old(Value()).(records := Deleted(old(records), id))
      ensures removed <==> AnyHasId(old(records), id)
    {
      var kept: seq<Record> := [];
      var i := 0;
      while i < |records|
        invariant 0 <= i <= |records|
        invariant kept == Deleted(records[..i], id)
      {
        assert records[..i + 1][..i] == records[..i];
        if !HasId(records[i], id) {
          kept := kept + [records[i]];
        }
        i := i + 1;
      }
      assert records[..i] == records;
      DeletedShrinks(records, id);
      removed := |kept| < |records|;
      records := kept;
    }
  }

  /** The loop of updateRecord over the updates: each key written into the found record in turn. */
  method WriteUpdates(r: Record, updates: map<string, string>) returns (u: Record)
    ensures u == ApplyUpdates(r, updates)
  {
    u := r;
    var pending := updates.Keys;
    while pending != {}
      invariant pending <= updates.Keys
      invariant u.fields == r.fields + map k | k in updates.Keys - pending :: updates[k]
      decreases pending
    {
      var k :| k in pending;
      u := u.Add(k, updates[k]);
      pending := pending - {k};
    }
    assert u.fields == r.fields + updates;
  }

  lemma FindIdUnique(records: seq<Record>, id: Int32, i: nat)
    requires i < |records| && HasId(records[i], id)
    requires forall j :: 0 <= j < i ==> !HasId(records[j], id)
    ensures FindId(records, id) == i
  {
  }
}
