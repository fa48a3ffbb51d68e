/**
 * UFORecords: one record, a map from field name to string value. The C++
 * class is a value type (records are copied into a table and held by value
 * in its vector), so it is a datatype here and `add` returns the updated
 * record; an update "in place" replaces the element of the table's sequence.
 */
module Records {

  datatype Record = Record(fields: map<string, string>) {

    /** getField: the stored value, or the empty string for a missing field. */
    function Get(fieldName: string): (v: string)
      ensures fieldName in fields ==> v == fields[fieldName]
      ensures fieldName !in fields ==> v == ""
    {
      if fieldName in fields then fields[fieldName] else ""
    }

    /** add: upsert one field. */
    function Add(fieldName: string, value: string): (r: Record)
      ensures r.Get(fieldName) == value
    {
      Record(fields[fieldName := value])
    }
  }

  /** After add, the field reads as the new value and every other field as before. */
  lemma AddGet(r: Record, fieldName: string, value: string, f: string)
    ensures r.Add(fieldName, value).Get(f) == if f == fieldName then value else r.Get(f)
    ensures r.Add(fieldName, value).fields.Keys == r.fields.Keys + {fieldName}
  {
  }

  /** Writing a field twice keeps only the second value. */
  lemma AddTwice(r: Record, fieldName: string, first: string, second: string)
    ensures r.Add(fieldName, first).Add(fieldName, second) == r.Add(fieldName, second)
  {
    assert r.fields[fieldName := first][fieldName := second] == r.fields[fieldName := second];
  }

  const Empty: Record := Record(map[])

  /** The last position at which `c` occurs in `columns`. */
  function LastIndex(columns: seq<string>, c: string): (i: nat)
    requires c in columns
    ensures i < |columns| && columns[i] == c
    ensures forall j :: i < j < |columns| ==> columns[j] != c
  {
    if columns[|columns| - 1] == c then |columns| - 1 else LastIndex(columns[..|columns| - 1], c)
  }

  /**
   * The record that `add(columns[i], values[i])` for i = 0, 1, ... builds from
   * an empty record (addData, and loadFromFile for each record line).
   */
  function Build(columns: seq<string>, values: seq<string>): (r: Record)
    requires |columns| == |values|
    ensures columns != [] ==> r.Get(columns[|columns| - 1]) == values[|values| - 1]
  {
    if columns == [] then Empty
    else Build(columns[..|columns| - 1], values[..|values| - 1]).Add(columns[|columns| - 1], values[|values| - 1])
  }

  /**
   * A built record has exactly the columns as fields; a column named more
   * than once holds the value given at its last position.
   */
  lemma {:induction false} BuildGet(columns: seq<string>, values: seq<string>, c: string)
    requires |columns| == |values|
    ensures Build(columns, values).fields.Keys == set i | 0 <= i < |columns| :: columns[i]
    ensures c in columns ==> Build(columns, values).Get(c) == values[LastIndex(columns, c)]
    ensures c !in columns ==> Build(columns, values).Get(c) == ""
  {
    if columns != [] {
      var n := |columns| - 1;
      BuildGet(columns[..n], values[..n], c);
      AddGet(Build(columns[..n], values[..n]), columns[n], values[n], c);
      assert (set i | 0 <= i < |columns| :: columns[i]) == (set i | 0 <= i < n :: columns[..n][i]) + {columns[n]};
      if c in columns && c != columns[n] {
        assert c in columns[..n];
        assert LastIndex(columns, c) == LastIndex(columns[..n], c);
      }
    }
  }
}
