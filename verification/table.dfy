/**
  The loaded account sheet: an ordered list of column names and the rows read
  from the spreadsheet, each row mapping every column to its cell value.
  Cell values are kept as strings.
 */
module AccountTable {

  /** An optional value: an argument the caller may leave out, or a table that
      failed to load. */
  datatype Option<+T> = None | Some(value: T)

  /** The two columns the lookup can filter on. */
  const AccountNameColumn: string := "ACCOUNT NAME"
  const CurrencyColumn: string := "CURRENCIES"

  type Row = map<string, string>

  /** The set of names in a column list. */
  function ColumnSet(columns: seq<string>): (r: set<string>)
    ensures forall c :: c in r <==> c in columns
  {
    set c | c in columns
  }

  datatype Table = Table(columns: seq<string>, rows: seq<Row>) {

    /** What a loaded sheet always satisfies: the header names are distinct
        (the spreadsheet reader renames repeated headers) and every row has a
        cell for exactly those columns. */
    predicate Valid() {
      && (forall i, j :: 0 <= i < j < |columns| ==> columns[i] != columns[j])
      && (forall k :: 0 <= k < |rows| ==> rows[k].Keys == ColumnSet(columns))
    }
  }

  /** A table as the spreadsheet reader produces it. */
  type Frame = t: Table | t.Valid() witness Table([], [])

  /** One "column: value" entry of a record. */
  datatype Field = Field(key: string, value: string)

  /** A row turned into a dictionary: its fields, in column order. */
  type Record = seq<Field>

  /** The record of a row, listing every column in table order. */
  function ToRecord(columns: seq<string>, row: Row): (r: Record)
    requires ColumnSet(columns) <= row.Keys
    ensures |r| == |columns|
    ensures forall k :: 0 <= k < |r| ==> r[k].key == columns[k] && r[k].value == row[columns[k]]
  {
    seq(|columns|, k requires 0 <= k < |columns| => Field(columns[k], row[columns[k]]))
  }

  /** The keys a record lists. */
  function KeysOf(r: Record): set<string> {
    set j | 0 <= j < |r| :: r[j].key
  }

  /** A record read back as a dictionary; a later field wins on a repeated key. */
  function AsMap(r: Record): (m: map<string, string>)
    ensures m.Keys == KeysOf(r)
    ensures forall k :: k in m ==> exists j :: 0 <= j < |r| && r[j].key == k && m[k] == r[j].value
  {
    if |r| == 0 then map[]
    else
      var init := r[..|r| - 1];
      var last := r[|r| - 1];
      var m := AsMap(init);
      assert KeysOf(r) == KeysOf(init) + {last.key} by {
        assert forall j :: 0 <= j < |init| ==> init[j] == r[j];
      }
      assert forall k :: k in m ==> exists j :: 0 <= j < |r| && r[j].key == k && m[k] == r[j].value by {
        assert forall j :: 0 <= j < |init| ==> init[j] == r[j];
      }
      m[last.key := last.value]
  }

  /** Turning a row into a record over exactly its columns and reading the
      record back as a dictionary gives the row again: the record loses nothing. */
  lemma ToRecordRoundTrip(columns: seq<string>, row: Row)
    requires ColumnSet(columns) == row.Keys
    ensures AsMap(ToRecord(columns, row)) == row
  {
    var rec := ToRecord(columns, row);
    var m := AsMap(rec);
    forall c | c in row.Keys
      ensures c in KeysOf(rec)
    {
      var k :| 0 <= k < |columns| && columns[k] == c;
      assert rec[k].key == c;
    }
    assert m.Keys == row.Keys;
    forall c | c in m
      ensures m[c] == row[c]
    {
      var j :| 0 <= j < |rec| && rec[j].key == c && m[c] == rec[j].value;
    }
  }
}
