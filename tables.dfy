/** Loaded tables: a column list and positional rows, as a pandas DataFrame holds them. */
module Tables {
  import opened Records

  datatype Table = Table(columns: seq<string>, rows: seq<seq<Value>>)

  /** Column names are unique (pandas renames repeated CSV headers) and every row has one cell per column. */
  ghost predicate WellFormed(t: Table) {
    Distinct(t.columns) && forall i :: 0 <= i < |t.rows| ==> |t.rows[i]| == |t.columns|
  }

  /** The position of column `c`: its first, and for distinct columns only, occurrence. */
  function IndexOf(cols: seq<string>, c: string): (i: nat)
    requires c in cols
    ensures i < |cols| && cols[i] == c
    ensures forall j :: 0 <= j < i ==> cols[j] != c
  {
    if cols[0] == c then 0 else 1 + IndexOf(cols[1..], c)
  }

  lemma IndexOfDistinct(cols: seq<string>, i: nat)
    requires Distinct(cols) && i < |cols|
    ensures IndexOf(cols, cols[i]) == i
  {
  }

  /** `row[c]` on a pandas row: the cell under column `c`. */
  function Cell(cols: seq<string>, row: seq<Value>, c: string): Value
    requires c in cols && |row| == |cols|
  {
    row[IndexOf(cols, c)]
  }

  /** With distinct columns, the cell under the `k`-th column is the `k`-th cell. */
  lemma CellUnder(cols: seq<string>, row: seq<Value>, c: string, k: nat)
    requires Distinct(cols) && |row| == |cols| && k < |cols| && cols[k] == c
    ensures c in cols && Cell(cols, row, c) == row[k]
  {
    IndexOfDistinct(cols, k);
  }

  /** `row.get(c, None)` on a pandas row. */
  function Get(cols: seq<string>, row: seq<Value>, c: string): Value
    requires |row| == |cols|
  {
    if c in cols then Cell(cols, row, c) else Null
  }

  /** The set of values in column position `p` of the given rows. */
  function Names(rows: seq<seq<Value>>, p: nat): set<Value>
    requires forall i :: 0 <= i < |rows| ==> p < |rows[i]|
  {
    set i | 0 <= i < |rows| :: rows[i][p]
  }

  /** No two rows share a value at position `p`. */
  ghost predicate UniqueAt(rows: seq<seq<Value>>, p: nat)
    requires forall i :: 0 <= i < |rows| ==> p < |rows[i]|
  {
    forall i, j :: 0 <= i < j < |rows| ==> rows[i][p] != rows[j][p]
  }

  lemma NamesCons(rows: seq<seq<Value>>, p: nat)
    requires rows != [] && forall i :: 0 <= i < |rows| ==> p < |rows[i]|
    ensures Names(rows, p) == {rows[0][p]} + Names(rows[1..], p)
  {
    var tail := rows[1..];
    forall v | v in Names(rows, p) ensures v in {rows[0][p]} + Names(tail, p) {
      var i :| 0 <= i < |rows| && rows[i][p] == v;
      if i > 0 { assert tail[i - 1][p] == v; }
    }
    forall v | v in Names(tail, p) ensures v in Names(rows, p) {
      var i :| 0 <= i < |tail| && tail[i][p] == v;
      assert rows[i + 1][p] == v;
    }
  }
}
