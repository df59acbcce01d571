/** Rebuilding each merged row as a record with `name`, `openset` and `reason` first, and indexing the records by name. */
module Annotations {
  import opened Records
  import opened Tables
  import opened Index
  import opened Join

  const Openset := "openset"
  const Reason := "reason"

  /** The fields every combined record starts with, in this order. */
  const Hoisted: seq<string> := [Key, Openset, Reason]

  /** The columns that are not hoisted, in their original order. */
  function Others(cols: seq<string>): (r: seq<string>)
    ensures |r| <= |cols|
  {
    if cols == [] then []
    else
      var last := cols[|cols| - 1];
      Others(cols[..|cols| - 1]) + (if last in Hoisted then [] else [last])
  }

  lemma {:induction false} OthersMembership(cols: seq<string>)
    ensures forall c :: c in Others(cols) <==> c in cols && c !in Hoisted
  {
    if cols != [] {
      var init := cols[..|cols| - 1];
      OthersMembership(init);
      assert cols == init + [cols[|cols| - 1]];
    }
  }

  lemma {:induction false} OthersDistinct(cols: seq<string>)
    requires Distinct(cols)
    ensures Distinct(Others(cols))
  {
    if cols != [] {
      var init := cols[..|cols| - 1];
      var last := cols[|cols| - 1];
      assert Distinct(init);
      OthersDistinct(init);
      OthersMembership(init);
      assert last !in init;
    }
  }

  lemma HoistedDistinct()
    ensures Distinct(Hoisted)
  {
  }

  /** The record `combined_row` holds once the column loop has passed the first `n` merged columns. */
  function RecordUpTo(cols: seq<string>, row: seq<Value>, n: nat): (d: Dict)
    requires Distinct(cols) && Key in cols && |row| == |cols| && n <= |cols|
  {
    assert Distinct(cols[..n]);
    OthersMembership(cols[..n]);
    OthersDistinct(cols[..n]);
    HoistedDistinct();
    var ks := Hoisted + Others(cols[..n]);
    DistinctAppend(Hoisted, Others(cols[..n]));
    DictRep(ks, map c | c in ks :: Get(cols, row, c))
  }

  /**
   * The record built from one merged row: `name`, then `openset` and `reason` as `row.get` gives
   * them (None when the merged table has no column of exactly that name), then every other merged
   * column with its cell, in column order, and no other key.
   */
  function CombinedRecord(cols: seq<string>, row: seq<Value>): (d: Dict)
    requires Distinct(cols) && Key in cols && |row| == |cols|
    ensures |d.keys| >= 3 && d.keys[..3] == Hoisted && d.keys[3..] == Others(cols)
    ensures forall c :: c in d.vals <==> c in Hoisted || c in cols
    ensures d.vals[Openset] == Get(cols, row, Openset) && d.vals[Reason] == Get(cols, row, Reason)
    ensures forall c :: c in cols ==> d.vals[c] == Cell(cols, row, c)
  {
    assert cols[..|cols|] == cols;
    OthersMembership(cols);
    RecordUpTo(cols, row, |cols|)
  }

  /** The dict literal `{'name': ..., 'openset': ..., 'reason': ...}` the record starts from. */
  function StartRecord(cols: seq<string>, row: seq<Value>): (d: Dict)
    requires Key in cols && |row| == |cols|
    ensures d.keys == Hoisted
    ensures d.vals[Key] == Cell(cols, row, Key)
    ensures d.vals[Openset] == Get(cols, row, Openset) && d.vals[Reason] == Get(cols, row, Reason)
  {
    HoistedDistinct();
    DictRep(Hoisted, map[Key := Cell(cols, row, Key), Openset := Get(cols, row, Openset), Reason := Get(cols, row, Reason)])
  }

  lemma RecordUpToStart(cols: seq<string>, row: seq<Value>)
    requires Distinct(cols) && Key in cols && |row| == |cols|
    ensures RecordUpTo(cols, row, 0) == StartRecord(cols, row)
  {
    var d := StartRecord(cols, row);
    var e := RecordUpTo(cols, row, 0);
    assert cols[..0] == [];
    assert e.keys == Hoisted;
    assert e.vals.Keys == d.vals.Keys;
    assert e.vals[Key] == d.vals[Key];
  }

  lemma RecordUpToStep(cols: seq<string>, row: seq<Value>, i: nat)
    requires Distinct(cols) && Key in cols && |row| == |cols| && i < |cols|
    ensures RecordUpTo(cols, row, i + 1)
      == if cols[i] in Hoisted then RecordUpTo(cols, row, i) else Put(RecordUpTo(cols, row, i), cols[i], Cell(cols, row, cols[i]))
  {
    var c := cols[i];
    assert cols[..i + 1] == cols[..i] + [c];
    assert cols[..i + 1][..i] == cols[..i];
    var a := RecordUpTo(cols, row, i);
    var b := RecordUpTo(cols, row, i + 1);
    if c in Hoisted {
      assert b.keys == a.keys;
      assert b.vals == a.vals;
    } else {
      OthersMembership(cols[..i]);
      assert c !in cols[..i];
      assert c !in a.vals;
      var p := Put(a, c, Cell(cols, row, c));
      assert p.keys == b.keys;
      assert p.vals == b.vals;
    }
  }

  /** The loop that fills `combined_row`, column by column. */
  method BuildCombinedRow(cols: seq<string>, row: seq<Value>) returns (d: Dict)
    requires Distinct(cols) && Key in cols && |row| == |cols|
    ensures d == CombinedRecord(cols, row)
  {
    d := StartRecord(cols, row);
    RecordUpToStart(cols, row);
    for i := 0 to |cols|
      invariant d == RecordUpTo(cols, row, i)
    {
      RecordUpToStep(cols, row, i);
      if cols[i] !in Hoisted {
        d := Put(d, cols[i], Cell(cols, row, cols[i]));
      }
    }
  }

  /** `data` holds the combined records of the first `|data|` rows of `t`. */
  ghost predicate RebuiltPrefix(t: Table, data: seq<Dict>)
    requires WellFormed(t) && Key in t.columns
  {
    |data| <= |t.rows| && forall k :: 0 <= k < |data| ==> data[k] == CombinedRecord(t.columns, t.rows[k])
  }

  lemma RebuiltPrefixSnoc(t: Table, data: seq<Dict>, d: Dict)
    requires WellFormed(t) && Key in t.columns
    requires RebuiltPrefix(t, data) && |data| < |t.rows|
    requires d == CombinedRecord(t.columns, t.rows[|data|])
    ensures RebuiltPrefix(t, data + [d])
  {
    var next := data + [d];
    forall k | 0 <= k < |next| ensures next[k] == CombinedRecord(t.columns, t.rows[k]) {
      if k < |data| { assert next[k] == data[k]; }
    }
  }

  /** `merged_data`: one combined record per merged row, in row order. */
  method RebuildRows(t: Table) returns (data: seq<Dict>)
    requires WellFormed(t) && Key in t.columns
    ensures |data| == |t.rows|
    ensures forall i :: 0 <= i < |t.rows| ==> data[i] == CombinedRecord(t.columns, t.rows[i])
  {
    data := [];
    for i := 0 to |t.rows|
      invariant |data| == i
      invariant RebuiltPrefix(t, data)
    {
      var d := BuildCombinedRow(t.columns, t.rows[i]);
      RebuiltPrefixSnoc(t, data, d);
      data := data + [d];
    }
  }

  /** Every record has a `name` field. */
  ghost predicate AllNamed(data: seq<Dict>) {
    forall i :: 0 <= i < |data| ==> Key in data[i].vals
  }

  /** No later record has the same name as record `i`. */
  ghost predicate LastNamed(data: seq<Dict>, i: nat)
    requires AllNamed(data) && i < |data|
  {
    forall j :: i < j < |data| ==> data[j].vals[Key] != data[i].vals[Key]
  }

  /** The assignments `merged_by_name[entry['name']] = entry`, in order. */
  function NamePairs(data: seq<Dict>): (ps: seq<(Value, Dict)>)
    requires AllNamed(data)
    ensures |ps| == |data|
    ensures forall i :: 0 <= i < |data| ==> ps[i] == (data[i].vals[Key], data[i])
  {
    seq(|data|, i requires 0 <= i < |data| => (data[i].vals[Key], data[i]))
  }

  /**
   * `merged_by_name`: its keys are exactly the names of the records, each key maps to the last
   * record with that name and carries that name, and there are at most as many entries as records.
   */
  method IndexByName(data: seq<Dict>) returns (m: map<Value, Dict>)
    requires AllNamed(data)
    ensures m == LastWins(NamePairs(data))
    ensures m.Keys == set i | 0 <= i < |data| :: data[i].vals[Key]
    ensures forall k :: k in m ==> Key in m[k].vals && m[k].vals[Key] == k
    ensures forall i :: 0 <= i < |data| && LastNamed(data, i) ==> data[i].vals[Key] in m && m[data[i].vals[Key]] == data[i]
    ensures |m| <= |data|
  {
    var ps := NamePairs(data);
    m := map[];
    for i := 0 to |data|
      invariant m == LastWins(ps[..i])
    {
      LastWinsStep(ps, i);
      m := m[data[i].vals[Key] := data[i]];
    }
    assert ps[..|data|] == ps;
    LastWinsKeys(ps);
    assert KeysOf(ps) == set i | 0 <= i < |data| :: data[i].vals[Key] by {
      forall k | k in KeysOf(ps) ensures k in set i | 0 <= i < |data| :: data[i].vals[Key] {
        var i :| 0 <= i < |ps| && ps[i].0 == k;
      }
    }
    LastWinsFrom(ps);
    forall k | k in m ensures Key in m[k].vals && m[k].vals[Key] == k {
      var i :| 0 <= i < |ps| && ps[i] == (k, m[k]);
    }
    forall i | 0 <= i < |data| && LastNamed(data, i)
      ensures data[i].vals[Key] in m && m[data[i].vals[Key]] == data[i]
    {
      LastWinsLast(ps, i);
    }
    LastWinsSize(ps);
  }
}
