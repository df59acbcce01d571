/**
 * The inner merge of the track2 and track3 tables on `name`, with the suffixes `_track2` and
 * `_track3` on the non-key columns both tables have.
 */
module Join {
  import opened Records
  import opened Tables

  const Key := "name"
  const LeftSuffix := "_track2"
  const RightSuffix := "_track3"

  /** The merged name of a left column: suffixed when the right table has it too (the key excepted). */
  function LeftName(c: string, rc: seq<string>): string {
    if c != Key && c in rc then c + LeftSuffix else c
  }

  /** The merged name of a right non-key column: suffixed when the left table has it too. */
  function RightName(c: string, lc: seq<string>): string {
    if c in lc then c + RightSuffix else c
  }

  /** `s` without its element at position `p`. */
  function DropAt<T>(s: seq<T>, p: nat): (r: seq<T>)
    requires p < |s|
    ensures |r| == |s| - 1
    ensures forall i :: 0 <= i < p ==> r[i] == s[i]
    ensures forall i :: p <= i < |r| ==> r[i] == s[i + 1]
  {
    s[..p] + s[p + 1..]
  }

  /** The right table's columns without its key column. */
  function RightRest(rc: seq<string>): seq<string>
    requires Key in rc
  {
    DropAt(rc, IndexOf(rc, Key))
  }

  /** The merged columns: the left columns in order, then the right non-key columns in order. */
  function JoinColumns(lc: seq<string>, rc: seq<string>): (r: seq<string>)
    requires Key in rc
    ensures |r| == |lc| + |rc| - 1
    ensures forall i :: 0 <= i < |lc| ==> r[i] == LeftName(lc[i], rc)
    ensures forall i :: 0 <= i < |rc| - 1 ==> r[|lc| + i] == RightName(RightRest(rc)[i], lc)
  {
    var rest := RightRest(rc);
    seq(|lc|, i requires 0 <= i < |lc| => LeftName(lc[i], rc))
      + seq(|rest|, i requires 0 <= i < |rest| => RightName(rest[i], lc))
  }

  /** The merged row of a left row and a right row: the left cells, then the right cells but the key. */
  function JoinedRow(l: seq<Value>, r: seq<Value>, p: nat): seq<Value>
    requires p < |r|
  {
    l + DropAt(r, p)
  }

  /** The merged rows of one left row: one per right row with the same key, in right-table order. */
  function Matches(l: seq<Value>, rrows: seq<seq<Value>>, li: nat, p: nat): seq<seq<Value>>
    requires li < |l|
    requires forall j :: 0 <= j < |rrows| ==> p < |rrows[j]|
  {
    if rrows == [] then []
    else
      (if rrows[0][p] == l[li] then [JoinedRow(l, rrows[0], p)] else [])
        + Matches(l, rrows[1..], li, p)
  }

  /** The merged rows: one per (left row, right row) pair with equal keys, in left-table order. */
  function JoinRows(lrows: seq<seq<Value>>, rrows: seq<seq<Value>>, li: nat, p: nat): seq<seq<Value>>
    requires forall i :: 0 <= i < |lrows| ==> li < |lrows[i]|
    requires forall j :: 0 <= j < |rrows| ==> p < |rrows[j]|
  {
    if lrows == [] then []
    else Matches(lrows[0], rrows, li, p) + JoinRows(lrows[1..], rrows, li, p)
  }

  datatype JoinResult = Joined(table: Table) | ColumnClash

  /**
   * `pd.merge(track2, track3, on='name', how='inner', suffixes=('_track2', '_track3'))`.
   * When suffixing leaves two merged columns with the same name the merge raises instead.
   */
  function InnerJoin(left: Table, right: Table): (r: JoinResult)
    requires WellFormed(left) && WellFormed(right)
    requires Key in left.columns && Key in right.columns
    ensures r.Joined? <==> Distinct(JoinColumns(left.columns, right.columns))
    ensures r.Joined? ==> WellFormed(r.table) && r.table.columns == JoinColumns(left.columns, right.columns)
  {
    var cols := JoinColumns(left.columns, right.columns);
    if Distinct(cols) then
      var li, p := IndexOf(left.columns, Key), IndexOf(right.columns, Key);
      JoinRowsShape(left.rows, right.rows, li, p, |left.columns|, |right.columns|);
      Joined(Table(cols, JoinRows(left.rows, right.rows, li, p)))
    else ColumnClash
  }

  lemma {:induction false} JoinRowsShape(lrows: seq<seq<Value>>, rrows: seq<seq<Value>>, li: nat, p: nat, nl: nat, nr: nat)
    requires li < nl && p < nr
    requires forall i :: 0 <= i < |lrows| ==> |lrows[i]| == nl
    requires forall j :: 0 <= j < |rrows| ==> |rrows[j]| == nr
    ensures forall k :: 0 <= k < |JoinRows(lrows, rrows, li, p)| ==> |JoinRows(lrows, rrows, li, p)[k]| == nl + nr - 1
  {
    var out := JoinRows(lrows, rrows, li, p);
    JoinRowsMembership(lrows, rrows, li, p);
    forall k | 0 <= k < |out| ensures |out[k]| == nl + nr - 1 {
      assert out[k] in out;
      var i, j :| 0 <= i < |lrows| && 0 <= j < |rrows| && lrows[i][li] == rrows[j][p]
        && out[k] == JoinedRow(lrows[i], rrows[j], p);
    }
  }

  /** The merged rows for `l` are exactly the joins of `l` with the right rows of the same key. */
  lemma {:induction false} MatchesMembership(l: seq<Value>, rrows: seq<seq<Value>>, li: nat, p: nat)
    requires li < |l|
    requires forall j :: 0 <= j < |rrows| ==> p < |rrows[j]|
    ensures forall row :: row in Matches(l, rrows, li, p) <==>
      exists j :: 0 <= j < |rrows| && rrows[j][p] == l[li] && row == JoinedRow(l, rrows[j], p)
  {
    if rrows != [] {
      var tail := rrows[1..];
      MatchesMembership(l, tail, li, p);
      forall row ensures row in Matches(l, rrows, li, p) <==>
        exists j :: 0 <= j < |rrows| && rrows[j][p] == l[li] && row == JoinedRow(l, rrows[j], p)
      {
        if row in Matches(l, tail, li, p) {
          var j :| 0 <= j < |tail| && tail[j][p] == l[li] && row == JoinedRow(l, tail[j], p);
          assert rrows[j + 1] == tail[j];
        }
        if j :| 0 <= j < |rrows| && rrows[j][p] == l[li] && row == JoinedRow(l, rrows[j], p) {
          if j > 0 { assert tail[j - 1] == rrows[j]; }
        }
      }
    }
  }

  /** Inner-join membership: a row is merged exactly when it joins a left row and a right row of equal key. */
  lemma {:induction false} JoinRowsMembership(lrows: seq<seq<Value>>, rrows: seq<seq<Value>>, li: nat, p: nat)
    requires forall i :: 0 <= i < |lrows| ==> li < |lrows[i]|
    requires forall j :: 0 <= j < |rrows| ==> p < |rrows[j]|
    ensures forall row :: row in JoinRows(lrows, rrows, li, p) <==>
      exists i, j :: 0 <= i < |lrows| && 0 <= j < |rrows| && lrows[i][li] == rrows[j][p]
        && row == JoinedRow(lrows[i], rrows[j], p)
  {
    if lrows != [] {
      var tail := lrows[1..];
      JoinRowsMembership(tail, rrows, li, p);
      MatchesMembership(lrows[0], rrows, li, p);
      forall row ensures row in JoinRows(lrows, rrows, li, p) <==>
        exists i, j :: 0 <= i < |lrows| && 0 <= j < |rrows| && lrows[i][li] == rrows[j][p]
          && row == JoinedRow(lrows[i], rrows[j], p)
      {
        if row in JoinRows(tail, rrows, li, p) {
          var i, j :| 0 <= i < |tail| && 0 <= j < |rrows| && tail[i][li] == rrows[j][p]
            && row == JoinedRow(tail[i], rrows[j], p);
          assert lrows[i + 1] == tail[i];
        }
        if i, j :| (0 <= i < |lrows| && 0 <= j < |rrows| && lrows[i][li] == rrows[j][p]
          && row == JoinedRow(lrows[i], rrows[j], p))
        {
          if i > 0 { assert tail[i - 1] == lrows[i]; }
        }
      }
    }
  }

  /**
   * The names in the merged rows are exactly the names both tables have: a name in only one table
   * is dropped, and a name in both yields at least one merged row.
   */
  lemma JoinNames(lrows: seq<seq<Value>>, rrows: seq<seq<Value>>, li: nat, p: nat)
    requires forall i :: 0 <= i < |lrows| ==> li < |lrows[i]|
    requires forall j :: 0 <= j < |rrows| ==> p < |rrows[j]|
    ensures forall k :: 0 <= k < |JoinRows(lrows, rrows, li, p)| ==> li < |JoinRows(lrows, rrows, li, p)[k]|
    ensures Names(JoinRows(lrows, rrows, li, p), li) == Names(lrows, li) * Names(rrows, p)
  {
    var out := JoinRows(lrows, rrows, li, p);
    JoinRowsMembership(lrows, rrows, li, p);
    forall k | 0 <= k < |out| ensures li < |out[k]| && out[k][li] in Names(lrows, li) * Names(rrows, p) {
      assert out[k] in out;
      var i, j :| 0 <= i < |lrows| && 0 <= j < |rrows| && lrows[i][li] == rrows[j][p]
        && out[k] == JoinedRow(lrows[i], rrows[j], p);
      assert out[k][li] == lrows[i][li];
    }
    forall n | n in Names(lrows, li) * Names(rrows, p) ensures n in Names(out, li) {
      var i :| 0 <= i < |lrows| && lrows[i][li] == n;
      var j :| 0 <= j < |rrows| && rrows[j][p] == n;
      var row := JoinedRow(lrows[i], rrows[j], p);
      assert row in out;
      var k :| 0 <= k < |out| && out[k] == row;
      assert out[k][li] == n;
    }
  }

  lemma {:induction false} MatchesAbsent(l: seq<Value>, rrows: seq<seq<Value>>, li: nat, p: nat)
    requires li < |l|
    requires forall j :: 0 <= j < |rrows| ==> p < |rrows[j]|
    requires l[li] !in Names(rrows, p)
    ensures Matches(l, rrows, li, p) == []
  {
    if rrows != [] {
      NamesCons(rrows, p);
      MatchesAbsent(l, rrows[1..], li, p);
    }
  }

  /** With unique keys on the right, a left row has one merged row when its key is on the right, else none. */
  lemma {:induction false} MatchesCount(l: seq<Value>, rrows: seq<seq<Value>>, li: nat, p: nat)
    requires li < |l|
    requires forall j :: 0 <= j < |rrows| ==> p < |rrows[j]|
    requires UniqueAt(rrows, p)
    ensures |Matches(l, rrows, li, p)| == if l[li] in Names(rrows, p) then 1 else 0
  {
    if rrows != [] {
      var tail := rrows[1..];
      NamesCons(rrows, p);
      assert UniqueAt(tail, p) by {
        forall i, j | 0 <= i < j < |tail| ensures tail[i][p] != tail[j][p] {
          assert tail[i] == rrows[i + 1] && tail[j] == rrows[j + 1];
        }
      }
      if rrows[0][p] == l[li] {
        forall j | 0 <= j < |tail| ensures tail[j][p] != rrows[0][p] {
          assert tail[j] == rrows[j + 1];
        }
        MatchesAbsent(l, tail, li, p);
      } else {
        MatchesCount(l, tail, li, p);
      }
    }
  }

  /** Inner-join cardinality: with unique keys in both tables, one merged row per name the tables share. */
  lemma {:induction false} JoinCardinality(lrows: seq<seq<Value>>, rrows: seq<seq<Value>>, li: nat, p: nat)
    requires forall i :: 0 <= i < |lrows| ==> li < |lrows[i]|
    requires forall j :: 0 <= j < |rrows| ==> p < |rrows[j]|
    requires UniqueAt(lrows, li) && UniqueAt(rrows, p)
    ensures |JoinRows(lrows, rrows, li, p)| == |Names(lrows, li) * Names(rrows, p)|
  {
    if lrows != [] {
      var tail := lrows[1..];
      var n := lrows[0][li];
      var right := Names(rrows, p);
      NamesCons(lrows, li);
      assert UniqueAt(tail, li) by {
        forall i, j | 0 <= i < j < |tail| ensures tail[i][li] != tail[j][li] {
          assert tail[i] == lrows[i + 1] && tail[j] == lrows[j + 1];
        }
      }
      forall j | 0 <= j < |tail| ensures tail[j][li] != n {
        assert tail[j] == lrows[j + 1];
      }
      assert n !in Names(tail, li);
      JoinCardinality(tail, rrows, li, p);
      MatchesCount(lrows[0], rrows, li, p);
      DisjointIntersectionSize(n, Names(tail, li), right);
    }
  }

  lemma DisjointIntersectionSize(n: Value, rest: set<Value>, right: set<Value>)
    requires n !in rest
    ensures |({n} + rest) * right| == (if n in right then 1 else 0) + |rest * right|
  {
    assert ({n} + rest) * right == ({n} * right) + (rest * right);
    assert ({n} * right) !! (rest * right);
    if n in right { assert {n} * right == {n}; } else { assert {n} * right == {}; }
  }

  lemma JoinColumnsHasKey(lc: seq<string>, rc: seq<string>)
    requires Key in lc && Key in rc
    ensures Key in JoinColumns(lc, rc)
    ensures IndexOf(JoinColumns(lc, rc), Key) == IndexOf(lc, Key) || !Distinct(JoinColumns(lc, rc))
  {
    var cols := JoinColumns(lc, rc);
    var i := IndexOf(lc, Key);
    assert cols[i] == Key;
    if Distinct(cols) { IndexOfDistinct(cols, i); }
  }

  /** Where a right non-key column's merged name sits among the merged columns. */
  lemma RightColumnAt(lc: seq<string>, rc: seq<string>, c: string)
    requires Key in rc && c in rc && c != Key
    ensures var q, p := IndexOf(rc, c), IndexOf(rc, Key);
      var k := |lc| + (if q < p then q else q - 1);
      k < |JoinColumns(lc, rc)| && JoinColumns(lc, rc)[k] == RightName(c, lc)
  {
    var q, p := IndexOf(rc, c), IndexOf(rc, Key);
    var j := if q < p then q else q - 1;
    assert j < |rc| - 1 && RightRest(rc)[j] == c by { DropAtIndex(rc, p, q); }
    assert JoinColumns(lc, rc)[|lc| + j] == RightName(RightRest(rc)[j], lc);
  }

  /** The cell of right column position `q` sits in the merged row at the matching merged position. */
  lemma RightCellAt(l: seq<Value>, r: seq<Value>, p: nat, q: nat)
    requires p < |r| && q < |r| && q != p
    ensures var k := |l| + (if q < p then q else q - 1);
      k < |JoinedRow(l, r, p)| && JoinedRow(l, r, p)[k] == r[q]
  {
    DropAtIndex(r, p, q);
  }

  /** Column provenance, left side: each left column's cell sits in the merged row under its merged name. */
  lemma JoinedLeftCell(lc: seq<string>, rc: seq<string>, l: seq<Value>, r: seq<Value>, c: string)
    requires Distinct(lc) && Distinct(rc) && Key in lc && Key in rc
    requires |l| == |lc| && |r| == |rc|
    requires Distinct(JoinColumns(lc, rc))
    requires c in lc
    ensures LeftName(c, rc) in JoinColumns(lc, rc)
    ensures Cell(JoinColumns(lc, rc), JoinedRow(l, r, IndexOf(rc, Key)), LeftName(c, rc)) == Cell(lc, l, c)
  {
    var cols := JoinColumns(lc, rc);
    var i := IndexOf(lc, c);
    assert cols[i] == LeftName(c, rc);
    IndexOfDistinct(cols, i);
  }

  /** Column provenance, right side: each right non-key column's cell sits in the merged row under its merged name. */
  lemma JoinedRightCell(lc: seq<string>, rc: seq<string>, l: seq<Value>, r: seq<Value>, c: string)
    requires Key in rc
    requires |l| == |lc| && |r| == |rc|
    requires Distinct(JoinColumns(lc, rc))
    requires c in rc && c != Key
    ensures RightName(c, lc) in JoinColumns(lc, rc)
    ensures Cell(JoinColumns(lc, rc), JoinedRow(l, r, IndexOf(rc, Key)), RightName(c, lc)) == Cell(rc, r, c)
  {
    var q, p := IndexOf(rc, c), IndexOf(rc, Key);
    var k := |lc| + (if q < p then q else q - 1);
    var cols, row, x := JoinColumns(lc, rc), JoinedRow(l, r, p), RightName(c, lc);
    assert k < |cols| && cols[k] == x by { RightColumnAt(lc, rc, c); }
    assert row[k] == r[q] by { RightCellAt(l, r, p, q); }
    CellUnder(cols, row, x, k);
  }

  /** Dropping position `p` shifts the later elements down by one. */
  lemma DropAtIndex<T>(s: seq<T>, p: nat, q: nat)
    requires p < |s| && q < |s| && q != p
    ensures var q' := if q < p then q else q - 1;
      q' < |s| - 1 && DropAt(s, p)[q'] == s[q]
  {
  }

  /**
   * Column collision: a non-key column `c` both tables have is exposed twice, as `c_track2` holding
   * the left cell and `c_track3` holding the right cell, so neither value is lost; when `c` itself
   * ends in neither suffix, no other column can be renamed to it and `c` is gone.
   */
  lemma ColumnCollision(lc: seq<string>, rc: seq<string>, l: seq<Value>, r: seq<Value>, c: string)
    requires Distinct(lc) && Distinct(rc) && Key in lc && Key in rc
    requires |l| == |lc| && |r| == |rc|
    requires Distinct(JoinColumns(lc, rc))
    requires c in lc && c in rc && c != Key
    ensures c + LeftSuffix in JoinColumns(lc, rc) && c + RightSuffix in JoinColumns(lc, rc)
    ensures Cell(JoinColumns(lc, rc), JoinedRow(l, r, IndexOf(rc, Key)), c + LeftSuffix) == Cell(lc, l, c)
    ensures Cell(JoinColumns(lc, rc), JoinedRow(l, r, IndexOf(rc, Key)), c + RightSuffix) == Cell(rc, r, c)
    ensures !EndsWith(c, LeftSuffix) && !EndsWith(c, RightSuffix) ==> c !in JoinColumns(lc, rc)
  {
    JoinedLeftCell(lc, rc, l, r, c);
    JoinedRightCell(lc, rc, l, r, c);
    assert LeftName(c, rc) == c + LeftSuffix && RightName(c, lc) == c + RightSuffix;
    if !EndsWith(c, LeftSuffix) && !EndsWith(c, RightSuffix) {
      NotRenamedInto(lc, rc, c);
    }
  }

  /** A column that ends in neither suffix is in the merged columns exactly when one table alone has it. */
  lemma NotRenamedInto(lc: seq<string>, rc: seq<string>, c: string)
    requires Key in rc && c != Key
    requires !EndsWith(c, LeftSuffix) && !EndsWith(c, RightSuffix)
    ensures c in JoinColumns(lc, rc) <==> (c in lc) != (c in rc)
  {
    if c in JoinColumns(lc, rc) {
      var k :| 0 <= k < |JoinColumns(lc, rc)| && JoinColumns(lc, rc)[k] == c;
      UnsuffixedFrom(lc, rc, c, k);
    }
    if c in lc && c !in rc {
      var i := IndexOf(lc, c);
      assert JoinColumns(lc, rc)[i] == c;
    }
    if c in rc && c !in lc {
      RightColumnAt(lc, rc, c);
    }
  }

  /** A merged column ending in neither suffix was not renamed: it is a column of one table only. */
  lemma UnsuffixedFrom(lc: seq<string>, rc: seq<string>, c: string, k: nat)
    requires Key in rc && c != Key
    requires !EndsWith(c, LeftSuffix) && !EndsWith(c, RightSuffix)
    requires k < |JoinColumns(lc, rc)| && JoinColumns(lc, rc)[k] == c
    ensures (c in lc) != (c in rc)
  {
    if k < |lc| {
      if lc[k] != Key && lc[k] in rc {
        EndsWithConcat(lc[k], LeftSuffix);
        assert false;
      }
      assert lc[k] == c;
    } else {
      var j := k - |lc|;
      var p := IndexOf(rc, Key);
      var x := RightRest(rc)[j];
      assert x == (if j < p then rc[j] else rc[j + 1]);
      if x in lc {
        EndsWithConcat(x, RightSuffix);
        assert false;
      }
      assert x == c;
    }
  }
}
