/** Choosing the CSV files of the dataset, naming their tables, and collecting the tables that loaded. */
module Discovery {
  import opened Records
  import opened Tables
  import opened Index

  const CsvExtension := ".csv"

  /** The file list used when listing the remote repository fails. */
  const FallbackFiles: seq<string> := [
    "subtitle_chieng.csv",
    "track1_train_disdim.csv",
    "track2_train_mercaptionplus.csv",
    "track2_train_ovmerd.csv",
    "track3_train_mercaptionplus.csv",
    "track3_train_ovmerd.csv"
  ]

  predicate IsCsv(f: string) {
    EndsWith(f, CsvExtension)
  }

  /** `[f for f in files if f.endswith('.csv')]`. */
  function CsvFiles(files: seq<string>): (r: seq<string>)
    ensures |r| <= |files|
    ensures forall f :: f in r <==> f in files && IsCsv(f)
  {
    if files == [] then []
    else (if IsCsv(files[0]) then [files[0]] else []) + CsvFiles(files[1..])
  }

  /**
   * The filter keeps the original order: filtering a concatenation is concatenating the filtered
   * parts, and a single file is kept exactly when it ends in ".csv".
   */
  lemma {:induction false} CsvFilesAppend(a: seq<string>, b: seq<string>)
    ensures CsvFiles(a + b) == CsvFiles(a) + CsvFiles(b)
  {
    if a == [] {
      assert a + b == b;
    } else {
      var head := if IsCsv(a[0]) then [a[0]] else [];
      assert (a + b)[0] == a[0];
      assert (a + b)[1..] == a[1..] + b;
      assert CsvFiles(a + b) == head + CsvFiles(a[1..] + b);
      CsvFilesAppend(a[1..], b);
      assert CsvFiles(a) == head + CsvFiles(a[1..]);
    }
  }

  lemma CsvFilesSingle(f: string)
    ensures CsvFiles([f]) == if IsCsv(f) then [f] else []
  {
  }

  /** `pat` occurs in `s` at position `i`. */
  predicate OccursAt(s: string, pat: string, i: nat) {
    i + |pat| <= |s| && s[i..i + |pat|] == pat
  }

  predicate Occurs(s: string, pat: string) {
    exists i :: 0 <= i <= |s| && OccursAt(s, pat, i)
  }

  /** Python's `s.replace(pat, '')`: a left-to-right scan deleting every non-overlapping occurrence. */
  function RemoveAll(s: string, pat: string): (r: string)
    requires pat != []
    ensures |r| <= |s|
    decreases |s|
  {
    if |pat| <= |s| && s[..|pat|] == pat then RemoveAll(s[|pat|..], pat)
    else if s == [] then []
    else [s[0]] + RemoveAll(s[1..], pat)
  }

  /** The name a loaded file's table is stored under: `csv_file.replace('.csv', '')`. */
  function TableName(file: string): string {
    RemoveAll(file, CsvExtension)
  }

  /** A string without the pattern comes back unchanged. */
  lemma {:induction false} RemoveAllAbsent(s: string, pat: string)
    requires pat != [] && !Occurs(s, pat)
    ensures RemoveAll(s, pat) == s
    decreases |s|
  {
    if s != [] {
      assert !OccursAt(s, pat, 0);
      assert !Occurs(s[1..], pat) by {
        forall i | 0 <= i <= |s[1..]| ensures !OccursAt(s[1..], pat, i) {
          assert !OccursAt(s, pat, i + 1);
          if i + |pat| <= |s| - 1 {
            assert s[1..][i..i + |pat|] == s[i + 1..i + 1 + |pat|];
          }
        }
      }
      RemoveAllAbsent(s[1..], pat);
    }
  }

  /** ".csv" cannot begin inside the three characters before a trailing ".csv". */
  lemma NoStraddle(p: string)
    requires 0 < |p| < 4
    ensures (p + CsvExtension)[..4] != CsvExtension
  {
    var s := p + CsvExtension;
    if |p| == 1 { assert s[1] == '.'; }
    else if |p| == 2 { assert s[2] == '.'; }
    else { assert s[3] == '.'; }
  }

  /** Deleting the occurrences of ".csv" from `p + ".csv"` is deleting them from `p`: the suffix is always removed. */
  lemma {:induction false} RemoveCsvSuffix(p: string)
    ensures TableName(p + CsvExtension) == TableName(p)
    decreases |p|
  {
    var s := p + CsvExtension;
    if |p| >= 4 && p[..4] == CsvExtension {
      assert s[..4] == CsvExtension;
      assert s[4..] == p[4..] + CsvExtension;
      RemoveCsvSuffix(p[4..]);
    } else if p == [] {
      assert s[4..] == [];
    } else {
      if |p| < 4 { NoStraddle(p); } else { assert s[..4] == p[..4]; }
      assert s[1..] == p[1..] + CsvExtension;
      RemoveCsvSuffix(p[1..]);
    }
  }

  /** A file name whose only ".csv" is its extension is named by the part before the extension. */
  lemma TableNameOfCsvFile(p: string)
    requires !Occurs(p, CsvExtension)
    ensures TableName(p + CsvExtension) == p
  {
    RemoveCsvSuffix(p);
    RemoveAllAbsent(p, CsvExtension);
  }

  /** The (table name, table) assignments of the loading loop: files that failed to load are skipped. */
  function LoadPairs(files: seq<string>, fetched: map<string, Table>): seq<(string, Table)>
  {
    if files == [] then []
    else
      var last := files[|files| - 1];
      LoadPairs(files[..|files| - 1], fetched)
        + (if last in fetched then [(TableName(last), fetched[last])] else [])
  }

  /** The table names of the listed files that loaded. */
  function LoadedNames(files: seq<string>, fetched: map<string, Table>): set<string> {
    set j | 0 <= j < |files| && files[j] in fetched :: TableName(files[j])
  }

  lemma {:induction false} LoadPairsNames(files: seq<string>, fetched: map<string, Table>)
    ensures KeysOf(LoadPairs(files, fetched)) == LoadedNames(files, fetched)
  {
    if files != [] {
      var init := files[..|files| - 1];
      var last := files[|files| - 1];
      LoadPairsNames(init, fetched);
      var qs := LoadPairs(init, fetched);
      var extra: set<string> := if last in fetched then {TableName(last)} else {};
      assert KeysOf(LoadPairs(files, fetched)) == KeysOf(qs) + extra by {
        if last in fetched {
          assert LoadPairs(files, fetched) == qs + [(TableName(last), fetched[last])];
          KeysOfSnoc(qs, TableName(last), fetched[last]);
        } else {
          assert LoadPairs(files, fetched) == qs;
        }
      }
      LoadedNamesSnoc(files, fetched);
    }
  }

  lemma LoadedNamesSnoc(files: seq<string>, fetched: map<string, Table>)
    requires files != []
    ensures var last := files[|files| - 1];
      LoadedNames(files, fetched)
        == LoadedNames(files[..|files| - 1], fetched) + (if last in fetched then {TableName(last)} else {})
  {
    var init := files[..|files| - 1];
    var last := files[|files| - 1];
    var extra: set<string> := if last in fetched then {TableName(last)} else {};
    forall n | n in LoadedNames(files, fetched) ensures n in LoadedNames(init, fetched) + extra {
      var j :| 0 <= j < |files| && files[j] in fetched && TableName(files[j]) == n;
      if j < |init| { assert init[j] == files[j]; }
    }
    forall n | n in LoadedNames(init, fetched) ensures n in LoadedNames(files, fetched) {
      var j :| 0 <= j < |init| && init[j] in fetched && TableName(init[j]) == n;
      assert files[j] == init[j];
    }
    if last in fetched {
      assert TableName(files[|files| - 1]) in LoadedNames(files, fetched);
    }
  }

  /**
   * The loading loop: each listed file that loads is stored under its table name; a file whose
   * load raised (absent from `fetched`) is skipped, and a later file with the same table name wins.
   */
  method LoadTables(files: seq<string>, fetched: map<string, Table>) returns (datasets: map<string, Table>)
    ensures datasets == LastWins(LoadPairs(files, fetched))
    ensures datasets.Keys == LoadedNames(files, fetched)
    ensures forall n :: n in datasets ==> FromLoadedFile(files, fetched, (n, datasets[n]))
  {
    datasets := map[];
    var i := 0;
    while i < |files|
      invariant i <= |files|
      invariant datasets == LastWins(LoadPairs(files[..i], fetched))
    {
      var f := files[i];
      assert files[..i + 1][..i] == files[..i];
      if f in fetched {
        LastWinsSnoc(LoadPairs(files[..i], fetched), TableName(f), fetched[f]);
        datasets := datasets[TableName(f) := fetched[f]];
      } else {
        assert LoadPairs(files[..i + 1], fetched) == LoadPairs(files[..i], fetched);
      }
      i := i + 1;
    }
    assert files[..i] == files;
    var ps := LoadPairs(files, fetched);
    LastWinsKeys(ps);
    LoadPairsNames(files, fetched);
    LastWinsFrom(ps);
    LoadPairsValues(files, fetched);
    forall n | n in datasets ensures FromLoadedFile(files, fetched, (n, datasets[n])) {
      var i :| 0 <= i < |ps| && ps[i] == (n, datasets[n]);
      assert FromLoadedFile(files, fetched, ps[i]);
    }
  }

  /** The pair `p` is (table name, table) of one of the listed files that loaded. */
  ghost predicate FromLoadedFile(files: seq<string>, fetched: map<string, Table>, p: (string, Table)) {
    exists j :: 0 <= j < |files| && files[j] in fetched && p == (TableName(files[j]), fetched[files[j]])
  }

  lemma {:induction false} LoadPairsValues(files: seq<string>, fetched: map<string, Table>)
    ensures forall i :: 0 <= i < |LoadPairs(files, fetched)| ==> FromLoadedFile(files, fetched, LoadPairs(files, fetched)[i])
  {
    if files != [] {
      var init := files[..|files| - 1];
      LoadPairsValues(init, fetched);
      var last := files[|files| - 1];
      var ps := LoadPairs(files, fetched);
      var qs := LoadPairs(init, fetched);
      assert ps == qs + (if last in fetched then [(TableName(last), fetched[last])] else []);
      forall i | 0 <= i < |ps| ensures FromLoadedFile(files, fetched, ps[i]) {
        if i < |qs| {
          assert ps[i] == qs[i];
          assert FromLoadedFile(init, fetched, qs[i]);
          var j :| 0 <= j < |init| && init[j] in fetched && qs[i] == (TableName(init[j]), fetched[init[j]]);
          assert files[j] == init[j];
        } else {
          assert last in fetched && ps[i] == (TableName(last), fetched[last]);
          assert files[|files| - 1] == last;
        }
      }
    }
  }
}
