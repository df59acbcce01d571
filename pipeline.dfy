/**
 * The script end to end: choose the CSV files, load them, merge the track2 and track3 annotation
 * tables, index the subtitles and, when both are there, enrich the merged records with subtitles.
 */
module Pipeline {
  import opened Records
  import opened Tables
  import opened Index
  import opened Discovery
  import opened Join
  import opened Annotations
  import opened Subtitles

  const Track2 := "track2_train_mercaptionplus"
  const Track3 := "track3_train_mercaptionplus"
  const SubtitleTable := "subtitle_chieng"

  /** How the annotation merge ended. */
  datatype MergeOutcome =
    | MissingTables(track2Missing: bool, track3Missing: bool)
    | NoNameColumn
    | MergeRaised
    | Merged(table: Table, data: seq<Dict>, byName: map<Value, Dict>)

  /** The names-and-subtitles left join, with the number of names both indexes have. */
  datatype Enrichment = Enrichment(common: set<Value>, enhanced: map<Value, Dict>)

  /** How the subtitle stage ended; it is not reached when the merge raised. */
  datatype SubtitleOutcome =
    | NotReached
    | NoSubtitleTable
    | SubtitleRaised
    | Indexed(byName: map<Value, Dict>, enrichment: Option<Enrichment>)

  datatype Report = Report(csvFiles: seq<string>, datasets: map<string, Table>, merge: MergeOutcome, subtitles: SubtitleOutcome)

  ghost predicate AllWellFormed(tables: map<string, Table>) {
    forall n :: n in tables ==> WellFormed(tables[n])
  }

  /** Both annotation tables are loaded and both have a `name` column. */
  ghost predicate Mergeable(datasets: map<string, Table>) {
    AllWellFormed(datasets) && Track2 in datasets && Track3 in datasets
    && Key in datasets[Track2].columns && Key in datasets[Track3].columns
  }

  /**
   * The names of the records of the merged rows are exactly the names the track2 and track3
   * tables share.
   */
  lemma MergedNames(left: Table, right: Table, t: Table, data: seq<Dict>)
    requires WellFormed(left) && WellFormed(right) && Key in left.columns && Key in right.columns
    requires InnerJoin(left, right) == Joined(t)
    requires |data| == |t.rows| && AllNamed(data)
    requires forall i :: 0 <= i < |data| ==> data[i] == CombinedRecord(t.columns, t.rows[i])
    ensures (set i | 0 <= i < |data| :: data[i].vals[Key])
      == Names(left.rows, IndexOf(left.columns, Key)) * Names(right.rows, IndexOf(right.columns, Key))
  {
    var li, p := IndexOf(left.columns, Key), IndexOf(right.columns, Key);
    JoinColumnsHasKey(left.columns, right.columns);
    assert t.rows == JoinRows(left.rows, right.rows, li, p);
    JoinNames(left.rows, right.rows, li, p);
    forall i | 0 <= i < |data| ensures data[i].vals[Key] == t.rows[i][li] {
      CombinedName(t.columns, t.rows[i]);
    }
    DataNames(t.rows, li, data);
  }

  lemma CombinedName(cols: seq<string>, row: seq<Value>)
    requires Distinct(cols) && Key in cols && |row| == |cols|
    ensures CombinedRecord(cols, row).vals[Key] == row[IndexOf(cols, Key)]
  {
  }

  /** Records named after the `name` cells of the rows carry exactly the names in that column. */
  lemma DataNames(rows: seq<seq<Value>>, li: nat, data: seq<Dict>)
    requires forall i :: 0 <= i < |rows| ==> li < |rows[i]|
    requires |data| == |rows| && AllNamed(data)
    requires forall i :: 0 <= i < |data| ==> data[i].vals[Key] == rows[i][li]
    ensures (set i | 0 <= i < |data| :: data[i].vals[Key]) == Names(rows, li)
  {
    var ks := set i | 0 <= i < |data| :: data[i].vals[Key];
    forall n | n in ks ensures n in Names(rows, li) {
      var i :| 0 <= i < |data| && data[i].vals[Key] == n;
    }
    forall n | n in Names(rows, li) ensures n in ks {
      var i :| 0 <= i < |rows| && rows[i][li] == n;
      assert data[i].vals[Key] == n;
    }
  }

  /**
   * Where a hoisted field of a rebuilt record comes from: `openset` or `reason` is the track2
   * cell when track2 alone has that column, the track3 cell when track3 alone has it, and None
   * when both have it (the merge renamed it to the suffixed names) or neither does.
   */
  lemma HoistedField(lc: seq<string>, rc: seq<string>, l: seq<Value>, r: seq<Value>, h: string)
    requires Distinct(lc) && Distinct(rc) && Key in lc && Key in rc
    requires |l| == |lc| && |r| == |rc|
    requires Distinct(JoinColumns(lc, rc))
    requires h == Openset || h == Reason
    ensures |JoinedRow(l, r, IndexOf(rc, Key))| == |JoinColumns(lc, rc)|
    ensures Key in JoinColumns(lc, rc)
    ensures CombinedRecord(JoinColumns(lc, rc), JoinedRow(l, r, IndexOf(rc, Key))).vals[h]
      == if h in lc && h !in rc then Cell(lc, l, h)
         else if h in rc && h !in lc then Cell(rc, r, h)
         else Null
  {
    var cols := JoinColumns(lc, rc);
    var row := JoinedRow(l, r, IndexOf(rc, Key));
    JoinColumnsHasKey(lc, rc);
    assert !EndsWith(h, LeftSuffix) && !EndsWith(h, RightSuffix);
    NotRenamedInto(lc, rc, h);
    if h in lc && h !in rc {
      JoinedLeftCell(lc, rc, l, r, h);
    } else if h in rc && h !in lc {
      JoinedRightCell(lc, rc, l, r, h);
    }
  }

  /**
   * The annotation merge: it runs only when both tables are loaded and both have `name`; a merge
   * whose suffixed columns still clash raises; otherwise the merged rows are rebuilt as records and
   * indexed by name, and the index holds exactly the names the two tables share.
   */
  method MergeAnnotations(datasets: map<string, Table>) returns (merge: MergeOutcome)
    requires AllWellFormed(datasets)
    ensures merge.MissingTables? <==> !(Track2 in datasets && Track3 in datasets)
    ensures merge.MissingTables? ==> merge.track2Missing == (Track2 !in datasets) && merge.track3Missing == (Track3 !in datasets)
    ensures merge.NoNameColumn? <==> Track2 in datasets && Track3 in datasets && !Mergeable(datasets)
    ensures merge.MergeRaised? <==> Mergeable(datasets) && InnerJoin(datasets[Track2], datasets[Track3]).ColumnClash?
    ensures merge.Merged? <==> Mergeable(datasets) && InnerJoin(datasets[Track2], datasets[Track3]).Joined?
    ensures merge.Merged? ==>
      && InnerJoin(datasets[Track2], datasets[Track3]) == Joined(merge.table)
      && |merge.data| == |merge.table.rows|
      && (forall i :: 0 <= i < |merge.data| ==> merge.data[i] == CombinedRecord(merge.table.columns, merge.table.rows[i]))
      && AllNamed(merge.data)
      && merge.byName == LastWins(NamePairs(merge.data))
    ensures merge.Merged? ==>
      merge.byName.Keys == Names(datasets[Track2].rows, IndexOf(datasets[Track2].columns, Key))
        * Names(datasets[Track3].rows, IndexOf(datasets[Track3].columns, Key))
    ensures merge.Merged? ==>
      |merge.byName| == |Names(datasets[Track2].rows, IndexOf(datasets[Track2].columns, Key))
        * Names(datasets[Track3].rows, IndexOf(datasets[Track3].columns, Key))|
    ensures merge.Merged? ==> forall k :: k in merge.byName ==> Key in merge.byName[k].vals && merge.byName[k].vals[Key] == k
  {
    if Track2 in datasets && Track3 in datasets {
      var track2, track3 := datasets[Track2], datasets[Track3];
      if Key in track2.columns && Key in track3.columns {
        var joined := InnerJoin(track2, track3);
        if joined.Joined? {
          var data := RebuildRows(joined.table);
          var byName := IndexByName(data);
          MergedNames(track2, track3, joined.table, data);
          merge := Merged(joined.table, data, byName);
        } else {
          merge := MergeRaised;
        }
      } else {
        merge := NoNameColumn;
      }
    } else {
      merge := MissingTables(Track2 !in datasets, Track3 !in datasets);
    }
  }

  /** Reading the first subtitle row would raise: there is a row, and a subtitle column is absent. */
  predicate SubtitleColumnsMissing(t: Table) {
    t.rows != [] && !(Key in t.columns && Chinese in t.columns && English in t.columns)
  }

  lemma ShapedHasTexts(subs: map<Value, Dict>)
    requires SubtitleShaped(subs)
    ensures HasTexts(subs)
  {
    forall k | k in subs ensures Chinese in subs[k].vals && English in subs[k].vals {
      assert subs[k].keys[1] == Chinese && subs[k].keys[2] == English;
    }
  }

  /**
   * The subtitle stage: skipped without a subtitle table, raising when a row lacks a subtitle
   * column; otherwise the subtitle index is built, and when the merge produced its index the
   * merged records are enriched, with the common names being the names both indexes have.
   */
  method ProcessSubtitles(datasets: map<string, Table>, merge: MergeOutcome) returns (subtitles: SubtitleOutcome)
    requires AllWellFormed(datasets)
    requires !merge.MergeRaised?
    ensures subtitles.NoSubtitleTable? <==> SubtitleTable !in datasets
    ensures subtitles.SubtitleRaised? <==> SubtitleTable in datasets && SubtitleColumnsMissing(datasets[SubtitleTable])
    ensures subtitles.Indexed? <==> SubtitleTable in datasets && !SubtitleColumnsMissing(datasets[SubtitleTable])
    ensures subtitles.Indexed? ==>
      && Readable(datasets[SubtitleTable])
      && subtitles.byName == LastWins(SubtitlePairs(datasets[SubtitleTable]))
      && SubtitleShaped(subtitles.byName)
    ensures subtitles.Indexed? ==> (subtitles.enrichment.Some? <==> merge.Merged?)
    ensures subtitles.Indexed? && merge.Merged? ==>
      && subtitles.enrichment.value.common == merge.byName.Keys * subtitles.byName.Keys
      && subtitles.enrichment.value.enhanced.Keys == merge.byName.Keys
      && HasTexts(subtitles.byName)
      && (forall k :: k in merge.byName ==>
           subtitles.enrichment.value.enhanced[k] == EnrichedRecord(merge.byName[k], Lookup(subtitles.byName, k)))
  {
    if SubtitleTable !in datasets {
      subtitles := NoSubtitleTable;
    } else {
      var t := datasets[SubtitleTable];
      if SubtitleColumnsMissing(t) {
        subtitles := SubtitleRaised;
      } else {
        var subs := BuildSubtitleIndex(t);
        ShapedHasTexts(subs);
        if merge.Merged? {
          var common := CommonNames(merge.byName, subs);
          var enhanced := Enrich(merge.byName, subs);
          subtitles := Indexed(subs, Some(Enrichment(common, enhanced)));
        } else {
          subtitles := Indexed(subs, None);
        }
      }
    }
  }

  lemma LoadedWellFormed(files: seq<string>, fetched: map<string, Table>, datasets: map<string, Table>)
    requires AllWellFormed(fetched)
    requires forall n :: n in datasets ==> FromLoadedFile(files, fetched, (n, datasets[n]))
    ensures AllWellFormed(datasets)
  {
    forall n | n in datasets ensures WellFormed(datasets[n]) {
      var j :| 0 <= j < |files| && files[j] in fetched && (n, datasets[n]) == (TableName(files[j]), fetched[files[j]]);
    }
  }

  /**
   * The whole script: the CSV files of the listing, or the fallback list when listing failed; the
   * tables of the files that loaded, by table name; then the merge and, unless the merge raised,
   * the subtitle stage.
   */
  method Run(listing: Option<seq<string>>, fetched: map<string, Table>) returns (rep: Report)
    requires AllWellFormed(fetched)
    ensures rep.csvFiles == if listing.Some? then CsvFiles(listing.value) else FallbackFiles
    ensures rep.datasets == LastWins(LoadPairs(rep.csvFiles, fetched))
    ensures rep.datasets.Keys == LoadedNames(rep.csvFiles, fetched)
    ensures AllWellFormed(rep.datasets)
    ensures rep.merge.Merged? <==> Mergeable(rep.datasets) && InnerJoin(rep.datasets[Track2], rep.datasets[Track3]).Joined?
    ensures rep.merge.Merged? ==>
      rep.merge.byName.Keys == Names(rep.datasets[Track2].rows, IndexOf(rep.datasets[Track2].columns, Key))
        * Names(rep.datasets[Track3].rows, IndexOf(rep.datasets[Track3].columns, Key))
    ensures rep.subtitles.NotReached? <==> rep.merge.MergeRaised?
    ensures (rep.subtitles.Indexed? && rep.subtitles.enrichment.Some?) <==>
      (rep.merge.Merged? && SubtitleTable in rep.datasets && !SubtitleColumnsMissing(rep.datasets[SubtitleTable]))
    ensures rep.subtitles.Indexed? && rep.subtitles.enrichment.Some? ==>
      rep.subtitles.enrichment.value.enhanced.Keys == rep.merge.byName.Keys
      && rep.subtitles.enrichment.value.common == rep.merge.byName.Keys * rep.subtitles.byName.Keys
  {
    var csvFiles := if listing.Some? then CsvFiles(listing.value) else FallbackFiles;
    var datasets := LoadTables(csvFiles, fetched);
    LoadedWellFormed(csvFiles, fetched, datasets);
    var merge := MergeAnnotations(datasets);
    var subtitles: SubtitleOutcome;
    if merge.MergeRaised? {
      subtitles := NotReached;
    } else {
      subtitles := ProcessSubtitles(datasets, merge);
    }
    rep := Report(csvFiles, datasets, merge, subtitles);
  }

  /**
   * A worked example: track2 has one row (v1, happy), track3 has (v1, tone of voice) and
   * (v2, unused). The merge keeps only v1, with `openset` from track2 and `reason` from track3.
   */
  lemma ExampleJoin()
    ensures var a := Table([Key, Openset], [[Present("v1"), Present("happy")]]);
      var b := Table([Key, Reason], [[Present("v1"), Present("tone of voice")], [Present("v2"), Present("unused")]]);
      && WellFormed(a) && WellFormed(b)
      && InnerJoin(a, b) == Joined(Table([Key, Openset, Reason], [[Present("v1"), Present("happy"), Present("tone of voice")]]))
  {
    var a := Table([Key, Openset], [[Present("v1"), Present("happy")]]);
    var b := Table([Key, Reason], [[Present("v1"), Present("tone of voice")], [Present("v2"), Present("unused")]]);
    ExampleColumns();
    ExampleRows();
  }

  lemma ExampleColumns()
    ensures JoinColumns([Key, Openset], [Key, Reason]) == [Key, Openset, Reason]
  {
    var rc := [Key, Reason];
    assert RightRest(rc) == [Reason];
  }

  lemma ExampleRows()
    ensures JoinRows([[Present("v1"), Present("happy")]], [[Present("v1"), Present("tone of voice")], [Present("v2"), Present("unused")]], 0, 0)
      == [[Present("v1"), Present("happy"), Present("tone of voice")]]
  {
    var a := Table([Key, Openset], [[Present("v1"), Present("happy")]]);
    var b := Table([Key, Reason], [[Present("v1"), Present("tone of voice")], [Present("v2"), Present("unused")]]);
    var l := a.rows[0];
    var unused := [b.rows[1]];
    assert b.rows[1..] == unused && unused[1..] == [];
    assert Matches(l, unused, 0, 0) == [];
    assert JoinedRow(l, b.rows[0], 0) == [Present("v1"), Present("happy"), Present("tone of voice")];
    assert a.rows[1..] == [];
    assert JoinRows(a.rows, b.rows, 0, 0) == [[Present("v1"), Present("happy"), Present("tone of voice")]];
  }

  /** The merged row of the worked example becomes the record {name, openset, reason}. */
  lemma ExampleRecord()
    ensures var record := CombinedRecord([Key, Openset, Reason], [Present("v1"), Present("happy"), Present("tone of voice")]);
      && record.keys == [Key, Openset, Reason]
      && record.vals[Key] == Present("v1") && record.vals[Openset] == Present("happy")
      && record.vals[Reason] == Present("tone of voice")
  {
    var record := CombinedRecord([Key, Openset, Reason], [Present("v1"), Present("happy"), Present("tone of voice")]);
    var h: seq<string> := [Key, Openset, Reason];
    assert h[..2] == [Key, Openset] && h[..2][..1] == [Key] && h[..2][..1][..0] == [];
    assert Others([Key]) == [];
    assert Others([Key, Openset]) == [];
    assert Others(h) == [];
  }

  /** Enriching the worked example's record with a subtitle entry for v1 appends both subtitle fields. */
  lemma ExampleEnrich()
    ensures var record: Dict := DictRep([Key, Openset, Reason], map[Key := Present("v1"), Openset := Present("happy"), Reason := Present("tone of voice")]);
      var entry := SubtitleEntry(SubtitleColumns, [Present("v1"), Present("\U{4f60}\U{597d}"), Present("hello")]);
      && EnrichedRecord(record, Some(entry)).keys == [Key, Openset, Reason, ChineseField, EnglishField]
      && EnrichedRecord(record, Some(entry)).vals[ChineseField] == Present("\U{4f60}\U{597d}")
      && EnrichedRecord(record, Some(entry)).vals[EnglishField] == Present("hello")
  {
    var record: Dict := DictRep([Key, Openset, Reason], map[Key := Present("v1"), Openset := Present("happy"), Reason := Present("tone of voice")]);
    var row := [Present("v1"), Present("\U{4f60}\U{597d}"), Present("hello")];
    assert Distinct(SubtitleColumns);
    IndexOfDistinct(SubtitleColumns, 1);
    IndexOfDistinct(SubtitleColumns, 2);
    var entry := SubtitleEntry(SubtitleColumns, row);
    assert entry.vals[Chinese] == row[1] && entry.vals[English] == row[2];
    assert ChineseField !in record.vals && EnglishField !in record.vals;
    var withChinese := Put(record, ChineseField, row[1]);
    assert EnglishField !in withChinese.vals;
    assert EnrichedRecord(record, Some(entry)) == Put(withChinese, EnglishField, row[2]);
  }
}
