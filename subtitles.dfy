/** The name-indexed subtitle lookup and the left-join that adds subtitle fields to the merged records. */
module Subtitles {
  import opened Records
  import opened Tables
  import opened Index
  import opened Join

  const Chinese := "chinese"
  const English := "english"
  const ChineseField := "chinese_subtitle"
  const EnglishField := "english_subtitle"

  /** The keys of a subtitle entry, in this order. */
  const SubtitleColumns: seq<string> := [Key, Chinese, English]

  /** `v if pd.notna(v) else None`: a missing cell, or `None`, becomes `None`. */
  function Normalize(v: Value): (r: Value)
    ensures r == Null <==> (v.Null? || v.Missing?)
    ensures r != Null ==> r == v
  {
    if v.Missing? then Null else v
  }

  /** The subtitle table can be read row by row: if it has any row, it has all three subtitle columns. */
  ghost predicate Readable(t: Table) {
    WellFormed(t) && (t.rows != [] ==> Key in t.columns && Chinese in t.columns && English in t.columns)
  }

  /** `{'name': name, 'chinese': ..., 'english': ...}` for one subtitle row. */
  function SubtitleEntry(cols: seq<string>, row: seq<Value>): (d: Dict)
    requires Key in cols && Chinese in cols && English in cols && |row| == |cols|
    ensures d.keys == SubtitleColumns
    ensures d.vals[Key] == Cell(cols, row, Key)
    ensures d.vals[Chinese] == Null <==> Cell(cols, row, Chinese) in {Null, Missing}
    ensures d.vals[Chinese] != Null ==> d.vals[Chinese] == Cell(cols, row, Chinese)
    ensures d.vals[English] == Null <==> Cell(cols, row, English) in {Null, Missing}
    ensures d.vals[English] != Null ==> d.vals[English] == Cell(cols, row, English)
  {
    DictRep(SubtitleColumns, map[
      Key := Cell(cols, row, Key),
      Chinese := Normalize(Cell(cols, row, Chinese)),
      English := Normalize(Cell(cols, row, English))])
  }

  /** The assignments `subtitle_by_name[name] = {...}`, one per subtitle row, in order. */
  function SubtitlePairs(t: Table): (ps: seq<(Value, Dict)>)
    requires Readable(t)
    ensures |ps| == |t.rows|
  {
    seq(|t.rows|, i requires 0 <= i < |t.rows| =>
      (Cell(t.columns, t.rows[i], Key), SubtitleEntry(t.columns, t.rows[i])))
  }

  /** Every entry has exactly the keys `name`, `chinese` and `english`, and is filed under its own name. */
  ghost predicate SubtitleShaped(m: map<Value, Dict>) {
    forall k :: k in m ==> m[k].keys == SubtitleColumns && m[k].vals[Key] == k
  }

  /**
   * `subtitle_by_name`: one entry per distinct name of the subtitle table, the last row with a
   * name giving its entry.
   */
  method BuildSubtitleIndex(t: Table) returns (m: map<Value, Dict>)
    requires Readable(t)
    ensures m == LastWins(SubtitlePairs(t))
    ensures t.rows == [] ==> m == map[]
    ensures t.rows != [] ==> m.Keys == Names(t.rows, IndexOf(t.columns, Key))
    ensures SubtitleShaped(m)
    ensures |m| <= |t.rows|
  {
    var ps := SubtitlePairs(t);
    m := map[];
    for i := 0 to |t.rows|
      invariant m == LastWins(ps[..i])
    {
      var name := Cell(t.columns, t.rows[i], Key);
      var entry := SubtitleEntry(t.columns, t.rows[i]);
      assert ps[i] == (name, entry);
      LastWinsStep(ps, i);
      m := m[name := entry];
    }
    assert ps[..|t.rows|] == ps;
    SubtitleIndexFacts(t);
  }

  lemma SubtitleIndexFacts(t: Table)
    requires Readable(t)
    ensures t.rows == [] ==> LastWins(SubtitlePairs(t)) == map[]
    ensures t.rows != [] ==> LastWins(SubtitlePairs(t)).Keys == Names(t.rows, IndexOf(t.columns, Key))
    ensures SubtitleShaped(LastWins(SubtitlePairs(t)))
    ensures |LastWins(SubtitlePairs(t))| <= |t.rows|
  {
    var ps := SubtitlePairs(t);
    LastWinsSize(ps);
    SubtitleIndexShape(t);
    if t.rows != [] { SubtitleIndexKeys(t); }
  }

  lemma SubtitleIndexShape(t: Table)
    requires Readable(t)
    ensures SubtitleShaped(LastWins(SubtitlePairs(t)))
  {
    var ps := SubtitlePairs(t);
    var m := LastWins(ps);
    LastWinsFrom(ps);
    forall k | k in m ensures m[k].keys == SubtitleColumns && m[k].vals[Key] == k {
      var i :| 0 <= i < |ps| && ps[i] == (k, m[k]);
    }
  }

  lemma SubtitleIndexKeys(t: Table)
    requires Readable(t) && t.rows != []
    ensures LastWins(SubtitlePairs(t)).Keys == Names(t.rows, IndexOf(t.columns, Key))
  {
    var ps := SubtitlePairs(t);
    var p := IndexOf(t.columns, Key);
    LastWinsKeys(ps);
    forall k | k in KeysOf(ps) ensures k in Names(t.rows, p) {
      var i :| 0 <= i < |ps| && ps[i].0 == k;
    }
    forall k | k in Names(t.rows, p) ensures k in KeysOf(ps) {
      var i :| 0 <= i < |t.rows| && t.rows[i][p] == k;
      assert ps[i].0 == k;
    }
  }

  /** `subtitle_by_name.get(name)`. */
  function Lookup(subs: map<Value, Dict>, name: Value): Option<Dict> {
    if name in subs then Some(subs[name]) else None
  }

  /** Every entry has `chinese` and `english` fields to read. */
  ghost predicate HasTexts(subs: map<Value, Dict>) {
    forall k :: k in subs ==> Chinese in subs[k].vals && English in subs[k].vals
  }

  /**
   * `data.copy()` followed by `update({'chinese_subtitle': ..., 'english_subtitle': ...})`: the two
   * subtitle fields come from the subtitle entry when there is one and are None otherwise; every
   * other field keeps its value, and the existing fields keep their order at the front.
   */
  function EnrichedRecord(d: Dict, sub: Option<Dict>): (e: Dict)
    requires sub.Some? ==> Chinese in sub.value.vals && English in sub.value.vals
    ensures ChineseField in e.vals && EnglishField in e.vals
    ensures e.vals[ChineseField] == (if sub.Some? then sub.value.vals[Chinese] else Null)
    ensures e.vals[EnglishField] == (if sub.Some? then sub.value.vals[English] else Null)
    ensures forall c :: c != ChineseField && c != EnglishField ==> (c in e.vals <==> c in d.vals)
    ensures forall c :: c != ChineseField && c != EnglishField && c in d.vals ==> e.vals[c] == d.vals[c]
    ensures |d.keys| <= |e.keys| <= |d.keys| + 2 && e.keys[..|d.keys|] == d.keys
  {
    var zh := if sub.Some? then sub.value.vals[Chinese] else Null;
    var en := if sub.Some? then sub.value.vals[English] else Null;
    Put(Put(d, ChineseField, zh), EnglishField, en)
  }

  /**
   * `enhanced_merged_by_name`: exactly the names of `merged_by_name`, each with its record
   * enriched from the subtitle entry of the same name, if any. `merged` itself is a value and stays
   * as it was.
   */
  method Enrich(merged: map<Value, Dict>, subs: map<Value, Dict>) returns (enhanced: map<Value, Dict>)
    requires HasTexts(subs)
    ensures enhanced.Keys == merged.Keys
    ensures |enhanced| == |merged|
    ensures forall k :: k in merged ==> enhanced[k] == EnrichedRecord(merged[k], Lookup(subs, k))
  {
    enhanced := map[];
    var todo := merged.Keys;
    while todo != {}
      invariant todo <= merged.Keys
      invariant enhanced.Keys == merged.Keys - todo
      invariant EnrichedSoFar(merged, subs, enhanced)
      decreases todo
    {
      var name :| name in todo;
      var data := merged[name];
      var enhancedData: Dict;
      if name in subs {
        var info := subs[name];
        enhancedData := Put(Put(data, ChineseField, info.vals[Chinese]), EnglishField, info.vals[English]);
      } else {
        enhancedData := Put(Put(data, ChineseField, Null), EnglishField, Null);
      }
      EnrichedSoFarPut(merged, subs, enhanced, name, enhancedData);
      enhanced := enhanced[name := enhancedData];
      todo := todo - {name};
    }
  }

  /** Every name enriched so far is a merged name holding the enriched copy of its record. */
  ghost predicate EnrichedSoFar(merged: map<Value, Dict>, subs: map<Value, Dict>, enhanced: map<Value, Dict>)
    requires HasTexts(subs)
  {
    forall k :: k in enhanced ==> k in merged && enhanced[k] == EnrichedRecord(merged[k], Lookup(subs, k))
  }

  lemma EnrichedSoFarPut(merged: map<Value, Dict>, subs: map<Value, Dict>, enhanced: map<Value, Dict>, name: Value, e: Dict)
    requires HasTexts(subs) && EnrichedSoFar(merged, subs, enhanced)
    requires name in merged && e == EnrichedRecord(merged[name], Lookup(subs, name))
    ensures EnrichedSoFar(merged, subs, enhanced[name := e])
  {
    var next := enhanced[name := e];
    forall k | k in next ensures k in merged && next[k] == EnrichedRecord(merged[k], Lookup(subs, k)) {
      if k != name { assert next[k] == enhanced[k]; }
    }
  }

  /** `merged_names.intersection(subtitle_names)`: the merged names that have a subtitle entry. */
  function CommonNames(merged: map<Value, Dict>, subs: map<Value, Dict>): (r: set<Value>)
    ensures r <= merged.Keys && r <= subs.Keys
    ensures |r| <= |merged| && |r| <= |subs|
    ensures forall k :: k in merged && k !in r ==> Lookup(subs, k) == None
  {
    var r := merged.Keys * subs.Keys;
    assert |r| <= |merged.Keys| by { SubsetSize(r, merged.Keys); }
    assert |r| <= |subs.Keys| by { SubsetSize(r, subs.Keys); }
    r
  }

  lemma SubsetSize<T>(a: set<T>, b: set<T>)
    requires a <= b
    ensures |a| <= |b|
  {
    assert b == a + (b - a);
  }

  /**
   * The common names are exactly the merged names whose enriched record takes its subtitle fields
   * from the subtitle index; every other enriched record has None in both subtitle fields.
   */
  lemma EnrichedFromCommon(merged: map<Value, Dict>, subs: map<Value, Dict>, k: Value)
    requires HasTexts(subs) && k in merged
    ensures var e := EnrichedRecord(merged[k], Lookup(subs, k));
      && (k in CommonNames(merged, subs) <==> k in subs)
      && (k in CommonNames(merged, subs) ==>
        e.vals[ChineseField] == subs[k].vals[Chinese] && e.vals[EnglishField] == subs[k].vals[English])
      && (k !in CommonNames(merged, subs) ==> e.vals[ChineseField] == Null && e.vals[EnglishField] == Null)
  {
  }
}
