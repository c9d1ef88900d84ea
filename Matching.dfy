/**
 * `search_tabular`: keeps the rows of the harmonised table whose normalized
 * name matches the name query (exactly, as a substring, or with a fuzzy
 * score at or above the threshold) and whose normalized CIN matches the CIN
 * query (exactly or as a substring), then sorts them by fuzzy score,
 * highest first, when a name query was given.
 */
module Matching {
  import opened Wrappers
  import opened Text
  import opened Tabular

  /**
   * `astype(str)` of a cell: a present cell renders as itself and a missing
   * one as "None", so a missing cell and a cell holding "None" look the same.
   */
  function Render(c: Option<string>): (r: string)
    ensures c.Some? ==> r == c.value
    ensures r == "None" <==> c == None || c == Some("None")
  {
    match c
    case None => "None"
    case Some(s) => s
  }

  /** A row of the working copy, with its helper columns `_nom_norm` and `_cin_norm`. */
  datatype Row = Row(rec: Record, nomNorm: string, cinNorm: string)

  /** The helper columns of a record: its name and CIN rendered as text, then normalized. */
  function Prepare(r: Record): Row {
    Row(r, Normalize(Some(Render(r.nom))), Normalize(Some(Render(r.cin))))
  }

  /** The working copy of the table. */
  function PrepareAll(records: seq<Record>): (rows: seq<Row>)
    ensures |rows| == |records|
  {
    seq(|records|, i requires 0 <= i < |records| => Prepare(records[i]))
  }

  /** A query as the filter sees it: `None` when it is "" (not given), else its normalized form. */
  function QueryKey(q: string): (k: Option<string>)
    ensures k.None? <==> q == ""
    ensures k.Some? ==> AllAscii(k.value) && NoUpperAscii(k.value) && Trimmed(k.value)
  {
    if q == "" then None else Some(Normalize(Some(q)))
  }

  /** The string `s` equals itself from position 0: an exact match is a substring match. */
  lemma SelfMatch(s: string)
    ensures MatchAt(s, s, 0)
  {
    MatchAtSlice(s, s, 0);
    assert s[0..|s|] == s;
  }

  /**
   * The name condition: exact match, substring, or fuzzy score (a float, as
   * rapidfuzz returns it) at or above the integer threshold. The exact test
   * adds nothing: the name holds the query somewhere, or scores high enough.
   */
  predicate NameMatches(nomNorm: string, nn: string, thr: int, ratio: (string, string) -> real): (b: bool)
    ensures b <==> (exists p :: MatchAt(nomNorm, nn, p)) || ratio(nomNorm, nn) >= thr as real
  {
    ContainsIff(nomNorm, nn);
    SelfMatch(nomNorm);
    nomNorm == nn || Contains(nomNorm, nn) || ratio(nomNorm, nn) >= thr as real
  }

  /** The CIN condition: exact match or substring; there is no fuzzy branch, so it is a plain substring test. */
  predicate CinMatches(cinNorm: string, cn: string): (b: bool)
    ensures b <==> exists p :: MatchAt(cinNorm, cn, p)
  {
    ContainsIff(cinNorm, cn);
    SelfMatch(cinNorm);
    cinNorm == cn || Contains(cinNorm, cn)
  }

  /** `matches` for one row: each given query's condition holds; with no query, every row is kept. */
  predicate Keep(row: Row, nameK: Option<string>, cinK: Option<string>, thr: int, ratio: (string, string) -> real): (b: bool)
    ensures nameK.None? && cinK.None? ==> b
    ensures b && cinK.Some? ==> exists p :: MatchAt(row.cinNorm, cinK.value, p)
  {
    (nameK.None? || NameMatches(row.nomNorm, nameK.value, thr, ratio))
    && (cinK.None? || CinMatches(row.cinNorm, cinK.value))
  }

  /** One result row: the six columns, and `score_nom` when a name query was given. */
  datatype Hit = Hit(record: Record, scoreNom: Option<real>)

  /** The result row of a kept row. */
  function HitOf(row: Row, nameK: Option<string>, ratio: (string, string) -> real): Hit {
    Hit(row.rec, if nameK.Some? then Some(ratio(row.nomNorm, nameK.value)) else None)
  }

  /** `df2.loc[matches, columns]`: the kept rows, in table order. */
  function FilterRows(rows: seq<Row>, nameK: Option<string>, cinK: Option<string>, thr: int,
                      ratio: (string, string) -> real): (hs: seq<Hit>)
    ensures |hs| <= |rows|
    ensures nameK.None? && cinK.None? ==> |hs| == |rows|
    ensures forall h :: h in hs ==> (h.scoreNom.Some? <==> nameK.Some?)
  {
    if rows == [] then []
    else
      var last := rows[|rows| - 1];
      FilterRows(rows[..|rows| - 1], nameK, cinK, thr, ratio)
        + (if Keep(last, nameK, cinK, thr, ratio) then [HitOf(last, nameK, ratio)] else [])
  }

  /** The sort key: the fuzzy score (0 when there is none). */
  function Score(h: Hit): real {
    if h.scoreNom.Some? then h.scoreNom.value else 0.0
  }

  predicate SortedDesc(hs: seq<Hit>) {
    forall i, j :: 0 <= i < j < |hs| ==> Score(hs[i]) >= Score(hs[j])
  }

  /** Inserts `h` into a list sorted by descending score. */
  function InsertByScore(h: Hit, hs: seq<Hit>): (r: seq<Hit>)
    ensures |r| == |hs| + 1
  {
    if hs == [] || Score(h) >= Score(hs[0]) then [h] + hs
    else [hs[0]] + InsertByScore(h, hs[1..])
  }

  /** `sort_values(by=["score_nom"], ascending=False)`: one order sorted by descending score. */
  function SortByScore(hs: seq<Hit>): (r: seq<Hit>)
    ensures |r| == |hs|
  {
    if hs == [] then [] else InsertByScore(hs[0], SortByScore(hs[1..]))
  }

  /** Insertion adds exactly the inserted hit. */
  lemma {:induction false} InsertByScorePerm(h: Hit, hs: seq<Hit>)
    ensures multiset(InsertByScore(h, hs)) == multiset(hs) + multiset{h}
    decreases |hs|
  {
    if hs != [] && Score(h) < Score(hs[0]) {
      InsertByScorePerm(h, hs[1..]);
      assert hs == [hs[0]] + hs[1..];
    }
  }

  /** Insertion adds the inserted hit and keeps every other one. */
  lemma {:induction false} InsertByScoreMembers(h: Hit, hs: seq<Hit>)
    ensures forall x :: x in InsertByScore(h, hs) <==> x == h || x in hs
    decreases |hs|
  {
    if hs != [] && Score(h) < Score(hs[0]) {
      InsertByScoreMembers(h, hs[1..]);
      assert hs == [hs[0]] + hs[1..];
    }
  }

  /** Insertion keeps a list sorted by descending score. */
  lemma {:induction false} InsertByScoreSorted(h: Hit, hs: seq<Hit>)
    requires SortedDesc(hs)
    ensures SortedDesc(InsertByScore(h, hs))
    decreases |hs|
  {
    if hs != [] && Score(h) < Score(hs[0]) {
      var tail := hs[1..];
      InsertByScoreSorted(h, tail);
      InsertByScoreMembers(h, tail);
      var ins := InsertByScore(h, tail);
      var r := [hs[0]] + ins;
      forall i, j | 0 <= i < j < |r|
        ensures Score(r[i]) >= Score(r[j])
      {
        var x := r[j];
        assert x == ins[j - 1];
        if i == 0 {
          assert x in ins;
          if x != h {
            var k :| 0 <= k < |tail| && tail[k] == x;
            assert hs[k + 1] == x;
          }
        } else {
          assert r[i] == ins[i - 1];
        }
      }
    }
  }

  /** Sorting by score gives a sorted permutation. */
  lemma {:induction false} SortByScoreSpec(hs: seq<Hit>)
    ensures SortedDesc(SortByScore(hs))
    ensures multiset(SortByScore(hs)) == multiset(hs)
    decreases |hs|
  {
    if hs != [] {
      SortByScoreSpec(hs[1..]);
      InsertByScoreSorted(hs[0], SortByScore(hs[1..]));
      InsertByScorePerm(hs[0], SortByScore(hs[1..]));
      assert hs == [hs[0]] + hs[1..];
    }
  }

  /**
   * `search_tabular`: an empty table comes back as it is; otherwise the kept
   * rows, sorted by descending fuzzy score when a name query was given (the
   * order of the sort over all columns, used without a name query, is not
   * modelled: the rows stay in table order).
   */
  function SearchTabular(records: seq<Record>, nameQ: string, cinQ: string, thr: int,
                         ratio: (string, string) -> real): (out: seq<Hit>)
    ensures |out| <= |records|
    ensures nameQ == "" && cinQ == "" ==> |out| == |records|
  {
    if records == [] then []
    else
      var hits := FilterRows(PrepareAll(records), QueryKey(nameQ), QueryKey(cinQ), thr, ratio);
      if nameQ != "" then SortByScore(hits) else hits
  }

  // ---------------------------------------------------------------------------
  // Properties of the filter
  // ---------------------------------------------------------------------------

  /** A hit of the filter is the result row of a kept row, and every kept row gives one. */
  lemma {:induction false} FilterRowsMembers(rows: seq<Row>, nameK: Option<string>, cinK: Option<string>, thr: int,
                                             ratio: (string, string) -> real)
    ensures forall h :: h in FilterRows(rows, nameK, cinK, thr, ratio) <==>
      exists i :: 0 <= i < |rows| && Keep(rows[i], nameK, cinK, thr, ratio) && h == HitOf(rows[i], nameK, ratio)
    decreases |rows|
  {
    if rows != [] {
      var n := |rows|;
      var init := rows[..n - 1];
      FilterRowsMembers(init, nameK, cinK, thr, ratio);
      forall h
        ensures h in FilterRows(rows, nameK, cinK, thr, ratio) <==>
          exists i :: 0 <= i < n && Keep(rows[i], nameK, cinK, thr, ratio) && h == HitOf(rows[i], nameK, ratio)
      {
        if h in FilterRows(init, nameK, cinK, thr, ratio) {
          var i :| 0 <= i < n - 1 && Keep(init[i], nameK, cinK, thr, ratio) && h == HitOf(init[i], nameK, ratio);
          assert rows[i] == init[i];
        }
        if i :| 0 <= i < n && Keep(rows[i], nameK, cinK, thr, ratio) && h == HitOf(rows[i], nameK, ratio) {
          if i < n - 1 {
            assert rows[i] == init[i];
          }
        }
      }
    }
  }

  /** Raising the threshold never adds a row: the hits at a higher threshold are among those at a lower one. */
  lemma {:induction false} FilterRowsMonotone(rows: seq<Row>, nameK: Option<string>, cinK: Option<string>,
                                              lo: int, hi: int, ratio: (string, string) -> real)
    requires lo <= hi
    ensures multiset(FilterRows(rows, nameK, cinK, hi, ratio)) <= multiset(FilterRows(rows, nameK, cinK, lo, ratio))
    decreases |rows|
  {
    if rows != [] {
      FilterRowsMonotone(rows[..|rows| - 1], nameK, cinK, lo, hi, ratio);
    }
  }

  // ---------------------------------------------------------------------------
  // Properties of search_tabular
  // ---------------------------------------------------------------------------

  /**
   * The result is a permutation of the kept rows; with a name query it is
   * sorted by descending score, and every row carries a score exactly when a
   * name query was given.
   */
  lemma SearchTabularShape(records: seq<Record>, nameQ: string, cinQ: string, thr: int,
                           ratio: (string, string) -> real)
    ensures var out := SearchTabular(records, nameQ, cinQ, thr, ratio);
      multiset(out) == multiset(FilterRows(PrepareAll(records), QueryKey(nameQ), QueryKey(cinQ), thr, ratio))
      && (nameQ != "" ==> SortedDesc(out))
      && (forall h :: h in out ==> (h.scoreNom.Some? <==> nameQ != ""))
  {
    var rows := PrepareAll(records);
    var hits := FilterRows(rows, QueryKey(nameQ), QueryKey(cinQ), thr, ratio);
    FilterRowsMembers(rows, QueryKey(nameQ), QueryKey(cinQ), thr, ratio);
    if nameQ != "" {
      SortByScoreSpec(hits);
    }
    var out := SearchTabular(records, nameQ, cinQ, thr, ratio);
    forall h | h in out
      ensures h.scoreNom.Some? <==> nameQ != ""
    {
      assert h in multiset(out);
      assert h in hits;
    }
  }

  /** Every result row is the result row of a kept row of the table. */
  lemma ResultRow(records: seq<Record>, nameQ: string, cinQ: string, thr: int,
                  ratio: (string, string) -> real, h: Hit)
    requires h in SearchTabular(records, nameQ, cinQ, thr, ratio)
    ensures exists i :: (0 <= i < |records| && Keep(Prepare(records[i]), QueryKey(nameQ), QueryKey(cinQ), thr, ratio)
      && h == HitOf(Prepare(records[i]), QueryKey(nameQ), ratio))
  {
    var rows := PrepareAll(records);
    var nameK, cinK := QueryKey(nameQ), QueryKey(cinQ);
    ResultIsFiltered(records, nameQ, cinQ, thr, ratio, h);
    FilterRowsMembers(rows, nameK, cinK, thr, ratio);
    var i :| 0 <= i < |rows| && Keep(rows[i], nameK, cinK, thr, ratio) && h == HitOf(rows[i], nameK, ratio);
    assert rows[i] == Prepare(records[i]);
  }

  /** Every result row is one of the filter's hits. */
  lemma ResultIsFiltered(records: seq<Record>, nameQ: string, cinQ: string, thr: int,
                         ratio: (string, string) -> real, h: Hit)
    requires h in SearchTabular(records, nameQ, cinQ, thr, ratio)
    ensures h in FilterRows(PrepareAll(records), QueryKey(nameQ), QueryKey(cinQ), thr, ratio)
  {
    SearchTabularShape(records, nameQ, cinQ, thr, ratio);
    assert h in multiset(SearchTabular(records, nameQ, cinQ, thr, ratio));
  }

  /** Every kept row of the table gives a result row. */
  lemma KeptRowInResult(records: seq<Record>, nameQ: string, cinQ: string, thr: int,
                        ratio: (string, string) -> real, i: nat)
    requires i < |records| && Keep(Prepare(records[i]), QueryKey(nameQ), QueryKey(cinQ), thr, ratio)
    ensures HitOf(Prepare(records[i]), QueryKey(nameQ), ratio) in SearchTabular(records, nameQ, cinQ, thr, ratio)
  {
    var rows := PrepareAll(records);
    var nameK, cinK := QueryKey(nameQ), QueryKey(cinQ);
    SearchTabularShape(records, nameQ, cinQ, thr, ratio);
    FilterRowsMembers(rows, nameK, cinK, thr, ratio);
    var h := HitOf(rows[i], nameK, ratio);
    assert h in FilterRows(rows, nameK, cinK, thr, ratio);
    assert h in multiset(SearchTabular(records, nameQ, cinQ, thr, ratio));
  }

  /**
   * A row of the table is in the result exactly when it passes the filter:
   * the name condition when a name query is given, and the CIN condition
   * when a CIN query is given.
   */
  lemma SearchTabularKeeps(records: seq<Record>, nameQ: string, cinQ: string, thr: int,
                           ratio: (string, string) -> real, r: Record)
    requires r in records
    ensures (exists h :: h in SearchTabular(records, nameQ, cinQ, thr, ratio) && h.record == r)
      <==> Keep(Prepare(r), QueryKey(nameQ), QueryKey(cinQ), thr, ratio)
  {
    if h :| h in SearchTabular(records, nameQ, cinQ, thr, ratio) && h.record == r {
      ResultRow(records, nameQ, cinQ, thr, ratio, h);
    }
    if Keep(Prepare(r), QueryKey(nameQ), QueryKey(cinQ), thr, ratio) {
      var i :| 0 <= i < |records| && records[i] == r;
      KeptRowInResult(records, nameQ, cinQ, thr, ratio, i);
    }
  }

  /** Every result row comes from the table. */
  lemma SearchTabularSubset(records: seq<Record>, nameQ: string, cinQ: string, thr: int,
                            ratio: (string, string) -> real)
    ensures forall h :: h in SearchTabular(records, nameQ, cinQ, thr, ratio) ==> h.record in records
  {
    forall h | h in SearchTabular(records, nameQ, cinQ, thr, ratio)
      ensures h.record in records
    {
      ResultRow(records, nameQ, cinQ, thr, ratio, h);
    }
  }

  /** With a name query, each result row's score is the fuzzy score of its normalized name against the normalized query. */
  lemma ScoreIsRatio(records: seq<Record>, nameQ: string, cinQ: string, thr: int,
                     ratio: (string, string) -> real)
    requires nameQ != ""
    ensures forall h :: h in SearchTabular(records, nameQ, cinQ, thr, ratio) ==>
      h.scoreNom == Some(ratio(Prepare(h.record).nomNorm, Normalize(Some(nameQ))))
  {
    forall h | h in SearchTabular(records, nameQ, cinQ, thr, ratio)
      ensures h.scoreNom == Some(ratio(Prepare(h.record).nomNorm, Normalize(Some(nameQ))))
    {
      ResultRow(records, nameQ, cinQ, thr, ratio, h);
    }
  }

  /** Raising the threshold never adds a row to the result. */
  lemma ThresholdMonotone(records: seq<Record>, nameQ: string, cinQ: string, lo: int, hi: int,
                          ratio: (string, string) -> real)
    requires lo <= hi
    ensures multiset(SearchTabular(records, nameQ, cinQ, hi, ratio)) <= multiset(SearchTabular(records, nameQ, cinQ, lo, ratio))
  {
    if records != [] {
      SearchTabularShape(records, nameQ, cinQ, lo, ratio);
      SearchTabularShape(records, nameQ, cinQ, hi, ratio);
      FilterRowsMonotone(PrepareAll(records), QueryKey(nameQ), QueryKey(cinQ), lo, hi, ratio);
    }
  }

  /** A row whose normalized name equals the normalized name query, and that passes the CIN condition, is kept at every threshold. */
  lemma ExactNameAlwaysKept(records: seq<Record>, nameQ: string, cinQ: string, thr: int,
                            ratio: (string, string) -> real, r: Record)
    requires r in records && nameQ != ""
    requires Prepare(r).nomNorm == Normalize(Some(nameQ))
    requires cinQ == "" || CinMatches(Prepare(r).cinNorm, Normalize(Some(cinQ)))
    ensures exists h :: h in SearchTabular(records, nameQ, cinQ, thr, ratio) && h.record == r
  {
    SearchTabularKeeps(records, nameQ, cinQ, thr, ratio, r);
  }

  /** A row whose normalized CIN neither equals nor contains the normalized CIN query is dropped, whatever the threshold and the scores. */
  lemma CinNoFuzzy(records: seq<Record>, nameQ: string, cinQ: string, thr: int,
                   ratio: (string, string) -> real, r: Record)
    requires r in records && cinQ != ""
    requires !CinMatches(Prepare(r).cinNorm, Normalize(Some(cinQ)))
    ensures forall h :: h in SearchTabular(records, nameQ, cinQ, thr, ratio) ==> h.record != r
  {
    SearchTabularKeeps(records, nameQ, cinQ, thr, ratio, r);
  }

  // ---------------------------------------------------------------------------
  // Missing cells and blank queries
  // ---------------------------------------------------------------------------

  lemma NoneLowered()
    ensures Lower("None") == "none" && Lower("none") == "none"
  {
  }

  /** A missing cell renders as "None" and so normalizes to "none", not to "". */
  lemma MissingCellReadsNone(c: Option<string>)
    requires c.None?
    ensures Normalize(Some(Render(c))) == "none"
  {
    assert Trimmed("None");
    NormalizeTrimmedAscii("None");
    NoneLowered();
  }

  /** The query "none" normalizes to itself. */
  lemma NoneQueryNormalized()
    ensures Normalize(Some("none")) == "none"
  {
    assert Trimmed("none");
    NormalizeTrimmedAscii("none");
    NoneLowered();
  }

  /**
   * A table without a name column matches the name query "none" on every row
   * (when no CIN query is given), whatever the threshold: the missing name is
   * compared as the text "none".
   */
  lemma MissingNameMatchesNone(records: seq<Record>, cinQ: string, thr: int,
                               ratio: (string, string) -> real, r: Record)
    requires r in records && r.nom.None? && cinQ == ""
    ensures exists h :: h in SearchTabular(records, "none", cinQ, thr, ratio) && h.record == r
  {
    MissingCellReadsNone(r.nom);
    NoneQueryNormalized();
    ExactNameAlwaysKept(records, "none", cinQ, thr, ratio, r);
  }

  /** The empty string occurs in every string. */
  lemma ContainsEmpty(s: string)
    ensures Contains(s, "")
  {
    assert MatchAt(s, "", 0);
  }

  /**
   * A name query that normalizes to "" (only spaces, say) is still a given
   * query, and every name contains it: with no CIN query, every row is kept.
   */
  lemma BlankNameQueryKeepsAll(records: seq<Record>, nameQ: string, thr: int,
                               ratio: (string, string) -> real, r: Record)
    requires r in records && nameQ != "" && Normalize(Some(nameQ)) == ""
    ensures exists h :: h in SearchTabular(records, nameQ, "", thr, ratio) && h.record == r
  {
    ContainsEmpty(Prepare(r).nomNorm);
    SearchTabularKeeps(records, nameQ, "", thr, ratio, r);
  }
}
