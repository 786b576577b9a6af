/**
 * The search endpoint: reject a blank query, rewrite it (lower-case, expand
 * abbreviations, correct spelling), rank the corpus by content similarity,
 * fall back to adding the title ranking when the content ranking is short or
 * weak, drop rows whose link was already seen, and return the five best rows
 * by adjusted score, projected onto the published columns.
 */
module Retrieval {
  import opened Wrappers
  import opened Text
  import opened Rewriter
  import opened Corpus
  import opened Ranker

  /** How many rows a search returns at most. */
  const ResultCount: nat := 5

  /** Below this best content similarity the title ranking is added. */
  const FallbackThreshold: real := 0.1

  /** The one rejected request: a query that is blank once stripped. */
  datatype SearchError = EmptyQuery {
    function Message(): string { "Query cannot be empty" }
    function Status(): nat { 400 }
  }

  /** One published search hit. */
  datatype ResultRecord = ResultRecord(
    title: string,
    link: string,
    totalWords: int,
    uniqueWordsNorm: real,
    stopwordsNorm: real)

  /** Which rankings a search consulted. */
  datatype Trace = Rejected | ContentOnly | ContentThenTitle

  function Min(a: int, b: int): int {
    if a <= b then a else b
  }

  function Link(row: Row): string {
    row.doc.article.link
  }

  function Links(rows: seq<Row>): set<string> {
    set row | row in rows :: Link(row)
  }

  function DocLinks(docs: seq<Document>): set<string> {
    set d | d in docs :: d.article.link
  }

  /** No two rows share a link. */
  predicate UniqueLinks(rows: seq<Row>) {
    forall i, j :: 0 <= i < j < |rows| ==> Link(rows[i]) != Link(rows[j])
  }

  lemma LinksOfCons(rows: seq<Row>)
    requires rows != []
    ensures Links(rows) == {Link(rows[0])} + Links(rows[1..])
  {
    assert forall row :: row in rows <==> row == rows[0] || row in rows[1..] by {
      assert rows == [rows[0]] + rows[1..];
    }
  }

  /** A row list has at most as many links as rows, and exactly as many
      precisely when no link repeats. */
  lemma {:induction false} LinksCount(rows: seq<Row>)
    ensures |Links(rows)| <= |rows|
    ensures UniqueLinks(rows) <==> |Links(rows)| == |rows|
  {
    if rows != [] {
      var tail := rows[1..];
      LinksCount(tail);
      LinksOfCons(rows);
      if Link(rows[0]) in Links(tail) {
        var row :| row in tail && Link(row) == Link(rows[0]);
        var j :| 0 <= j < |tail| && tail[j] == row;
        assert rows[j + 1] == row;
      } else {
        if UniqueLinks(rows) {
          forall i, j | 0 <= i < j < |tail| ensures Link(tail[i]) != Link(tail[j]) {
            assert tail[i] == rows[i + 1] && tail[j] == rows[j + 1];
          }
        }
        if UniqueLinks(tail) {
          forall i, j | 0 <= i < j < |rows| ensures Link(rows[i]) != Link(rows[j]) {
            assert rows[j] == tail[j - 1];
            if i > 0 {
              assert rows[i] == tail[i - 1];
            }
          }
        }
      }
    }
  }

  /** The best similarity of a non-empty ranking. */
  function MaxSimilarity(rows: seq<Row>): (m: real)
    requires rows != []
    ensures exists i :: 0 <= i < |rows| && rows[i].similarity == m
    ensures forall i :: 0 <= i < |rows| ==> rows[i].similarity <= m
  {
    if |rows| == 1 then rows[0].similarity
    else
      var rest := MaxSimilarity(rows[1..]);
      assert forall i :: 1 <= i < |rows| ==> rows[i] == rows[1..][i - 1];
      if rows[0].similarity >= rest then rows[0].similarity else rest
  }

  /** The content ranking is too short or too weak to stand alone. */
  predicate NeedsTitleFallback(content: seq<Row>) {
    |content| < ResultCount || MaxSimilarity(content) < FallbackThreshold
  }

  /** `drop_duplicates(subset=['link'])` continued after the links in `seen`:
      each row whose link is neither in `seen` nor on an earlier row, in
      order. */
  function DedupeFrom(rows: seq<Row>, seen: set<string>): (r: seq<Row>)
    ensures forall row :: row in r ==> row in rows && Link(row) !in seen
    ensures Links(r) == Links(rows) - seen
    ensures UniqueLinks(r)
    decreases |rows|
  {
    if rows == [] then []
    else
      var l := Link(rows[0]);
      LinksOfCons(rows);
      if l in seen then DedupeFrom(rows[1..], seen)
      else
        var rest := DedupeFrom(rows[1..], seen + {l});
        var r := [rows[0]] + rest;
        LinksOfCons(r);
        assert r[1..] == rest;
        LinksCount(rest);
        LinksCount(r);
        r
  }

  /** `drop_duplicates(subset=['link'])`: the first row of every link. */
  function DedupeByLink(rows: seq<Row>): seq<Row> {
    DedupeFrom(rows, {})
  }

  /** Deduplication keeps one row per link not yet seen. */
  lemma DedupeCount(rows: seq<Row>, seen: set<string>)
    ensures |DedupeFrom(rows, seen)| == |Links(rows) - seen|
  {
    LinksCount(DedupeFrom(rows, seen));
  }

  /** The row kept for a link is its first occurrence: for every row whose
      link is not in `seen`, a row with the same link at the same or an
      earlier position is kept. */
  lemma {:induction false} DedupeRepresentative(rows: seq<Row>, seen: set<string>, k: nat)
    requires k < |rows| && Link(rows[k]) !in seen
    ensures exists j :: 0 <= j <= k && Link(rows[j]) == Link(rows[k]) && rows[j] in DedupeFrom(rows, seen)
    decreases k
  {
    var l := Link(rows[0]);
    if k == 0 || (l !in seen && l == Link(rows[k])) {
      assert rows[0] in DedupeFrom(rows, seen);
    } else {
      var tail := rows[1..];
      var seen' := if l in seen then seen else seen + {l};
      assert tail[k - 1] == rows[k];
      DedupeRepresentative(tail, seen', k - 1);
      var j :| 0 <= j <= k - 1 && Link(tail[j]) == Link(tail[k - 1]) && tail[j] in DedupeFrom(tail, seen');
      assert rows[j + 1] == tail[j];
    }
  }

  /** Deduplicating a concatenation: the second part continues after every
      link of the first. */
  lemma {:induction false} DedupeAppend(a: seq<Row>, b: seq<Row>, seen: set<string>)
    ensures DedupeFrom(a + b, seen) == DedupeFrom(a, seen) + DedupeFrom(b, seen + Links(a))
    decreases |a|
  {
    if a == [] {
      assert a + b == b;
      assert Links(a) == {};
      assert seen + Links(a) == seen;
    } else {
      var l := Link(a[0]);
      assert (a + b)[0] == a[0];
      assert (a + b)[1..] == a[1..] + b;
      LinksOfCons(a);
      if l in seen {
        DedupeAppend(a[1..], b, seen);
        assert seen + Links(a) == seen + Links(a[1..]);
      } else {
        DedupeAppend(a[1..], b, seen + {l});
        assert seen + {l} + Links(a[1..]) == seen + Links(a);
      }
    }
  }

  /** Rows whose links were all seen contribute nothing. */
  lemma DedupeCovered(rows: seq<Row>, seen: set<string>)
    requires Links(rows) <= seen
    ensures DedupeFrom(rows, seen) == []
  {
    LinksCount(DedupeFrom(rows, seen));
  }

  /** A ranking holds one row for every document, so its links are the
      corpus's links. */
  lemma RankedLinks(scores: seq<real>, docs: seq<Document>, w: Weights)
    requires |scores| == |docs|
    ensures Links(RankResults(scores, docs, w)) == DocLinks(docs)
  {
    var r := RankResults(scores, docs, w);
    RankResultsRows(scores, docs, w);
    forall l | l in Links(r) ensures l in DocLinks(docs) {
      var row :| row in r && Link(row) == l;
      var i :| 0 <= i < |docs| && row.doc == docs[i] && row.similarity == scores[i]
               && row.adjustedScore == AdjustedScore(w, scores[i], docs[i]);
      assert docs[i] in docs;
    }
    forall l | l in DocLinks(docs) ensures l in Links(r) {
      var d :| d in docs && d.article.link == l;
      var i :| 0 <= i < |docs| && docs[i] == d;
      assert Row(docs[i], scores[i], AdjustedScore(w, scores[i], docs[i])) in r;
    }
  }

  /** The last step of a search: deduplicate by link, sort by adjusted
      score, descending, and keep the first five rows. The order among rows
      of equal adjusted score is this model's insertion order. */
  function Finalize(rows: seq<Row>): seq<Row> {
    var sorted := SortRows(ByScore, DedupeByLink(rows));
    sorted[..Min(ResultCount, |sorted|)]
  }

  /** Reordering rows keeps their number, their membership and, when no link
      repeats, the distinctness of their links. */
  lemma Reordered(rows: seq<Row>, sorted: seq<Row>)
    requires multiset(sorted) == multiset(rows)
    ensures |sorted| == |rows|
    ensures forall row :: row in sorted <==> row in rows
    ensures UniqueLinks(rows) ==> UniqueLinks(sorted)
  {
    assert forall row :: row in sorted <==> row in multiset(rows);
    assert Links(sorted) == Links(rows);
    assert |sorted| == |multiset(sorted)| == |multiset(rows)| == |rows|;
    LinksCount(rows);
    LinksCount(sorted);
  }

  /** The final rows: five, or fewer when there are fewer distinct links; no
      link twice; adjusted scores never increasing; all drawn from the rows
      deduplication keeps, the first of each link. */
  lemma FinalizeResults(rows: seq<Row>)
    ensures var r := Finalize(rows);
            && |r| == Min(ResultCount, |Links(rows)|)
            && UniqueLinks(r)
            && Sorted(ByScore, r)
            && (forall row :: row in r ==> row in DedupeByLink(rows))
            && forall row :: row in r ==> row in rows
  {
    var deduped := DedupeByLink(rows);
    var sorted := SortRows(ByScore, deduped);
    var n := Min(ResultCount, |sorted|);
    assert Finalize(rows) == sorted[..n];
    Reordered(deduped, sorted);
    DedupeCount(rows, {});
    assert Links(rows) - {} == Links(rows);
    SortedPrefix(ByScore, sorted, n);
    forall row | row in sorted[..n] ensures row in deduped && row in rows {
      assert row in sorted;
    }
  }

  /** No kept row beats a chosen one: every deduplicated row whose link did
      not make the cut scores at most as high as every returned row. */
  lemma FinalizeKeepsBest(rows: seq<Row>)
    ensures forall x, y :: x in Finalize(rows) && y in DedupeByLink(rows) && Link(y) !in Links(Finalize(rows)) ==>
              y.adjustedScore <= x.adjustedScore
  {
    var deduped := DedupeByLink(rows);
    var sorted := SortRows(ByScore, deduped);
    var n := Min(ResultCount, |sorted|);
    var r := Finalize(rows);
    assert r == sorted[..n];
    SortedPairwise(ByScore, sorted);
    forall x, y | x in r && y in deduped && Link(y) !in Links(r)
      ensures y.adjustedScore <= x.adjustedScore
    {
      var i :| 0 <= i < n && sorted[i] == x;
      assert y in multiset(sorted);
      var j :| 0 <= j < |sorted| && sorted[j] == y;
    }
  }

  /** The rows a search returns for the given content and title scores of
      every document. */
  function Retrieve(docs: seq<Document>, contentScores: seq<real>, titleScores: seq<real>): seq<Row>
    requires |contentScores| == |docs| && |titleScores| == |docs|
  {
    var content := RankResults(contentScores, docs, DefaultWeights);
    var combined :=
      if NeedsTitleFallback(content) then content + RankResults(titleScores, docs, DefaultWeights)
      else content;
    Finalize(combined)
  }

  /** The title fallback never changes the outcome: the content ranking
      already holds a row for every link, so every title row is dropped as a
      duplicate. */
  lemma FallbackNeverChangesOutcome(docs: seq<Document>, contentScores: seq<real>, titleScores: seq<real>)
    requires |contentScores| == |docs| && |titleScores| == |docs|
    ensures Retrieve(docs, contentScores, titleScores) ==
            Finalize(RankResults(contentScores, docs, DefaultWeights))
  {
    var content := RankResults(contentScores, docs, DefaultWeights);
    var title := RankResults(titleScores, docs, DefaultWeights);
    if NeedsTitleFallback(content) {
      RankedLinks(contentScores, docs, DefaultWeights);
      RankedLinks(titleScores, docs, DefaultWeights);
      DedupeAppend(content, title, {});
      DedupeCovered(title, {} + Links(content));
      assert DedupeByLink(content + title) == DedupeByLink(content);
    }
  }

  /** What a search returns: at most five rows, as many as there are
      distinct links up to five, no link twice, adjusted scores never
      increasing, every row one that deduplication of the content ranking
      kept, and every row a corpus document with its content score. */
  lemma RetrieveResults(docs: seq<Document>, contentScores: seq<real>, titleScores: seq<real>)
    requires |contentScores| == |docs| && |titleScores| == |docs|
    ensures var r := Retrieve(docs, contentScores, titleScores);
            && |r| == Min(ResultCount, |DocLinks(docs)|)
            && UniqueLinks(r)
            && Sorted(ByScore, r)
            && (forall row :: row in r ==> row in DedupeByLink(RankResults(contentScores, docs, DefaultWeights)))
            && forall row :: row in r ==>
                 exists i :: 0 <= i < |docs| && row.doc == docs[i] && row.similarity == contentScores[i]
                          && row.adjustedScore == AdjustedScore(DefaultWeights, contentScores[i], docs[i])
  {
    var content := RankResults(contentScores, docs, DefaultWeights);
    FallbackNeverChangesOutcome(docs, contentScores, titleScores);
    RankedLinks(contentScores, docs, DefaultWeights);
    RankResultsRows(contentScores, docs, DefaultWeights);
    FinalizeResults(content);
  }

  /** In a ranking, the row deduplication keeps for a link scores at least
      as high as every row with that link. */
  lemma RepresentativeScoresHigher(ranked: seq<Row>, k: nat)
    requires Sorted(ByScoreThenSimilarity, ranked) && k < |ranked|
    ensures exists y :: y in DedupeByLink(ranked) && Link(y) == Link(ranked[k])
                        && y.adjustedScore >= ranked[k].adjustedScore
  {
    DedupeRepresentative(ranked, {}, k);
    var j :| 0 <= j <= k && Link(ranked[j]) == Link(ranked[k]) && ranked[j] in DedupeFrom(ranked, {});
    SortedPairwise(ByScoreThenSimilarity, ranked);
    if j < k {
      assert Precedes(ByScoreThenSimilarity, ranked[j], ranked[k]);
    }
  }

  /** A search returns the best documents: a document whose link is not
      among the results scores at most as high as every returned row. */
  lemma RetrieveKeepsBest(docs: seq<Document>, contentScores: seq<real>, titleScores: seq<real>, i: nat, x: Row)
    requires |contentScores| == |docs| && |titleScores| == |docs|
    requires i < |docs| && x in Retrieve(docs, contentScores, titleScores)
    requires docs[i].article.link !in Links(Retrieve(docs, contentScores, titleScores))
    ensures AdjustedScore(DefaultWeights, contentScores[i], docs[i]) <= x.adjustedScore
  {
    var content := RankResults(contentScores, docs, DefaultWeights);
    var row := Row(docs[i], contentScores[i], AdjustedScore(DefaultWeights, contentScores[i], docs[i]));
    FallbackNeverChangesOutcome(docs, contentScores, titleScores);
    RankResultsRows(contentScores, docs, DefaultWeights);
    var k :| 0 <= k < |content| && content[k] == row;
    RepresentativeScoresHigher(content, k);
    var y :| y in DedupeByLink(content) && Link(y) == Link(row) && y.adjustedScore >= row.adjustedScore;
    FinalizeKeepsBest(content);
  }

  /** A search returns, for each link it covers, the row deduplication kept
      for it: that row scores at least as high as every document with the
      link. */
  lemma RetrieveRepresentative(docs: seq<Document>, contentScores: seq<real>, titleScores: seq<real>, i: nat, x: Row)
    requires |contentScores| == |docs| && |titleScores| == |docs|
    requires i < |docs| && x in Retrieve(docs, contentScores, titleScores)
    requires Link(x) == docs[i].article.link
    ensures AdjustedScore(DefaultWeights, contentScores[i], docs[i]) <= x.adjustedScore
  {
    var content := RankResults(contentScores, docs, DefaultWeights);
    var row := Row(docs[i], contentScores[i], AdjustedScore(DefaultWeights, contentScores[i], docs[i]));
    FallbackNeverChangesOutcome(docs, contentScores, titleScores);
    RankResultsRows(contentScores, docs, DefaultWeights);
    var k :| 0 <= k < |content| && content[k] == row;
    RepresentativeScoresHigher(content, k);
    var y :| y in DedupeByLink(content) && Link(y) == Link(row) && y.adjustedScore >= row.adjustedScore;
    FinalizeResults(content);
    SameLinkSameRow(DedupeByLink(content), x, y);
  }

  lemma SameLinkSameRow(rows: seq<Row>, x: Row, y: Row)
    requires UniqueLinks(rows) && x in rows && y in rows && Link(x) == Link(y)
    ensures x == y
  {
    var a :| 0 <= a < |rows| && rows[a] == x;
    var b :| 0 <= b < |rows| && rows[b] == y;
  }

  /** The published columns of one document. */
  function RecordOf(d: Document): ResultRecord {
    ResultRecord(d.article.title, d.article.link, d.article.totalWords, d.uniqueWordsNorm, d.stopwordsNorm)
  }

  function Project(rows: seq<Row>): seq<ResultRecord> {
    seq(|rows|, i requires 0 <= i < |rows| => RecordOf(rows[i].doc))
  }

  /** The published records: as many as there are distinct links, up to
      five; no link twice; each one a corpus document's columns. */
  lemma PublishedRecords(docs: seq<Document>, contentScores: seq<real>, titleScores: seq<real>)
    requires |contentScores| == |docs| && |titleScores| == |docs|
    ensures var recs := Project(Retrieve(docs, contentScores, titleScores));
            && |recs| == Min(ResultCount, |DocLinks(docs)|)
            && (forall i, j :: 0 <= i < j < |recs| ==> recs[i].link != recs[j].link)
            && (forall rec :: rec in recs ==> exists d :: d in docs && rec == RecordOf(d))
  {
    var top := Retrieve(docs, contentScores, titleScores);
    var recs := Project(top);
    RetrieveResults(docs, contentScores, titleScores);
    forall rec | rec in recs ensures exists d :: d in docs && rec == RecordOf(d) {
      var i :| 0 <= i < |top| && recs[i] == rec;
      assert top[i] in top;
      var k :| 0 <= k < |docs| && top[i].doc == docs[k] && top[i].similarity == contentScores[k]
               && top[i].adjustedScore == AdjustedScore(DefaultWeights, contentScores[k], docs[k]);
      assert docs[k] in docs;
    }
  }

  /** The query the index sees: lower-cased, abbreviations expanded, then
      spelling corrected. */
  function RewriteQuery(query: string, correct: string -> Option<string>): string {
    CorrectedQuery(ExpandAbbreviations(Lower(query)), correct)
  }

  /** The search endpoint. `contentIndex` and `titleIndex` give, for a query,
      the similarity of every document's content and title; `correct` is the
      spelling corrector. `trace` records which rankings were consulted. */
  method Search(
    rawQuery: string,
    docs: seq<Document>,
    correct: string -> Option<string>,
    contentIndex: string -> seq<real>,
    titleIndex: string -> seq<real>)
    returns (r: Result<seq<ResultRecord>, SearchError>, ghost trace: Trace)
    requires forall q :: |contentIndex(q)| == |docs| && |titleIndex(q)| == |docs|
    ensures r.Failure? <==> forall i :: 0 <= i < |rawQuery| ==> IsSpace(rawQuery[i])
    ensures r.Failure? ==> r.error == EmptyQuery && trace == Rejected
    ensures r.Success? ==>
              var q := RewriteQuery(Strip(rawQuery), correct);
              && r.value == Project(Retrieve(docs, contentIndex(q), titleIndex(q)))
              && |r.value| == Min(ResultCount, |DocLinks(docs)|)
              && (forall i, j :: 0 <= i < j < |r.value| ==> r.value[i].link != r.value[j].link)
              && (forall rec :: rec in r.value ==> exists d :: d in docs && rec == RecordOf(d))
              && trace == (if NeedsTitleFallback(RankResults(contentIndex(q), docs, DefaultWeights))
                           then ContentThenTitle else ContentOnly)
  {
    var query := Strip(rawQuery);
    if query == [] {
      return Failure(EmptyQuery), Rejected;
    }
    ghost var stripped := query;
    query := ExpandAbbreviations(Lower(query));
    query := CorrectSpelling(query, correct);
    assert query == RewriteQuery(stripped, correct);

    var contentScores := contentIndex(query);
    var content := RankResults(contentScores, docs, DefaultWeights);
    var combined := content;
    if NeedsTitleFallback(content) {
      var titleScores := titleIndex(query);
      var title := RankResults(titleScores, docs, DefaultWeights);
      combined := content + title;
      trace := ContentThenTitle;
    } else {
      trace := ContentOnly;
    }
    var top := Finalize(combined);
    assert top == Retrieve(docs, contentScores, titleIndex(query));
    PublishedRecords(docs, contentScores, titleIndex(query));
    r := Success(Project(top));
  }
}
