/**
 * The ranker `rank_results`: attach a similarity to every document, blend it
 * with the normalised quality features into an adjusted score, and order the
 * rows by descending (adjusted score, similarity).
 */
module Ranker {
  import opened Corpus

  /** Weights of the four ranking signals. */
  datatype Weights = Weights(similarity: real, totalWords: real, uniqueWords: real, stopwords: real)

  /** The engine's fixed weights. */
  const DefaultWeights := Weights(0.5, 0.2, 0.2, 0.1)

  /** A document with the two columns ranking adds. */
  datatype Row = Row(doc: Document, similarity: real, adjustedScore: real)

  /** The blended score; the stopword feature counts inverted. */
  function AdjustedScore(w: Weights, sim: real, d: Document): real {
    w.similarity * sim
    + w.totalWords * d.totalWordsNorm
    + w.uniqueWords * d.uniqueWordsNorm
    + w.stopwords * (1.0 - d.stopwordsNorm)
  }

  predicate UnitInterval(x: real) {
    0.0 <= x <= 1.0
  }

  /** With the engine's weights and every signal in [0, 1], the adjusted
      score is in [0, 1] too. */
  lemma AdjustedScoreInUnitInterval(sim: real, d: Document)
    requires UnitInterval(sim) && UnitInterval(d.totalWordsNorm)
    requires UnitInterval(d.uniqueWordsNorm) && UnitInterval(d.stopwordsNorm)
    ensures UnitInterval(AdjustedScore(DefaultWeights, sim, d))
  {
  }

  /** With the engine's weights, for a fixed document a higher similarity
      gives a higher score and a lower one a lower score. */
  lemma AdjustedScoreMonotone(s1: real, s2: real, d: Document)
    ensures s1 <= s2 <==> AdjustedScore(DefaultWeights, s1, d) <= AdjustedScore(DefaultWeights, s2, d)
    ensures s1 < s2 <==> AdjustedScore(DefaultWeights, s1, d) < AdjustedScore(DefaultWeights, s2, d)
  {
  }

  /** The two orders the engine sorts by. */
  datatype Order = ByScoreThenSimilarity | ByScore

  /** `a` may stand before `b` in a descending sort under order `o`. */
  predicate Precedes(o: Order, a: Row, b: Row) {
    match o
    case ByScoreThenSimilarity =>
      a.adjustedScore > b.adjustedScore
      || (a.adjustedScore == b.adjustedScore && a.similarity >= b.similarity)
    case ByScore => a.adjustedScore >= b.adjustedScore
  }

  /** Adjacent rows never increase under `o`. */
  predicate Sorted(o: Order, rows: seq<Row>) {
    forall i :: 0 <= i < |rows| - 1 ==> Precedes(o, rows[i], rows[i + 1])
  }

  lemma PrecedesTransitive(o: Order, a: Row, b: Row, c: Row)
    requires Precedes(o, a, b) && Precedes(o, b, c)
    ensures Precedes(o, a, c)
  {
  }

  /** Adjacent order extends to every pair. */
  lemma {:induction false} SortedPairwise(o: Order, rows: seq<Row>)
    requires Sorted(o, rows)
    ensures forall i, j :: 0 <= i < j < |rows| ==> Precedes(o, rows[i], rows[j])
  {
    if rows != [] {
      var tail := rows[1..];
      assert Sorted(o, tail) by {
        forall i | 0 <= i < |tail| - 1 ensures Precedes(o, tail[i], tail[i + 1]) {
          assert tail[i] == rows[i + 1] && tail[i + 1] == rows[i + 2];
        }
      }
      SortedPairwise(o, tail);
      forall i, j | 0 <= i < j < |rows| ensures Precedes(o, rows[i], rows[j]) {
        if i == 0 && j > 1 {
          assert rows[1] == tail[0] && rows[j] == tail[j - 1];
          PrecedesTransitive(o, rows[0], rows[1], rows[j]);
        } else if i > 0 {
          assert rows[i] == tail[i - 1] && rows[j] == tail[j - 1];
        }
      }
    }
  }

  /** Every prefix of a sorted sequence is sorted. */
  lemma SortedPrefix(o: Order, rows: seq<Row>, n: nat)
    requires Sorted(o, rows) && n <= |rows|
    ensures Sorted(o, rows[..n])
  {
  }

  /** Inserts `x` into sorted `rows` before the first row it may precede. */
  function Insert(o: Order, x: Row, rows: seq<Row>): (r: seq<Row>)
    requires Sorted(o, rows)
    ensures Sorted(o, r)
    ensures multiset(r) == multiset(rows) + multiset{x}
    ensures r[0] == x || (rows != [] && r[0] == rows[0])
  {
    if rows == [] then [x]
    else if Precedes(o, x, rows[0]) then [x] + rows
    else
      assert rows == [rows[0]] + rows[1..];
      [rows[0]] + Insert(o, x, rows[1..])
  }

  /** Insertion sort under `o`: a sorted permutation of `rows`. */
  function SortRows(o: Order, rows: seq<Row>): (r: seq<Row>)
    ensures Sorted(o, r)
    ensures multiset(r) == multiset(rows)
  {
    if rows == [] then []
    else
      assert rows == [rows[0]] + rows[1..];
      Insert(o, rows[0], SortRows(o, rows[1..]))
  }

  /** The rows whose key is (`score`, `sim`), in their order in `rows`. */
  function TiedRows(rows: seq<Row>, score: real, sim: real): seq<Row> {
    if rows == [] then []
    else
      (if rows[0].adjustedScore == score && rows[0].similarity == sim then [rows[0]] else [])
      + TiedRows(rows[1..], score, sim)
  }

  lemma {:induction false} TiedRowsCons(x: Row, rows: seq<Row>, score: real, sim: real)
    ensures TiedRows([x] + rows, score, sim) == TiedRows([x], score, sim) + TiedRows(rows, score, sim)
  {
    var r := [x] + rows;
    assert r[0] == x && r[1..] == rows;
  }

  /** Inserting `x` puts it before every row it ties with on both keys. */
  lemma {:induction false} InsertTiedRows(x: Row, rows: seq<Row>, score: real, sim: real)
    requires Sorted(ByScoreThenSimilarity, rows)
    ensures TiedRows(Insert(ByScoreThenSimilarity, x, rows), score, sim)
            == TiedRows([x], score, sim) + TiedRows(rows, score, sim)
    decreases |rows|
  {
    var o := ByScoreThenSimilarity;
    if rows == [] {
    } else if Precedes(o, x, rows[0]) {
      TiedRowsCons(x, rows, score, sim);
    } else {
      var head, tail := rows[0], rows[1..];
      assert rows == [head] + tail;
      InsertTiedRows(x, tail, score, sim);
      TiedRowsCons(head, Insert(o, x, tail), score, sim);
      TiedRowsCons(head, tail, score, sim);
      assert TiedRows([head], score, sim) == [] || TiedRows([x], score, sim) == [];
    }
  }

  /** The sort under (adjusted score, similarity) is stable: rows equal on
      both keys keep their relative order. */
  lemma {:induction false} SortRowsKeepsTieOrder(rows: seq<Row>, score: real, sim: real)
    ensures TiedRows(SortRows(ByScoreThenSimilarity, rows), score, sim) == TiedRows(rows, score, sim)
  {
    if rows != [] {
      var tail := rows[1..];
      assert rows == [rows[0]] + tail;
      SortRowsKeepsTieOrder(tail, score, sim);
      InsertTiedRows(rows[0], SortRows(ByScoreThenSimilarity, tail), score, sim);
      TiedRowsCons(rows[0], tail, score, sim);
    }
  }

  /** The rows before sorting: document `i` with score `i` and its adjusted
      score. */
  function Scored(scores: seq<real>, docs: seq<Document>, w: Weights): (rows: seq<Row>)
    requires |scores| == |docs|
  {
    seq(|docs|, i requires 0 <= i < |docs| => Row(docs[i], scores[i], AdjustedScore(w, scores[i], docs[i])))
  }

  /** `rank_results`: every document with its score, in descending
      (adjusted score, similarity) order. */
  function RankResults(scores: seq<real>, docs: seq<Document>, w: Weights): (r: seq<Row>)
    requires |scores| == |docs|
    ensures Sorted(ByScoreThenSimilarity, r)
    ensures multiset(r) == multiset(Scored(scores, docs, w))
  {
    SortRows(ByScoreThenSimilarity, Scored(scores, docs, w))
  }

  /** Documents equal on both adjusted score and similarity keep corpus
      order in the ranking. */
  lemma RankResultsKeepsTieOrder(scores: seq<real>, docs: seq<Document>, w: Weights, score: real, sim: real)
    requires |scores| == |docs|
    ensures TiedRows(RankResults(scores, docs, w), score, sim) == TiedRows(Scored(scores, docs, w), score, sim)
  {
    SortRowsKeepsTieOrder(Scored(scores, docs, w), score, sim);
  }

  /** The ranked rows are exactly the corpus rows with their scores: every
      ranked row is some document `i` with score `i`, and every document
      appears. */
  lemma RankResultsRows(scores: seq<real>, docs: seq<Document>, w: Weights)
    requires |scores| == |docs|
    ensures |RankResults(scores, docs, w)| == |docs|
    ensures forall row :: row in RankResults(scores, docs, w) ==>
              exists i :: 0 <= i < |docs| && row.doc == docs[i] && row.similarity == scores[i]
                       && row.adjustedScore == AdjustedScore(w, scores[i], docs[i])
    ensures forall i :: 0 <= i < |docs| ==>
              Row(docs[i], scores[i], AdjustedScore(w, scores[i], docs[i])) in RankResults(scores, docs, w)
  {
    var r, s := RankResults(scores, docs, w), Scored(scores, docs, w);
    assert |r| == |multiset(r)| == |multiset(s)| == |s|;
    forall row | row in r
      ensures exists i :: 0 <= i < |docs| && row.doc == docs[i] && row.similarity == scores[i]
                       && row.adjustedScore == AdjustedScore(w, scores[i], docs[i])
    {
      assert row in multiset(s);
      var i :| 0 <= i < |s| && s[i] == row;
    }
    forall i | 0 <= i < |docs|
      ensures Row(docs[i], scores[i], AdjustedScore(w, scores[i], docs[i])) in r
    {
      assert s[i] in multiset(r);
    }
  }
}
