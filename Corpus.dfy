/**
 * The corpus: flattening the topic -> articles grouping into one ordered
 * article list (each article stamped with its topic), and the derived
 * per-document columns (normalised title and content, their combination,
 * and the three normalised quality features).
 */
module Corpus {
  import opened Text
  import opened Normalizer

  /** One article record of the loaded collection. */
  datatype Article = Article(
    topic: string,
    title: string,
    content: string,
    link: string,
    totalWords: int,
    uniqueWordsPercentage: real,
    stopwordsPercentage: real)

  /** A topic and its articles, in the order the collection lists them. */
  type TopicGroup = (string, seq<Article>)

  /** The articles of one group, each with its topic set to `topic`. */
  function Stamped(articles: seq<Article>, topic: string): seq<Article> {
    seq(|articles|, i requires 0 <= i < |articles| => articles[i].(topic := topic))
  }

  /** The flattened article list: group after group, articles in group order. */
  function Flattened(groups: seq<TopicGroup>): seq<Article> {
    if groups == [] then []
    else
      var last := groups[|groups| - 1];
      Flattened(groups[..|groups| - 1]) + Stamped(last.1, last.0)
  }

  /** The number of articles over all groups. */
  function ArticleCount(groups: seq<TopicGroup>): nat {
    if groups == [] then 0
    else ArticleCount(groups[..|groups| - 1]) + |groups[|groups| - 1].1|
  }

  /** The flattening loop: visits the groups in order and appends each of
      their articles, stamped with the group's topic. */
  method FlattenTopics(groups: seq<TopicGroup>) returns (articles: seq<Article>)
    ensures articles == Flattened(groups)
  {
    articles := [];
    for g := 0 to |groups|
      invariant articles == Flattened(groups[..g])
    {
      var (topic, list) := groups[g];
      ghost var before := articles;
      for j := 0 to |list|
        invariant articles == before + Stamped(list[..j], topic)
      {
        articles := articles + [list[j].(topic := topic)];
        assert Stamped(list[..j + 1], topic) == Stamped(list[..j], topic) + [list[j].(topic := topic)];
      }
      assert list[..|list|] == list;
      assert groups[..g + 1][..g] == groups[..g];
    }
    assert groups[..|groups|] == groups;
  }

  lemma {:induction false} FlattenedLength(groups: seq<TopicGroup>)
    ensures |Flattened(groups)| == ArticleCount(groups)
  {
    if groups != [] {
      FlattenedLength(groups[..|groups| - 1]);
    }
  }

  /** Article `j` of group `g` sits, stamped with the group's topic, right
      after the articles of the groups before `g`. */
  lemma {:induction false} FlattenedAt(groups: seq<TopicGroup>, g: nat, j: nat)
    requires g < |groups| && j < |groups[g].1|
    ensures ArticleCount(groups[..g]) + j < |Flattened(groups)|
    ensures Flattened(groups)[ArticleCount(groups[..g]) + j] == groups[g].1[j].(topic := groups[g].0)
  {
    var init := groups[..|groups| - 1];
    FlattenedLength(groups);
    FlattenedLength(init);
    if g == |groups| - 1 {
      assert groups[..g] == init;
    } else {
      assert init[..g] == groups[..g];
      FlattenedAt(init, g, j);
    }
  }

  /** Every flattened article is an article of some group, stamped with that
      group's topic. */
  lemma {:induction false} FlattenedFromGroups(groups: seq<TopicGroup>, k: nat)
    requires k < |Flattened(groups)|
    ensures exists g, j :: 0 <= g < |groups| && 0 <= j < |groups[g].1| &&
                           Flattened(groups)[k] == groups[g].1[j].(topic := groups[g].0)
  {
    var init := groups[..|groups| - 1];
    var last := groups[|groups| - 1];
    if k < |Flattened(init)| {
      FlattenedFromGroups(init, k);
      var g, j :| 0 <= g < |init| && 0 <= j < |init[g].1| &&
                  Flattened(init)[k] == init[g].1[j].(topic := init[g].0);
      assert groups[g] == init[g];
    } else {
      var j := k - |Flattened(init)|;
      assert Flattened(groups)[k] == last.1[j].(topic := last.0);
    }
  }

  /** One row of the document table with its derived columns. */
  datatype Document = Document(
    article: Article,
    processedTitle: string,
    processedContent: string,
    combinedText: string,
    totalWordsNorm: real,
    uniqueWordsNorm: real,
    stopwordsNorm: real)

  /** The largest `totalWords` of a non-empty article list. */
  function MaxTotalWords(articles: seq<Article>): (m: int)
    requires articles != []
    ensures exists i :: 0 <= i < |articles| && articles[i].totalWords == m
    ensures forall i :: 0 <= i < |articles| ==> articles[i].totalWords <= m
  {
    if |articles| == 1 then articles[0].totalWords
    else
      var rest := MaxTotalWords(articles[1..]);
      if articles[0].totalWords >= rest then articles[0].totalWords else rest
  }

  /** The derived columns of one article, given the corpus-wide maximum
      word count. */
  function BuildDocument(a: Article, maxWords: int): Document
    requires maxWords > 0
  {
    var title := PreprocessText(a.title);
    var content := PreprocessText(a.content);
    Document(a, title, content, title + " " + content,
             a.totalWords as real / maxWords as real,
             a.uniqueWordsPercentage / 100.0,
             a.stopwordsPercentage / 100.0)
  }

  /** The document table built from the flattened articles, row for row. */
  function BuildCorpus(articles: seq<Article>): (docs: seq<Document>)
    requires articles != [] && MaxTotalWords(articles) > 0
    ensures |docs| == |articles|
    ensures forall i :: 0 <= i < |docs| ==> docs[i].article == articles[i]
  {
    var m := MaxTotalWords(articles);
    seq(|articles|, i requires 0 <= i < |articles| => BuildDocument(articles[i], m))
  }

  /** Well-formed input: non-negative word counts, percentages in [0, 100]. */
  predicate ValidArticle(a: Article) {
    a.totalWords >= 0
    && 0.0 <= a.uniqueWordsPercentage <= 100.0
    && 0.0 <= a.stopwordsPercentage <= 100.0
  }

  lemma QuotientAtMostOne(x: real, m: real)
    requires 0.0 <= x <= m && 0.0 < m
    ensures 0.0 <= x / m <= 1.0
  {
    assert x / m * m == x;
  }

  lemma QuotientMonotone(x: real, y: real, m: real)
    requires 0.0 < m
    ensures x <= y <==> x / m <= y / m
  {
    assert x / m * m == x && y / m * m == y;
  }

  lemma QuotientOfSelf(m: real)
    requires 0.0 < m
    ensures m / m == 1.0
  {
  }

  /** The normalised word count of row `i`. */
  lemma {:induction false} TotalWordsNormAt(articles: seq<Article>, i: nat)
    requires articles != [] && MaxTotalWords(articles) > 0
    requires i < |articles|
    ensures BuildCorpus(articles)[i].totalWordsNorm ==
            articles[i].totalWords as real / MaxTotalWords(articles) as real
  {
    CorpusRow(articles, i);
  }

  /** Row `i`'s percentage columns are its article's percentages divided
      by 100. */
  lemma {:induction false} PercentageColumnsAt(articles: seq<Article>, i: nat)
    requires articles != [] && MaxTotalWords(articles) > 0
    requires i < |articles|
    ensures var d := BuildCorpus(articles)[i];
            && d.uniqueWordsNorm == articles[i].uniqueWordsPercentage / 100.0
            && d.stopwordsNorm == articles[i].stopwordsPercentage / 100.0
  {
    CorpusRow(articles, i);
  }

  lemma {:induction false} CorpusRow(articles: seq<Article>, i: nat)
    requires articles != [] && MaxTotalWords(articles) > 0
    requires i < |articles|
    ensures BuildCorpus(articles)[i] == BuildDocument(articles[i], MaxTotalWords(articles))
  {
  }

  /** For well-formed input every normalised feature lies in [0, 1]. */
  lemma {:induction false} NormalisedFeaturesInRange(articles: seq<Article>)
    requires articles != [] && MaxTotalWords(articles) > 0
    requires forall a :: a in articles ==> ValidArticle(a)
    ensures forall d :: d in BuildCorpus(articles) ==>
              && 0.0 <= d.totalWordsNorm <= 1.0
              && 0.0 <= d.uniqueWordsNorm <= 1.0
              && 0.0 <= d.stopwordsNorm <= 1.0
  {
    var docs := BuildCorpus(articles);
    var m := MaxTotalWords(articles);
    forall d | d in docs
      ensures 0.0 <= d.totalWordsNorm <= 1.0
      ensures 0.0 <= d.uniqueWordsNorm <= 1.0
      ensures 0.0 <= d.stopwordsNorm <= 1.0
    {
      var i :| 0 <= i < |docs| && docs[i] == d;
      var a := articles[i];
      assert a in articles;
      TotalWordsNormAt(articles, i);
      QuotientAtMostOne(a.totalWords as real, m as real);
    }
  }

  /** A document with the largest word count has normalised word count 1. */
  lemma {:induction false} MaxDocumentAtOne(articles: seq<Article>)
    requires articles != [] && MaxTotalWords(articles) > 0
    ensures exists i :: 0 <= i < |articles| && BuildCorpus(articles)[i].totalWordsNorm == 1.0
  {
    var m := MaxTotalWords(articles);
    var i :| 0 <= i < |articles| && articles[i].totalWords == m;
    TotalWordsNormAt(articles, i);
    QuotientOfSelf(m as real);
  }

  /** Normalisation keeps the order of word counts, in both directions. */
  lemma TotalWordsNormKeepsOrder(a: Article, b: Article, maxWords: int)
    requires maxWords > 0
    ensures a.totalWords <= b.totalWords <==>
            BuildDocument(a, maxWords).totalWordsNorm <= BuildDocument(b, maxWords).totalWordsNorm
  {
    var x, y := a.totalWords as real, b.totalWords as real;
    QuotientMonotone(x, y, maxWords as real);
  }

  /** Row `i`'s processed title and content are its article's normalised
      title and content, clean and already at their fixed point, and the
      combined text joins them with one space. */
  lemma ProcessedColumns(articles: seq<Article>, i: nat)
    requires articles != [] && MaxTotalWords(articles) > 0
    requires i < |articles|
    ensures var d := BuildCorpus(articles)[i];
            && d.processedTitle == PreprocessText(articles[i].title)
            && d.processedContent == PreprocessText(articles[i].content)
            && IsCleanText(d.processedTitle) && IsCleanText(d.processedContent)
            && PreprocessText(d.processedTitle) == d.processedTitle
            && PreprocessText(d.processedContent) == d.processedContent
            && d.combinedText == d.processedTitle + " " + d.processedContent
  {
    CorpusRow(articles, i);
    PreprocessTextShape(articles[i].title);
    PreprocessTextShape(articles[i].content);
    PreprocessTextIdempotent(articles[i].title);
    PreprocessTextIdempotent(articles[i].content);
  }
}
