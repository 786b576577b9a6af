/**
 * The query rewriter: whole-token abbreviation expansion
 * (`expand_abbreviations`) and token-wise spelling correction
 * (`correct_spelling`) through a corrector that may have no suggestion.
 */
module Rewriter {
  import opened Wrappers
  import opened Text

  /** The fixed abbreviation dictionary. */
  const Abbreviations: map<string, string> := map[
    "ai" := "artificial intelligence",
    "ml" := "machine learning",
    "nn" := "neural network",
    "dl" := "deep learning",
    "nlg" := "natural language generation",
    "nlu" := "natural language understanding",
    "cv" := "computer vision",
    "nlp" := "natural language processing",
    "qml" := "quantum machine learning",
    "al" := "active learning",
    "cybersec" := "cybersecurity",
    "iot" := "internet of things",
    "cloudsec" := "cloud security",
    "cs" := "computer science",
    "ds" := "data science",
    "bd" := "big data"
  ]

  /** `abbreviations.get(word, word)`. */
  function ExpandWord(w: string): string {
    if w in Abbreviations then Abbreviations[w] else w
  }

  function ExpandedWords(ws: seq<string>): seq<string> {
    seq(|ws|, i requires 0 <= i < |ws| => ExpandWord(ws[i]))
  }

  /** `expand_abbreviations`. */
  function ExpandAbbreviations(query: string): string {
    Join(ExpandedWords(Split(query)))
  }

  /** Every expansion in the dictionary starts with a letter, so it holds at
      least one token. */
  lemma ExpansionsStartWithLetter()
    ensures forall k :: k in Abbreviations ==>
              Abbreviations[k] != [] && IsLowerLetter(Abbreviations[k][0])
  {
  }

  lemma {:induction false} ExpandWordHasTokens(w: string)
    requires IsWord(w)
    ensures |Split(ExpandWord(w))| >= 1
    ensures w !in Abbreviations ==> Split(ExpandWord(w)) == [w]
  {
    if w in Abbreviations {
      ExpansionsStartWithLetter();
    } else {
      SplitOfWord(w);
    }
  }

  /** The output tokens are, in order, the tokens of each input token's
      replacement: its expansion when it is an abbreviation, itself
      otherwise. */
  lemma ExpandAbbreviationsTokens(query: string)
    ensures Split(ExpandAbbreviations(query)) == SplitEach(ExpandedWords(Split(query)))
    ensures |ExpandedWords(Split(query))| == |Split(query)|
    ensures forall i :: 0 <= i < |Split(query)| ==>
              ExpandedWords(Split(query))[i] ==
                (if Split(query)[i] in Abbreviations then Abbreviations[Split(query)[i]] else Split(query)[i])
  {
    SplitJoin(ExpandedWords(Split(query)));
  }

  lemma {:induction false} SplitEachExpandedLength(ws: seq<string>)
    requires forall w :: w in ws ==> IsWord(w)
    ensures |SplitEach(ExpandedWords(ws))| >= |ws|
  {
    if ws != [] {
      assert ws[0] in ws;
      ExpandWordHasTokens(ws[0]);
      assert ExpandedWords(ws)[1..] == ExpandedWords(ws[1..]);
      SplitEachExpandedLength(ws[1..]);
    }
  }

  /** No token is dropped: the expanded query has at least as many tokens as
      the query. */
  lemma ExpandAbbreviationsKeepsTokenCount(query: string)
    ensures |Split(ExpandAbbreviations(query))| >= |Split(query)|
  {
    ExpandAbbreviationsTokens(query);
    SplitEachExpandedLength(Split(query));
  }

  lemma {:induction false} SplitEachExpandedPlain(ws: seq<string>)
    requires forall w :: w in ws ==> IsWord(w) && w !in Abbreviations
    ensures SplitEach(ExpandedWords(ws)) == ws
  {
    if ws != [] {
      assert ws[0] in ws;
      ExpandWordHasTokens(ws[0]);
      assert ExpandedWords(ws)[1..] == ExpandedWords(ws[1..]);
      SplitEachExpandedPlain(ws[1..]);
      assert ws == [ws[0]] + ws[1..];
    }
  }

  /** A query without abbreviations keeps its tokens unchanged. */
  lemma ExpandAbbreviationsWithoutAbbreviations(query: string)
    requires forall w :: w in Split(query) ==> w !in Abbreviations
    ensures Split(ExpandAbbreviations(query)) == Split(query)
  {
    ExpandAbbreviationsTokens(query);
    SplitEachExpandedPlain(Split(query));
  }

  /** The token `correct_spelling` emits for `w`: the corrector's suggestion,
      or `w` itself when there is none. */
  function Corrected(w: string, correct: string -> Option<string>): string {
    match correct(w)
    case Some(c) => c
    case None => w
  }

  function CorrectedWords(ws: seq<string>, correct: string -> Option<string>): seq<string> {
    seq(|ws|, i requires 0 <= i < |ws| => Corrected(ws[i], correct))
  }

  /** The string `correct_spelling` returns. */
  function CorrectedQuery(query: string, correct: string -> Option<string>): string {
    Join(CorrectedWords(Split(query), correct))
  }

  /** `correct_spelling`: builds the corrected token list one token at a
      time and joins it with single spaces. */
  method CorrectSpelling(query: string, correct: string -> Option<string>) returns (r: string)
    ensures r == CorrectedQuery(query, correct)
  {
    var words := Split(query);
    var corrected: seq<string> := [];
    for i := 0 to |words|
      invariant |corrected| == i
      invariant forall k :: 0 <= k < i ==> corrected[k] == Corrected(words[k], correct)
    {
      var correction := correct(words[i]);
      corrected := corrected + [if correction.Some? then correction.value else words[i]];
    }
    assert corrected == CorrectedWords(words, correct);
    r := Join(corrected);
  }

  /** When every suggestion is itself a single token, correction keeps the
      token count and order: token `i` of the result is the suggestion for
      token `i` of the query, or that token unchanged when there is no
      suggestion. */
  lemma CorrectedQueryTokens(query: string, correct: string -> Option<string>)
    requires forall w :: correct(w).Some? ==> IsWord(correct(w).value)
    ensures |Split(CorrectedQuery(query, correct))| == |Split(query)|
    ensures forall i :: 0 <= i < |Split(query)| ==>
              Split(CorrectedQuery(query, correct))[i] ==
                (if correct(Split(query)[i]).None? then Split(query)[i] else correct(Split(query)[i]).value)
  {
    var ws := CorrectedWords(Split(query), correct);
    forall w | w in ws ensures IsWord(w) {
      var i :| 0 <= i < |ws| && ws[i] == w;
      assert Split(query)[i] in Split(query);
    }
    SplitJoinWords(ws);
  }
}
