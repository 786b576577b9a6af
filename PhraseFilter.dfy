/**
 * The phrase pre-filter `prioritize_phrase_matching`: when the query holds
 * double-quoted phrases, the rows whose processed title contains the first
 * phrase that matches anything (case-insensitively) are returned; otherwise
 * the whole corpus is returned. The retrieval path never calls it.
 */
module PhraseFilter {
  import opened Wrappers
  import opened Text
  import opened Corpus

  /** `r` is `s` with some elements left out, order kept. */
  predicate IsSubsequence<T(==)>(r: seq<T>, s: seq<T>)
    decreases |s|
  {
    if r == [] then true
    else if s == [] then false
    else (r[0] == s[0] && IsSubsequence(r[1..], s[1..])) || IsSubsequence(r, s[1..])
  }

  /** Where the quote that closes a phrase lies, for a phrase whose opening
      quote stands just before `s`: the first `"` of `s`, provided no line
      break comes before it (the pattern's `.` does not match a line break). */
  function ClosingQuote(s: string): (k: Option<nat>)
    ensures k.Some? ==> k.value < |s| && s[k.value] == '"'
    ensures k.Some? ==> forall i :: 0 <= i < k.value ==> s[i] != '"' && s[i] != '\n'
    ensures k.None? ==> forall i :: 0 <= i < |s| && s[i] == '"' ==> '\n' in s[..i]
  {
    if s == [] then None
    else if s[0] == '"' then Some(0)
    else if s[0] == '\n' then None
    else
      match ClosingQuote(s[1..])
      case Some(k) => Some(k + 1)
      case None =>
        assert forall i :: 1 <= i <= |s| ==> s[1..][..i - 1] == s[1..i];
        None
  }

  /** `re.findall(r'"(.*?)"', query)`: scanning left to right, a `"` with a
      closing quote later on the same line opens a phrase, which runs to that
      closing quote; scanning resumes after it. A `"` without one is skipped. */
  function ExtractPhrases(s: string): (phrases: seq<string>)
    ensures forall p :: p in phrases ==> '"' !in p && '\n' !in p
    ensures '"' !in s ==> phrases == []
    decreases |s|
  {
    if s == [] then []
    else if s[0] != '"' then ExtractPhrases(s[1..])
    else
      match ClosingQuote(s[1..])
      case Some(k) =>
        var p := s[1..1 + k];
        assert forall i :: 0 <= i < |p| ==> p[i] == s[1..][i];
        [p] + ExtractPhrases(s[k + 2..])
      case None => ExtractPhrases(s[1..])
  }

  /** A phrase without quotes or line breaks is closed by the quote right
      after it. */
  lemma {:induction false} ClosingQuoteAfter(p: string, rest: string)
    requires '"' !in p && '\n' !in p
    ensures ClosingQuote(p + ['"'] + rest) == Some(|p|)
    decreases |p|
  {
    var s := p + ['"'] + rest;
    if p == [] {
      assert s[0] == '"';
    } else {
      assert p[0] in p;
      assert s[0] == p[0];
      assert s[1..] == p[1..] + ['"'] + rest;
      assert forall c :: c in p[1..] ==> c in p;
      ClosingQuoteAfter(p[1..], rest);
    }
  }

  /** `findall` pairs quotes from the left: after quote-free text, a quoted
      phrase without line breaks is extracted, and scanning resumes right
      after its closing quote. */
  lemma {:induction false} ExtractPhrasesPairsQuotes(a: string, p: string, b: string)
    requires '"' !in a && '"' !in p && '\n' !in p
    ensures ExtractPhrases(a + ['"'] + p + ['"'] + b) == [p] + ExtractPhrases(b)
    decreases |a|
  {
    var s := a + ['"'] + p + ['"'] + b;
    if a == [] {
      assert s[0] == '"';
      assert s[1..] == p + ['"'] + b;
      ClosingQuoteAfter(p, b);
      assert s[1..1 + |p|] == p;
      assert s[|p| + 2..] == b;
    } else {
      assert a[0] in a;
      assert s[0] == a[0];
      assert s[1..] == a[1..] + ['"'] + p + ['"'] + b;
      assert forall c :: c in a[1..] ==> c in a;
      ExtractPhrasesPairsQuotes(a[1..], p, b);
    }
  }

  /** No quote closes a phrase when the line ends before any quote does. */
  lemma {:induction false} ClosingQuoteMissing(p: string, rest: string)
    requires '"' !in p && (rest == [] || rest[0] == '\n')
    ensures ClosingQuote(p + rest) == None
    decreases |p|
  {
    var s := p + rest;
    if p == [] {
      assert s == rest;
    } else {
      assert p[0] in p;
      assert s[0] == p[0];
      assert s[1..] == p[1..] + rest;
      assert forall c :: c in p[1..] ==> c in p;
      ClosingQuoteMissing(p[1..], rest);
    }
  }

  /** `findall` skips a quote that is not closed on its line: after
      quote-free text, such a quote opens no phrase, and scanning resumes
      right after it. */
  lemma {:induction false} ExtractPhrasesSkipsUnclosed(a: string, p: string, rest: string)
    requires '"' !in a && '"' !in p && (rest == [] || rest[0] == '\n')
    ensures ExtractPhrases(a + ['"'] + p + rest) == ExtractPhrases(p + rest)
    decreases |a|
  {
    var s := a + ['"'] + p + rest;
    if a == [] {
      assert s[0] == '"';
      assert s[1..] == p + rest;
      ClosingQuoteMissing(p, rest);
    } else {
      assert a[0] in a;
      assert s[0] == a[0];
      assert s[1..] == a[1..] + ['"'] + p + rest;
      assert forall c :: c in a[1..] ==> c in a;
      ExtractPhrasesSkipsUnclosed(a[1..], p, rest);
    }
  }

  /** Every extracted phrase stands between two quotes in the query. */
  lemma {:induction false} PhrasesAreQuoted(s: string)
    ensures forall p :: p in ExtractPhrases(s) ==> exists k :: OccursAt(s, ['"'] + p + ['"'], k)
    decreases |s|
  {
    if s == [] {
    } else if s[0] != '"' {
      PhrasesAreQuoted(s[1..]);
      ShiftOccurrences(s, 1, ExtractPhrases(s[1..]));
    } else {
      match ClosingQuote(s[1..])
      case Some(k) =>
        var p := s[1..1 + k];
        assert s[0..|p| + 2] == ['"'] + p + ['"'];
        assert OccursAt(s, ['"'] + p + ['"'], 0);
        PhrasesAreQuoted(s[k + 2..]);
        ShiftOccurrences(s, k + 2, ExtractPhrases(s[k + 2..]));
      case None =>
        PhrasesAreQuoted(s[1..]);
        ShiftOccurrences(s, 1, ExtractPhrases(s[1..]));
    }
  }

  lemma ShiftOccurrences(s: string, n: nat, ps: seq<string>)
    requires n <= |s|
    requires forall p :: p in ps ==> exists k :: OccursAt(s[n..], ['"'] + p + ['"'], k)
    ensures forall p :: p in ps ==> exists k :: OccursAt(s, ['"'] + p + ['"'], k)
  {
    forall p | p in ps ensures exists k :: OccursAt(s, ['"'] + p + ['"'], k) {
      var q := ['"'] + p + ['"'];
      var k :| OccursAt(s[n..], q, k);
      assert s[n..][k..k + |q|] == s[n + k..n + k + |q|];
      assert OccursAt(s, q, n + k);
    }
  }

  /** `str.contains(re.escape(phrase), case=False)` on the processed title:
      literal containment, ASCII letters compared without case. */
  predicate TitleContains(d: Document, phrase: string) {
    ContainsSubstring(Lower(d.processedTitle), Lower(phrase))
  }

  /** The rows whose processed title contains `phrase`, in corpus order. */
  function MatchingRows(docs: seq<Document>, phrase: string): (r: seq<Document>)
    ensures forall d :: d in r <==> d in docs && TitleContains(d, phrase)
    ensures IsSubsequence(r, docs)
  {
    if docs == [] then []
    else
      assert docs == [docs[0]] + docs[1..];
      if TitleContains(docs[0], phrase) then
        var rest := MatchingRows(docs[1..], phrase);
        assert ([docs[0]] + rest)[1..] == rest;
        [docs[0]] + rest
      else MatchingRows(docs[1..], phrase)
  }

  /** The selection works row by row, in order: it distributes over
      concatenation, so every matching row is kept as often as it occurs. */
  lemma {:induction false} MatchingRowsAppend(a: seq<Document>, b: seq<Document>, phrase: string)
    ensures MatchingRows(a + b, phrase) == MatchingRows(a, phrase) + MatchingRows(b, phrase)
    decreases |a|
  {
    if a == [] {
      assert a + b == b;
    } else {
      var ab := a + b;
      assert ab[0] == a[0] && ab[1..] == a[1..] + b;
      MatchingRowsAppend(a[1..], b, phrase);
    }
  }

  /** A single row is kept exactly when its title contains the phrase. */
  lemma MatchingRowsOfRow(d: Document, phrase: string)
    ensures MatchingRows([d], phrase) == if TitleContains(d, phrase) then [d] else []
  {
    assert [d][1..] == [];
  }

  /** The rows of the first phrase, in order, that selects any row; the whole
      corpus when none does. */
  function FirstPhraseMatch(phrases: seq<string>, docs: seq<Document>): seq<Document> {
    if phrases == [] then docs
    else
      var m := MatchingRows(docs, phrases[0]);
      if m != [] then m else FirstPhraseMatch(phrases[1..], docs)
  }

  /** `prioritize_phrase_matching`. */
  function PrioritizePhraseMatching(query: string, docs: seq<Document>): (r: seq<Document>)
    ensures '"' !in query ==> r == docs
  {
    if '"' in query then FirstPhraseMatch(ExtractPhrases(query), docs) else docs
  }

  lemma {:induction false} FirstPhraseMatchShape(phrases: seq<string>, docs: seq<Document>)
    ensures var r := FirstPhraseMatch(phrases, docs);
            || r == docs
            || (&& r != [] && IsSubsequence(r, docs)
                && exists p :: p in phrases && forall d :: d in r ==> TitleContains(d, p))
  {
    if phrases != [] && MatchingRows(docs, phrases[0]) == [] {
      FirstPhraseMatchShape(phrases[1..], docs);
      var r := FirstPhraseMatch(phrases, docs);
      if r != docs {
        var p :| p in phrases[1..] && forall d :: d in r ==> TitleContains(d, p);
        assert p in phrases;
      }
    } else if phrases != [] {
      assert phrases[0] in phrases;
    }
  }

  /** The result is the whole corpus, or a non-empty, order-preserving
      selection of it whose every row contains one extracted phrase. */
  lemma PrioritizePhraseMatchingShape(query: string, docs: seq<Document>)
    ensures var r := PrioritizePhraseMatching(query, docs);
            || r == docs
            || (&& r != [] && IsSubsequence(r, docs)
                && exists p :: p in ExtractPhrases(query) && forall d :: d in r ==> TitleContains(d, p))
  {
    if '"' in query {
      var ps := ExtractPhrases(query);
      FirstPhraseMatchShape(ps, docs);
      var r := FirstPhraseMatch(ps, docs);
      assert PrioritizePhraseMatching(query, docs) == r;
      if r != docs {
        var p :| p in ps && forall d :: d in r ==> TitleContains(d, p);
        assert r != [] && IsSubsequence(r, docs);
        assert exists p :: p in ExtractPhrases(query) && forall d :: d in r ==> TitleContains(d, p);
      }
    }
  }

  lemma {:induction false} FirstPhraseMatchNone(phrases: seq<string>, docs: seq<Document>)
    requires forall p :: p in phrases ==> MatchingRows(docs, p) == []
    ensures FirstPhraseMatch(phrases, docs) == docs
  {
    if phrases != [] {
      assert phrases[0] in phrases;
      FirstPhraseMatchNone(phrases[1..], docs);
    }
  }

  lemma {:induction false} FirstPhraseMatchSome(phrases: seq<string>, docs: seq<Document>, i: nat)
    requires i < |phrases| && MatchingRows(docs, phrases[i]) != []
    requires forall j :: 0 <= j < i ==> MatchingRows(docs, phrases[j]) == []
    ensures FirstPhraseMatch(phrases, docs) == MatchingRows(docs, phrases[i])
  {
    if i > 0 {
      FirstPhraseMatchSome(phrases[1..], docs, i - 1);
    }
  }

  /** When no phrase selects a row the corpus comes back whole; when phrase
      `i` is the first that selects rows, exactly its rows come back. */
  lemma PrioritizePhraseMatchingChoice(query: string, docs: seq<Document>)
    ensures (forall p :: p in ExtractPhrases(query) ==> MatchingRows(docs, p) == []) ==>
              PrioritizePhraseMatching(query, docs) == docs
    ensures forall i :: 0 <= i < |ExtractPhrases(query)| && MatchingRows(docs, ExtractPhrases(query)[i]) != []
                        && (forall j :: 0 <= j < i ==> MatchingRows(docs, ExtractPhrases(query)[j]) == []) ==>
              PrioritizePhraseMatching(query, docs) == MatchingRows(docs, ExtractPhrases(query)[i])
  {
    var ps := ExtractPhrases(query);
    if forall p :: p in ps ==> MatchingRows(docs, p) == [] {
      FirstPhraseMatchNone(ps, docs);
    }
    forall i | 0 <= i < |ps| && MatchingRows(docs, ps[i]) != []
               && (forall j :: 0 <= j < i ==> MatchingRows(docs, ps[j]) == [])
      ensures PrioritizePhraseMatching(query, docs) == MatchingRows(docs, ps[i])
    {
      FirstPhraseMatchSome(ps, docs, i);
      assert ps[i] in ps;
    }
  }
}
