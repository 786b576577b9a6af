/**
 * The text normaliser `preprocess_text`: lower-case, delete every character
 * that is neither an ASCII letter nor whitespace, split on whitespace, drop
 * stopwords and re-join with single spaces.
 */
module Normalizer {
  import opened Text

  /** The fixed stopword set of the engine. */
  const Stopwords: set<string> := {
    "a", "an", "the", "and", "or", "in", "of", "to", "for", "with", "is",
    "on", "at", "as", "by", "this", "that", "it", "if", "from", "but", "are",
    "was", "were", "be", "been", "has", "have", "had", "do", "does", "did",
    "will", "would", "shall", "should", "can", "could", "may", "might", "must"
  }

  /** The regular-expression substitution that deletes every character
      outside `[a-zA-Z\s]`. */
  function KeepLettersAndSpaces(s: string): string {
    if s == [] then []
    else (if IsAsciiLetter(s[0]) || IsSpace(s[0]) then [s[0]] else []) + KeepLettersAndSpaces(s[1..])
  }

  /** The substitution keeps exactly the ASCII letters and whitespace, never
      lengthens the text, and changes nothing when there is nothing else. */
  lemma {:induction false} KeepLettersAndSpacesMembers(s: string)
    ensures |KeepLettersAndSpaces(s)| <= |s|
    ensures forall c :: c in KeepLettersAndSpaces(s) <==> c in s && (IsAsciiLetter(c) || IsSpace(c))
    ensures (forall i :: 0 <= i < |s| ==> IsAsciiLetter(s[i]) || IsSpace(s[i])) ==> KeepLettersAndSpaces(s) == s
  {
    if s != [] {
      assert s == [s[0]] + s[1..];
      KeepLettersAndSpacesMembers(s[1..]);
    }
  }

  /** The token list without the words of `stopwords`, order kept. */
  function DropStopwords(ws: seq<string>, stopwords: set<string>): seq<string> {
    if ws == [] then []
    else (if ws[0] in stopwords then [] else [ws[0]]) + DropStopwords(ws[1..], stopwords)
  }

  /** A token survives exactly when it was in the list and is no stopword;
      a list without stopwords is unchanged. */
  lemma {:induction false} DropStopwordsMembers(ws: seq<string>, stopwords: set<string>)
    ensures forall w :: w in DropStopwords(ws, stopwords) <==> w in ws && w !in stopwords
    ensures (forall w :: w in ws ==> w !in stopwords) ==> DropStopwords(ws, stopwords) == ws
  {
    if ws != [] {
      assert ws == [ws[0]] + ws[1..];
      DropStopwordsMembers(ws[1..], stopwords);
    }
  }

  /** The substitution works character by character, in order: it
      distributes over concatenation. */
  lemma {:induction false} KeepLettersAndSpacesAppend(a: string, b: string)
    ensures KeepLettersAndSpaces(a + b) == KeepLettersAndSpaces(a) + KeepLettersAndSpaces(b)
    decreases |a|
  {
    if a == [] {
      assert a + b == b;
    } else {
      assert a + b == [a[0]] + (a[1..] + b);
      KeepLettersAndSpacesAppend(a[1..], b);
      KeepLettersAndSpacesUnfold([a[0]] + (a[1..] + b));
      KeepLettersAndSpacesUnfold(a);
    }
  }

  lemma {:induction false} KeepLettersAndSpacesUnfold(s: string)
    requires s != []
    ensures KeepLettersAndSpaces(s) == KeepLettersAndSpaces([s[0]]) + KeepLettersAndSpaces(s[1..])
  {
    assert [s[0]][1..] == [];
  }

  /** A single character is kept exactly when it is an ASCII letter or
      whitespace. */
  lemma {:induction false} KeepLettersAndSpacesOfChar(c: char)
    ensures KeepLettersAndSpaces([c]) == if IsAsciiLetter(c) || IsSpace(c) then [c] else []
  {
    assert [c][1..] == [];
  }

  /** Stopword removal works token by token, in order: it distributes over
      concatenation. */
  lemma {:induction false} DropStopwordsAppend(a: seq<string>, b: seq<string>, stopwords: set<string>)
    ensures DropStopwords(a + b, stopwords) == DropStopwords(a, stopwords) + DropStopwords(b, stopwords)
    decreases |a|
  {
    if a == [] {
      assert a + b == b;
    } else {
      assert a + b == [a[0]] + (a[1..] + b);
      DropStopwordsAppend(a[1..], b, stopwords);
      DropStopwordsUnfold([a[0]] + (a[1..] + b), stopwords);
      DropStopwordsUnfold(a, stopwords);
    }
  }

  lemma {:induction false} DropStopwordsUnfold(ws: seq<string>, stopwords: set<string>)
    requires ws != []
    ensures DropStopwords(ws, stopwords) == DropStopwords([ws[0]], stopwords) + DropStopwords(ws[1..], stopwords)
  {
    assert [ws[0]][1..] == [];
  }

  /** A single token is kept exactly when it is no stopword. */
  lemma {:induction false} DropStopwordsOfWord(w: string, stopwords: set<string>)
    ensures DropStopwords([w], stopwords) == if w in stopwords then [] else [w]
  {
    assert [w][1..] == [];
  }

  /** The tokens `preprocess_text` keeps, before they are re-joined. */
  function SurvivingTokens(text: string): seq<string> {
    DropStopwords(Split(KeepLettersAndSpaces(Lower(text))), Stopwords)
  }

  /** `preprocess_text`. */
  function PreprocessText(text: string): string {
    Join(SurvivingTokens(text))
  }

  /** Every surviving token is a lower-case ASCII word and no stopword. */
  lemma SurvivingTokensAreLowerWords(text: string)
    ensures forall w :: w in SurvivingTokens(text) ==> IsLowerWord(w) && w !in Stopwords
  {
    var kept := KeepLettersAndSpaces(Lower(text));
    LowerHasNoUpper(text);
    KeepLettersAndSpacesMembers(Lower(text));
    DropStopwordsMembers(Split(kept), Stopwords);
    forall w | w in SurvivingTokens(text) ensures IsLowerWord(w) {
      assert w in Split(kept);
      forall i | 0 <= i < |w| ensures IsLowerLetter(w[i]) {
        assert w[i] in w;
      }
    }
  }

  /** The output is clean text (lower-case ASCII words, single spaces, no
      space at either end), its tokens are exactly the surviving tokens and
      none of them is a stopword. */
  lemma PreprocessTextShape(text: string)
    ensures IsCleanText(PreprocessText(text))
    ensures Split(PreprocessText(text)) == SurvivingTokens(text)
    ensures forall w :: w in Split(PreprocessText(text)) ==> IsLowerWord(w) && w !in Stopwords
  {
    var ws := SurvivingTokens(text);
    SurvivingTokensAreLowerWords(text);
    JoinLowerWordsIsClean(ws);
    SplitJoinWords(ws);
  }

  /** Normalising a clean list of non-stopword words joined by spaces is a
      no-op. */
  lemma {:induction false} PreprocessJoinedWords(ws: seq<string>)
    requires forall w :: w in ws ==> IsLowerWord(w) && w !in Stopwords
    ensures PreprocessText(Join(ws)) == Join(ws)
  {
    var s := Join(ws);
    JoinLowerWordsIsClean(ws);
    CleanTextHasNoOtherChars(s);
    LowerKeepsNonUpper(s);
    KeepLettersAndSpacesMembers(s);
    assert KeepLettersAndSpaces(Lower(s)) == s;
    SplitJoinWords(ws);
    DropStopwordsMembers(ws, Stopwords);
  }

  /** Normalisation is idempotent. */
  lemma PreprocessTextIdempotent(text: string)
    ensures PreprocessText(PreprocessText(text)) == PreprocessText(text)
  {
    SurvivingTokensAreLowerWords(text);
    PreprocessJoinedWords(SurvivingTokens(text));
  }

  /** Text without letters normalises to the empty string. */
  lemma PreprocessTextWithoutLetters(text: string)
    requires forall i :: 0 <= i < |text| ==> !IsAsciiLetter(text[i])
    ensures PreprocessText(text) == ""
  {
    var kept := KeepLettersAndSpaces(Lower(text));
    KeepLettersAndSpacesMembers(Lower(text));
    forall i | 0 <= i < |kept| ensures IsSpace(kept[i]) {
      assert kept[i] in kept;
      assert kept[i] in Lower(text);
    }
    SplitOfBlank(kept);
  }
}
