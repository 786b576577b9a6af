/**
 * Character classes and the whitespace-based string operations the engine
 * relies on: ASCII lower-casing, `str.strip()`, `str.split()` with no
 * separator and `' '.join(...)`.
 */
module Text {

  /** Whitespace as Python's `str.isspace()` and the regular-expression class
      `\s` both see it, restricted to ASCII. */
  predicate IsSpace(c: char) {
    c == ' ' || c == '\t' || c == '\n' || c == '\r' || c == '\U{B}' || c == '\U{C}'
    || ('\U{1C}' <= c <= '\U{1F}')
  }

  predicate IsAsciiLetter(c: char) {
    'a' <= c <= 'z' || 'A' <= c <= 'Z'
  }

  predicate IsUpperLetter(c: char) {
    'A' <= c <= 'Z'
  }

  predicate IsLowerLetter(c: char) {
    'a' <= c <= 'z'
  }

  /** `str.lower()` on one character, ASCII only. */
  function LowerChar(c: char): (d: char)
    ensures !IsUpperLetter(d)
    ensures IsUpperLetter(c) ==> IsLowerLetter(d) && d as int == c as int + 32
    ensures !IsUpperLetter(c) ==> d == c
  {
    if IsUpperLetter(c) then (c as int + 32) as char else c
  }

  function Lower(s: string): string {
    seq(|s|, i requires 0 <= i < |s| => LowerChar(s[i]))
  }

  lemma LowerHasNoUpper(s: string)
    ensures forall c :: c in Lower(s) ==> !IsUpperLetter(c)
  {
  }

  lemma LowerKeepsNonUpper(s: string)
    requires forall i :: 0 <= i < |s| ==> !IsUpperLetter(s[i])
    ensures Lower(s) == s
  {
  }

  /** Number of whitespace characters at the start of `s`. */
  function LeadingSpaces(s: string): (k: nat)
    ensures k <= |s|
    ensures forall i :: 0 <= i < k ==> IsSpace(s[i])
    ensures k < |s| ==> !IsSpace(s[k])
  {
    if s != [] && IsSpace(s[0]) then 1 + LeadingSpaces(s[1..]) else 0
  }

  /** Number of whitespace characters at the end of `s`. */
  function TrailingSpaces(s: string): (k: nat)
    ensures k <= |s|
    ensures forall i :: |s| - k <= i < |s| ==> IsSpace(s[i])
    ensures k < |s| ==> !IsSpace(s[|s| - 1 - k])
  {
    if s != [] && IsSpace(s[|s| - 1]) then 1 + TrailingSpaces(s[..|s| - 1]) else 0
  }

  /** `r` occurs in `s` starting at index `k`. */
  predicate OccursAt(s: string, r: string, k: int) {
    0 <= k && k + |r| <= |s| && s[k..k + |r|] == r
  }

  /** `str.strip()`: `s` without its leading and trailing whitespace. */
  function Strip(s: string): (r: string)
    ensures r == [] <==> forall i :: 0 <= i < |s| ==> IsSpace(s[i])
    ensures r != [] ==> !IsSpace(r[0]) && !IsSpace(r[|r| - 1])
    ensures exists k :: OccursAt(s, r, k) && (forall i :: 0 <= i < k ==> IsSpace(s[i]))
                        && (forall i :: k + |r| <= i < |s| ==> IsSpace(s[i]))
  {
    var a := LeadingSpaces(s);
    var b := TrailingSpaces(s[a..]);
    StripBounds(s, a, b);
    s[a..|s| - b]
  }

  lemma StripBounds(s: string, a: nat, b: nat)
    requires a == LeadingSpaces(s) && b == TrailingSpaces(s[a..])
    ensures a <= |s| - b
    ensures var r := s[a..|s| - b];
            && (r == [] <==> forall i :: 0 <= i < |s| ==> IsSpace(s[i]))
            && (r != [] ==> !IsSpace(r[0]) && !IsSpace(r[|r| - 1]))
            && OccursAt(s, r, a)
            && (forall i :: 0 <= i < a ==> IsSpace(s[i]))
            && (forall i :: a + |r| <= i < |s| ==> IsSpace(s[i]))
  {
    var t := s[a..];
    var r := s[a..|s| - b];
    if a < |s| {
      assert t[0] == s[a];
      assert b < |t|;
      assert r[0] == s[a];
      assert r[|r| - 1] == t[|t| - 1 - b];
    }
    assert s[a..a + |r|] == r;
    forall i | a + |r| <= i < |s| ensures IsSpace(s[i]) {
      assert s[i] == t[i - a];
    }
  }

  /** A token as `str.split()` produces it: non-empty, no whitespace. */
  predicate IsWord(w: string) {
    w != [] && forall i :: 0 <= i < |w| ==> !IsSpace(w[i])
  }

  /** A non-empty token of lower-case ASCII letters only. */
  predicate IsLowerWord(w: string) {
    w != [] && forall i :: 0 <= i < |w| ==> IsLowerLetter(w[i])
  }

  /** Length of the longest whitespace-free prefix of `s`. */
  function WordLen(s: string): (n: nat)
    ensures n <= |s|
    ensures forall i :: 0 <= i < n ==> !IsSpace(s[i])
    ensures n < |s| ==> IsSpace(s[n])
  {
    if s == [] || IsSpace(s[0]) then 0 else 1 + WordLen(s[1..])
  }

  /** `str.split()` with no separator: the maximal runs of non-whitespace
      characters, in order; leading, trailing and repeated whitespace yield
      no empty tokens. */
  function Split(s: string): (words: seq<string>)
    ensures forall w :: w in words ==> IsWord(w)
    ensures forall w, c :: w in words && c in w ==> c in s
    decreases |s|
  {
    if s == [] then []
    else if IsSpace(s[0]) then Split(s[1..])
    else
      var n := WordLen(s);
      [s[..n]] + Split(s[n..])
  }

  /** `' '.join(words)`. */
  function Join(words: seq<string>): string {
    if words == [] then ""
    else if |words| == 1 then words[0]
    else words[0] + " " + Join(words[1..])
  }

  /** The tokens of every string of `ws`, concatenated in order. */
  function SplitEach(ws: seq<string>): seq<string> {
    if ws == [] then [] else Split(ws[0]) + SplitEach(ws[1..])
  }

  lemma SplitOfWord(w: string)
    requires IsWord(w)
    ensures Split(w) == [w]
  {
    assert WordLen(w) == |w|;
    assert w[..|w|] == w;
  }

  /** A token of `a` ends where `a` ends when whitespace follows. */
  lemma {:induction false} WordLenBeforeSpace(a: string, t: string)
    requires t != [] && IsSpace(t[0])
    ensures WordLen(a + t) == WordLen(a)
    decreases |a|
  {
    if a == [] {
      assert a + t == t;
    } else {
      assert (a + t)[0] == a[0];
      if !IsSpace(a[0]) {
        assert (a + t)[1..] == a[1..] + t;
        WordLenBeforeSpace(a[1..], t);
      }
    }
  }

  /** Any whitespace character separates tokens: splitting `a + [c] + b`
      splits `a` and `b` on their own. */
  lemma {:induction false} SplitAroundSpace(a: string, c: char, b: string)
    requires IsSpace(c)
    ensures Split(a + [c] + b) == Split(a) + Split(b)
    decreases |a|
  {
    var s := a + [c] + b;
    if a == [] {
      assert s[1..] == b;
    } else if IsSpace(a[0]) {
      assert s[0] == a[0];
      assert s[1..] == a[1..] + [c] + b;
      SplitAroundSpace(a[1..], c, b);
    } else {
      var n := WordLen(a);
      assert s == a + ([c] + b);
      WordLenBeforeSpace(a, [c] + b);
      assert s[0] == a[0];
      assert s[..n] == a[..n];
      assert s[n..] == a[n..] + [c] + b;
      SplitAroundSpace(a[n..], c, b);
    }
  }

  /** Splitting a joined list yields the tokens of each element, in order. */
  lemma {:induction false} SplitJoin(ws: seq<string>)
    ensures Split(Join(ws)) == SplitEach(ws)
  {
    if |ws| == 1 {
      assert SplitEach(ws) == Split(ws[0]) + [];
    } else if |ws| > 1 {
      SplitAroundSpace(ws[0], ' ', Join(ws[1..]));
      SplitJoin(ws[1..]);
    }
  }

  /** Whitespace alone yields no tokens. */
  lemma {:induction false} SplitOfBlank(s: string)
    requires forall i :: 0 <= i < |s| ==> IsSpace(s[i])
    ensures Split(s) == []
    decreases |s|
  {
    if s != [] {
      SplitOfBlank(s[1..]);
    }
  }

  /** Splitting a space-joined list of tokens gives the list back. */
  lemma {:induction false} SplitJoinWords(ws: seq<string>)
    requires forall w :: w in ws ==> IsWord(w)
    ensures Split(Join(ws)) == ws
  {
    SplitJoin(ws);
    SplitEachWords(ws);
  }

  lemma {:induction false} SplitEachWords(ws: seq<string>)
    requires forall w :: w in ws ==> IsWord(w)
    ensures SplitEach(ws) == ws
  {
    if ws != [] {
      SplitOfWord(ws[0]);
      SplitEachWords(ws[1..]);
      assert ws == [ws[0]] + ws[1..];
    }
  }

  /** Text made of lower-case ASCII letters with single spaces between
      words and none at either end. */
  predicate IsCleanText(s: string) {
    && (forall i :: 0 <= i < |s| ==> IsLowerLetter(s[i]) || s[i] == ' ')
    && (s != [] ==> s[0] != ' ' && s[|s| - 1] != ' ')
    && (forall i :: 0 <= i < |s| - 1 && s[i] == ' ' ==> IsLowerLetter(s[i + 1]))
  }

  /** Joining lower-case words with single spaces yields clean text. */
  lemma {:induction false} JoinLowerWordsIsClean(ws: seq<string>)
    requires forall w :: w in ws ==> IsLowerWord(w)
    ensures IsCleanText(Join(ws))
  {
    if |ws| == 1 {
      assert ws[0] in ws;
    } else if |ws| > 1 {
      var w, rest := ws[0], Join(ws[1..]);
      assert w in ws;
      JoinLowerWordsIsClean(ws[1..]);
      assert ws[1] in ws[1..];
      assert rest != [] && IsLowerLetter(rest[0]) by {
        JoinStartsWithFirst(ws[1..]);
      }
      var s := w + " " + rest;
      assert s == Join(ws);
      assert IsLowerWord(w);
      assert forall i :: 0 <= i < |w| ==> s[i] == w[i];
      forall i | 0 <= i < |s| - 1 && s[i] == ' ' ensures IsLowerLetter(s[i + 1]) {
        if i == |w| {
          assert s[i + 1] == rest[0];
        } else if i > |w| {
          assert s[i] == rest[i - |w| - 1] && s[i + 1] == rest[i - |w|];
        }
      }
      forall i | 0 <= i < |s| ensures IsLowerLetter(s[i]) || s[i] == ' ' {
        if i > |w| {
          assert s[i] == rest[i - |w| - 1];
        }
      }
      assert s[0] == w[0] && s[|s| - 1] == rest[|rest| - 1];
    }
  }

  lemma {:induction false} JoinStartsWithFirst(ws: seq<string>)
    requires ws != [] && ws[0] != []
    ensures Join(ws) != [] && Join(ws)[0] == ws[0][0]
  {
  }

  /** Clean text is made of words that are neither blank nor whitespace-broken. */
  lemma CleanTextHasNoOtherChars(s: string)
    requires IsCleanText(s)
    ensures forall i :: 0 <= i < |s| ==> !IsUpperLetter(s[i]) && (IsAsciiLetter(s[i]) || IsSpace(s[i]))
  {
  }

  /** `pat` occurs as a contiguous piece of `text`. */
  predicate ContainsSubstring(text: string, pat: string)
    decreases |text|
  {
    pat <= text || (text != [] && ContainsSubstring(text[1..], pat))
  }

  /** An occurrence found by `ContainsSubstring` is a real slice of `text`,
      and every slice is found. */
  lemma {:induction false} ContainsSubstringIff(text: string, pat: string)
    ensures ContainsSubstring(text, pat) <==> exists k :: OccursAt(text, pat, k)
    decreases |text|
  {
    if pat <= text {
      assert OccursAt(text, pat, 0);
    } else if text == [] {
    } else {
      ContainsSubstringIff(text[1..], pat);
      if exists k :: OccursAt(text, pat, k) {
        var k :| OccursAt(text, pat, k);
        assert k != 0;
        assert text[1..][k - 1..k - 1 + |pat|] == text[k..k + |pat|];
        assert OccursAt(text[1..], pat, k - 1);
      }
      if exists k :: OccursAt(text[1..], pat, k) {
        var k :| OccursAt(text[1..], pat, k);
        assert text[k + 1..k + 1 + |pat|] == text[1..][k..k + |pat|];
        assert OccursAt(text, pat, k + 1);
      }
    }
  }
}
