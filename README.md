# Article search engine — retrieval and ranking core in Dafny

This project models the retrieval and ranking core of a small article search
engine, `project/app1.py`. The engine loads articles grouped by topic and
flattens them into one table. It normalises each article's title and content
and derives three quality features scaled to [0, 1]. A search request then
passes through several steps:

- The query is stripped and rejected when blank.
- It is lower-cased, its abbreviations are expanded and its spelling is
  corrected.
- Every document is scored against the content index and ranked by an
  adjusted score that blends similarity with the quality features.
- When the content ranking is short or weak, the title ranking is appended.
- Rows with an already seen link are dropped.
- The five rows with the highest adjusted score are published as records.

The model is split into one module per concern:

- `Wrappers`: `Option` and `Result`.
- `Text`: Python's `str.lower`, `str.strip`, `str.split()`, `' '.join` and
  substring search, over ASCII.
- `Normalizer`: `preprocess_text` and its stopword set.
- `Rewriter`: `expand_abbreviations` with its dictionary, and
  `correct_spelling` as a loop over an abstract corrector.
- `Corpus`: the flattening loop, the document table and feature
  normalisation.
- `Ranker`: the weights, the adjusted score and `rank_results`.
- `PhraseFilter`: `prioritize_phrase_matching`.
- `Retrieval`: link deduplication, the top five, and the `search` endpoint
  as a method.

The two similarity indexes and the spelling corrector are parameters: a
function from a query to one score per document, and a function from a word
to an optional suggestion. Because the indexes take the rewritten query, the
model still shows which query the engine scores.

Two results about the search endpoint stand out:

- The title fallback can never change the outcome. The content ranking
  already holds one row for every document, so every appended title row is
  dropped as a duplicate link. `Retrieval.FallbackNeverChangesOutcome`
  proves this.
- Every non-blank search returns min(5, number of distinct links) records.

## Model

| member | source | states |
|---|---|---|
| Text.LowerChar | project/app1.py:47 | An upper-case ASCII letter becomes its lower-case letter; every other character is unchanged; no upper-case letter comes out |
| Text.Lower | project/app1.py:47 | `str.lower()` over ASCII, character by character; its contract is carried by LowerChar, LowerHasNoUpper and LowerKeepsNonUpper |
| Text.LowerHasNoUpper | project/app1.py:47 | Lower-casing leaves no upper-case ASCII letter |
| Text.LowerKeepsNonUpper | project/app1.py:47 | A string without upper-case ASCII letters is left unchanged by lower-casing |
| Text.Strip | project/app1.py:129 | The stripped query is empty exactly when the raw query is all whitespace; otherwise it neither starts nor ends with whitespace; it is a contiguous piece of the raw query with only whitespace before and after it |
| Text.Split | project/app1.py:49 | Every token of `str.split()` is non-empty and whitespace-free, and is made of characters of the input; with SplitAroundSpace, SplitOfWord and SplitOfBlank the tokens of every input are fixed |
| Text.SplitOfWord | project/app1.py:49 | A single whitespace-free token splits to itself |
| Text.SplitAroundSpace | project/app1.py:49-50 | Any whitespace character (a space, a tab, a line break) separates tokens: splitting `a + [c] + b` gives the tokens of `a` followed by the tokens of `b` |
| Text.Join | project/app1.py:50 | `' '.join`: the tokens with one space between neighbours; its contract is carried by SplitJoin, SplitJoinWords and JoinLowerWordsIsClean |
| Text.SplitJoin | project/app1.py:50 | Splitting a space-joined list gives the tokens of each element, in order |
| Text.SplitJoinWords | project/app1.py:50 | Splitting a space-joined list of tokens gives the list back |
| Text.SplitOfBlank | project/app1.py:49 | A whitespace-only string has no tokens |
| Text.JoinLowerWordsIsClean | project/app1.py:50 | Joining lower-case words with single spaces gives clean text: letters and single inner spaces only |
| Text.ContainsSubstringIff | project/app1.py:105 | The literal containment test finds a pattern exactly when the pattern occurs at some position |
| Normalizer.KeepLettersAndSpaces | project/app1.py:48 | The deletion of every character outside `[a-zA-Z\s]`, character by character; its contract is carried by KeepLettersAndSpacesMembers, KeepLettersAndSpacesAppend and KeepLettersAndSpacesOfChar |
| Normalizer.KeepLettersAndSpacesMembers | project/app1.py:48 | The substitution keeps exactly the ASCII letters and whitespace, never lengthens the text, and changes nothing when there is nothing else |
| Normalizer.KeepLettersAndSpacesAppend | project/app1.py:48 | The substitution distributes over concatenation, so kept characters stay in order and keep their multiplicity |
| Normalizer.KeepLettersAndSpacesOfChar | project/app1.py:48 | A single character is kept exactly when it is an ASCII letter or whitespace |
| Normalizer.DropStopwords | project/app1.py:49 | The stopword filter over the token list, token by token; its contract is carried by DropStopwordsMembers, DropStopwordsAppend and DropStopwordsOfWord |
| Normalizer.DropStopwordsMembers | project/app1.py:49 | A token survives exactly when it was in the list and is no stopword; a list without stopwords is unchanged |
| Normalizer.DropStopwordsAppend | project/app1.py:49 | Stopword removal distributes over concatenation, so surviving tokens stay in order and keep their multiplicity |
| Normalizer.DropStopwordsOfWord | project/app1.py:49 | A single token is kept exactly when it is no stopword |
| Normalizer.PreprocessText | project/app1.py:46-50 | `preprocess_text`: lower-case, delete non-letters, split, drop stopwords, join with single spaces; its contract is carried by PreprocessTextShape, PreprocessTextIdempotent, PreprocessJoinedWords and PreprocessTextWithoutLetters |
| Normalizer.SurvivingTokensAreLowerWords | project/app1.py:46-49 | Every surviving token is a non-empty lower-case ASCII word and no stopword |
| Normalizer.PreprocessTextShape | project/app1.py:46-50 | The output is clean text; its tokens are exactly the surviving tokens; none is a stopword |
| Normalizer.PreprocessJoinedWords | project/app1.py:46-50 | Space-joined lower-case non-stopword words are a fixed point of normalisation |
| Normalizer.PreprocessTextIdempotent | project/app1.py:46-50 | Normalising twice equals normalising once |
| Normalizer.PreprocessTextWithoutLetters | project/app1.py:46-50 | Text without ASCII letters normalises to the empty string |
| Rewriter.ExpansionsStartWithLetter | project/app1.py:77-94 | Every expansion in the dictionary is non-empty and starts with a lower-case letter |
| Rewriter.ExpandWordHasTokens | project/app1.py:98 | A token's replacement has at least one token, and a token outside the dictionary is replaced by itself |
| Rewriter.ExpandAbbreviations | project/app1.py:96-98 | `expand_abbreviations`: each token replaced by its dictionary expansion when it is a key, joined with single spaces; its contract is carried by ExpandAbbreviationsTokens, ExpandAbbreviationsKeepsTokenCount and ExpandAbbreviationsWithoutAbbreviations |
| Rewriter.ExpandAbbreviationsTokens | project/app1.py:96-98 | The expanded query's tokens are, in order, the tokens of each input token's replacement: its expansion when it is a key, itself otherwise |
| Rewriter.ExpandAbbreviationsKeepsTokenCount | project/app1.py:96-98 | Expansion never lowers the token count |
| Rewriter.ExpandAbbreviationsWithoutAbbreviations | project/app1.py:96-98 | A query with no dictionary key keeps its tokens |
| Rewriter.CorrectedQuery | project/app1.py:68-73 | The value `correct_spelling` returns, as a function; CorrectSpelling's loop is proved equal to it and CorrectedQueryTokens states its tokens |
| Rewriter.CorrectSpelling | project/app1.py:68-73 | The loop returns the space-joined list of each token's suggestion, or the token itself when there is none |
| Rewriter.CorrectedQueryTokens | project/app1.py:68-73 | With single-token suggestions, correction keeps the token count and order; token i is the suggestion for token i or, without one, token i unchanged |
| Corpus.Flattened | project/app1.py:14-19 | The flattened article list, group after group, each article stamped with its group's topic; its contract is carried by FlattenTopics, FlattenedLength, FlattenedAt and FlattenedFromGroups |
| Corpus.FlattenTopics | project/app1.py:14-19 | The loop yields the groups' articles group after group, each stamped with its group's topic |
| Corpus.FlattenedLength | project/app1.py:14-19 | The flattened list holds as many articles as all groups together |
| Corpus.FlattenedAt | project/app1.py:14-19 | Article j of group g sits, stamped with the group's topic, right after the articles of the earlier groups |
| Corpus.FlattenedFromGroups | project/app1.py:14-19 | Every flattened article is some group's article stamped with that group's topic |
| Corpus.MaxTotalWords | project/app1.py:25 | The maximum word count is attained by some article and bounds every article |
| Corpus.BuildDocument | project/app1.py:25-57 | One row of the document table with its derived columns; its contract is carried by TotalWordsNormAt, PercentageColumnsAt, ProcessedColumns and TotalWordsNormKeepsOrder |
| Corpus.BuildCorpus | project/app1.py:22-27 | The document table has one row per article, in order, carrying that article |
| Corpus.PercentageColumnsAt | project/app1.py:26-27 | Row i's two percentage columns are article i's percentages divided by 100 |
| Corpus.TotalWordsNormAt | project/app1.py:25 | Row i's normalised word count is its word count divided by the corpus maximum |
| Corpus.NormalisedFeaturesInRange | project/app1.py:25-27 | For well-formed articles every normalised feature lies in [0, 1] |
| Corpus.MaxDocumentAtOne | project/app1.py:25 | Some document has normalised word count 1 |
| Corpus.TotalWordsNormKeepsOrder | project/app1.py:25 | Normalisation keeps the order of word counts, in both directions |
| Corpus.ProcessedColumns | project/app1.py:53-57 | Row i's processed title and content are article i's normalised title and content, are clean text at their fixed point, and the combined text joins them with one space |
| Ranker.AdjustedScore | project/app1.py:113-118 | The weighted blend of similarity, normalised word count, unique-word share and one minus stopword share; its contract is carried by AdjustedScoreInUnitInterval and AdjustedScoreMonotone |
| Ranker.AdjustedScoreInUnitInterval | project/app1.py:30-35 | With the engine's weights and all signals in [0, 1], the adjusted score is in [0, 1] |
| Ranker.AdjustedScoreMonotone | project/app1.py:113-118 | For a fixed document the adjusted score rises and falls with the similarity, in both directions |
| Ranker.SortedPairwise | project/app1.py:120 | A descending order of adjacent rows holds between every pair of rows |
| Ranker.Insert | project/app1.py:120 | Inserting into a sorted ranking keeps it sorted and adds exactly the one row |
| Ranker.SortRows | project/app1.py:120 | The sort returns a permutation of its rows in descending order |
| Ranker.RankResults | project/app1.py:110-121 | The ranking is sorted by descending (adjusted score, similarity) and is a permutation of the scored rows |
| Ranker.SortRowsKeepsTieOrder | project/app1.py:120 | The sort by (adjusted score, similarity) is stable: rows equal on both keys keep their relative order |
| Ranker.RankResultsKeepsTieOrder | project/app1.py:110-121 | Documents equal on both adjusted score and similarity appear in the ranking in corpus order |
| Ranker.RankResultsRows | project/app1.py:110-121 | The ranking has one row per document; each row is document i with score i and its adjusted score, and every document appears |
| PhraseFilter.ClosingQuote | project/app1.py:103 | The closing quote is the first quote of the rest of the line; when there is none, every later quote follows a line break |
| PhraseFilter.ExtractPhrases | project/app1.py:103 | No phrase holds a quote or a line break, and a query without quotes has no phrases; with ExtractPhrasesPairsQuotes and ExtractPhrasesSkipsUnclosed the phrase list of every query is fixed |
| PhraseFilter.ClosingQuoteAfter | project/app1.py:103 | A phrase without quotes or line breaks is closed by the quote right after it |
| PhraseFilter.ExtractPhrasesPairsQuotes | project/app1.py:103 | After quote-free text, a quoted phrase without line breaks is extracted, and scanning resumes right after its closing quote |
| PhraseFilter.ClosingQuoteMissing | project/app1.py:103 | No quote closes a phrase when the line ends before any quote |
| PhraseFilter.ExtractPhrasesSkipsUnclosed | project/app1.py:103 | After quote-free text, a quote not closed on its line opens no phrase, and scanning resumes right after it |
| PhraseFilter.PhrasesAreQuoted | project/app1.py:103 | Every extracted phrase occurs in the query between two quotes |
| PhraseFilter.TitleContains | project/app1.py:105 | The case-insensitive literal containment of the phrase in the processed title; ContainsSubstringIff states what the containment test means |
| PhraseFilter.MatchingRows | project/app1.py:105 | The matching rows are exactly the rows whose processed title contains the phrase ignoring case, in corpus order |
| PhraseFilter.MatchingRowsAppend | project/app1.py:105 | The selection distributes over concatenation, so matching rows keep their order and multiplicity |
| PhraseFilter.MatchingRowsOfRow | project/app1.py:105 | A single row is kept exactly when its processed title contains the phrase |
| PhraseFilter.FirstPhraseMatch | project/app1.py:104-108 | The loop over the phrases as a function: the matching rows of the first phrase that matches any, or the whole corpus; its contract is carried by FirstPhraseMatchShape, FirstPhraseMatchNone and FirstPhraseMatchSome |
| PhraseFilter.PrioritizePhraseMatching | project/app1.py:101-108 | A query without a quote returns the corpus unchanged |
| PhraseFilter.PrioritizePhraseMatchingShape | project/app1.py:101-108 | The result is the whole corpus, or a non-empty order-preserving selection of it whose every row contains one extracted phrase |
| PhraseFilter.PrioritizePhraseMatchingChoice | project/app1.py:104-108 | When no phrase matches, the corpus comes back whole; when phrase i is the first that matches, exactly its matching rows come back |
| Retrieval.LinksCount | project/app1.py:158 | A row list has at most as many links as rows, and exactly as many precisely when no link repeats |
| Retrieval.MaxSimilarity | project/app1.py:145 | The best similarity is attained by some row and bounds every row |
| Retrieval.NeedsTitleFallback | project/app1.py:145 | The fallback condition: fewer than five rows or a best similarity under 0.1; FallbackNeverChangesOutcome shows it never matters |
| Retrieval.DedupeFrom | project/app1.py:158 | Deduplication keeps only input rows with unseen links, keeps every unseen link, and never keeps a link twice |
| Retrieval.DedupeByLink | project/app1.py:158 | `drop_duplicates(subset=['link'])`: DedupeFrom with nothing seen yet; its contract is carried by DedupeFrom, DedupeCount, DedupeRepresentative and DedupeAppend |
| Retrieval.DedupeCount | project/app1.py:158 | Deduplication keeps one row per unseen link |
| Retrieval.DedupeRepresentative | project/app1.py:158 | For every link, a row at or before its first occurrence is the one kept |
| Retrieval.DedupeAppend | project/app1.py:153-158 | Deduplicating a concatenation deduplicates the second part after every link of the first |
| Retrieval.DedupeCovered | project/app1.py:158 | Rows whose links were all seen contribute nothing |
| Retrieval.RankedLinks | project/app1.py:142-150 | A ranking's links are exactly the corpus's links |
| Retrieval.Finalize | project/app1.py:158-161 | Deduplicate, sort by adjusted score descending and keep the first five; its contract is carried by FinalizeResults and FinalizeKeepsBest |
| Retrieval.FinalizeResults | project/app1.py:158-161 | The final rows number min(5, distinct links), repeat no link, have non-increasing adjusted scores, and are rows deduplication kept, the first of each link |
| Retrieval.FinalizeKeepsBest | project/app1.py:161 | Every deduplicated row left out scores no higher than any returned row |
| Retrieval.Retrieve | project/app1.py:137-161 | The rows of a search for given content and title scores: content ranking, title fallback, deduplication and the top five; its contract is carried by RetrieveResults, RetrieveKeepsBest, RetrieveRepresentative and FallbackNeverChangesOutcome |
| Retrieval.FallbackNeverChangesOutcome | project/app1.py:145-158 | With or without the title fallback the outcome is the same rows |
| Retrieval.RetrieveResults | project/app1.py:137-161 | A search returns min(5, distinct corpus links) rows, no link twice, adjusted scores non-increasing, each a row deduplication of the content ranking kept and a corpus document with its content score |
| Retrieval.RepresentativeScoresHigher | project/app1.py:142-158 | The row kept for a link scores at least as high as every row with that link in the ranking |
| Retrieval.RetrieveKeepsBest | project/app1.py:142-161 | A document whose link is not among the results scores no higher than any returned row |
| Retrieval.RetrieveRepresentative | project/app1.py:142-161 | For each link among the results, the returned row scores at least as high as every document with that link, as `drop_duplicates` keeps the first row of a ranking |
| Retrieval.RecordOf | project/app1.py:170 | The published columns of one document: title, link, word count and the two normalised percentages; PublishedRecords states the records of a search |
| Retrieval.Project | project/app1.py:170 | The records of the final rows, in order; PublishedRecords states their number, distinct links and provenance |
| Retrieval.PublishedRecords | project/app1.py:161-170 | The published records number min(5, distinct corpus links), repeat no link, and are each a corpus document's columns |
| Retrieval.RewriteQuery | project/app1.py:134-135 | The query the indexes see: lower-cased, abbreviations expanded, spelling corrected; Search's contract ties the result to it |
| Retrieval.Search | project/app1.py:128-173 | A blank query fails with the empty-query error and the trace records that no ranking was consulted; otherwise the result is the projected retrieval for the rewritten query, with the size, uniqueness and provenance above, and the trace records whether the title ranking was consulted |

## Left out

- The web layer is not part of this model: Flask routing, JSON request and response encoding, the index page and `static/script.js`. The error is the `EmptyQuery` value with its message and status 400.
- Loading `IRproject.json` is not modelled; the grouped articles are an input.
- TF-IDF vectorisation and cosine similarity are not modelled. Each index is a parameter that maps a query to one score per document.
- The spelling corrector's dictionary and edit-distance search are not modelled; the corrector is a parameter that returns a suggestion or none.
- Only ASCII is modelled for lower-casing, whitespace and case-insensitive matching. Python's Unicode rules for `str.lower`, `str.split`, `str.strip`, `\s` and `case=False` are not.
- Corpus.FlattenTopics: the source stamps the topic into the loaded article dictionaries in place; the model builds new values, so aliasing between the loaded data and the table is not captured.
- Corpus.BuildCorpus: requires a non-empty corpus whose largest word count is positive. For an empty corpus the source's table has no `total_words` column and line 25 raises a KeyError. A largest word count of zero makes the division yield NaN or infinity. A negative one yields ratios outside [0, 1].
- Corpus.MaxDocumentAtOne: proves that at least one document has normalised word count 1. Several documents do when the maximum is shared.
- Ranker.AdjustedScoreInUnitInterval: stated for the engine's fixed weights only, not for arbitrary weights.
- Ranker.AdjustedScoreMonotone: stated for the engine's fixed weights only, not for arbitrary weights.
- Ranker.RankResults: its own contract promises sortedness and permutation only. The source's sort on two keys is stable, so rows equal on both keys keep corpus order; RankResultsKeepsTieOrder states that separately.
- Retrieval.FinalizeResults: the final sort is on adjusted score alone. Its order among equal scores, and hence which row among equal scores takes fifth place, is this model's insertion order, not pandas'.
- The missing-column guards (lines 164-167) are not modelled. The table always has both columns, so they never fire.
- Real numbers are exact; floating-point rounding and NaN are not modelled.
- Retrieval.Search: that a blank query is rejected before any scoring is recorded only by the ghost trace the method sets itself. The indexes are pure function parameters, so the model cannot observe whether they were called.
- `prioritize_phrase_matching` is modelled on its own, because the search endpoint never calls it.
