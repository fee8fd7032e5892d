# Hybrid FAQ retrieval, modelled in Dafny

The system answers a user's question by looking it up in a corpus of FAQ
rows (question, answer) in two stages:

1. a lexical (TF-IDF) stage scores every corpus row and keeps a shortlist
   of the 20 best;
2. a semantic (sentence-embedding) stage rescores the shortlist and keeps
   the `top_k` best.

Before lexical scoring, the corpus questions and the user query are each
normalised. The semantic stage encodes the raw query and the raw candidate
questions. An evaluation harness runs a labelled test set through the
pipeline and reports Precision@1, Recall@K and mean reciprocal rank (MRR).

The project models the deterministic core of `hybrid_faq_retrieval.py`:

- `text.dfy` (module `Text`): the two text normalisers. The corpus
  normaliser lowercases, deletes every character that is neither a word
  character nor whitespace, and strips. The query normaliser lowercases,
  removes the *literal* text `[^\w\s]`, and strips.
- `ranking.dfy` (module `Ranking`): the selection idiom
  `np.argsort(s)[::-1][:top_k]` that both stages use. It is specified by
  `IsTopK`:
  - exactly as many indices as the Python slice keeps;
  - pairwise distinct and in range;
  - in non-increasing score order;
  - no index left out scores higher than one taken.

  It is implemented by a sort of the index range.
- `retrieval.dfy` (module `Retrieval`): the lexical stage, the semantic
  reranking and their composition `hybrid_retrieval`, with the shortlist
  size fixed at 20.
- `evaluation.dfy` (module `Evaluation`): `evaluate_metrics` as a method
  with the source's loops.
  - The outer loop runs over test rows and keeps three accumulators.
  - The inner loop runs over ranks and stops at the first match.
  - The method is proved against specification functions: per-row
    contributions, their sums, and the first row whose result list is
    empty.
  - Both error exits are modelled. An empty result list raises
    `IndexError` at `retrieved_questions[0]`. An empty test set raises
    `ZeroDivisionError` in the final divisions.

Scores are abstract inputs:
- the lexical stage receives one `real` per corpus row;
- the semantic stage receives a function from question text to `real`.

The query is fixed for one retrieval, so its semantic score depends on the
candidate's question alone.

Python floats are modelled as exact reals, and `top_k` as an unbounded
integer. A negative `top_k` is handled with Python slice semantics
(`SliceLength`).

Characters are classified as in Python restricted to ASCII:
- `\w` is letters, digits and `_`;
- whitespace is what `str.isspace` accepts below U+0080;
- every other character counts as punctuation.

The two normalisers look alike but differ. The query path calls
`str.replace` with the regular-expression text `[^\w\s]` as a plain string,
so it deletes only that literal seven-character text, and punctuation in
queries survives. `Text.NormalizeQueryKeepsPunctuation` shows one input
where the two normalisers differ.

## Model

| member | source | states |
|---|---|---|
| Text.Lower | hybrid_faq_retrieval.py:15 | lowercasing keeps the length, maps each character by `ToLower`, and leaves no upper-case letter |
| Text.ToLower | hybrid_faq_retrieval.py:15 | a lowercased character is never upper case, and it is a word character or whitespace exactly when the original is |
| Text.LowerPlain | hybrid_faq_retrieval.py:15 | text without upper-case letters is unchanged by lowercasing |
| Text.LowerAppend | hybrid_faq_retrieval.py:15 | lowercasing distributes over concatenation |
| Text.RemovePunctuation | hybrid_faq_retrieval.py:16 | the result is no longer than the input, holds only characters of the input, and only word characters and whitespace |
| Text.RemovePunctuationPlain | hybrid_faq_retrieval.py:16 | text made only of word characters and whitespace passes unchanged |
| Text.RemovePunctuationAppend | hybrid_faq_retrieval.py:16 | deletion works character by character: it distributes over concatenation |
| Text.TextEnd | hybrid_faq_retrieval.py:17 | the right cut of `str.strip` ends the text at a non-whitespace character (or at 0) with only whitespace after it |
| Text.TextStart | hybrid_faq_retrieval.py:17 | the left cut of `str.strip` starts the text at a non-whitespace character (or at the end) with only whitespace before it |
| Text.Strip | hybrid_faq_retrieval.py:17 | the result has no whitespace at either end, is a slice of the input with only whitespace around it, and holds only characters of the input |
| Text.StripTrimmed | hybrid_faq_retrieval.py:17 | stripping text without whitespace at its ends changes nothing |
| Text.NormalizeQuestion | hybrid_faq_retrieval.py:15-17 | a normalised question has no upper-case letter, only word characters and whitespace, no whitespace at either end, and is no longer than the input |
| Text.NormalizeQuestionIdempotent | hybrid_faq_retrieval.py:15-17 | normalising twice equals normalising once |
| Text.NormalizeQuestionIgnoresCase | hybrid_faq_retrieval.py:15-17 | lowercasing first does not change the normal form |
| Text.NormalizeQuestionIgnoresPunctuation | hybrid_faq_retrieval.py:15-17 | inserting a punctuation mark anywhere does not change the normal form |
| Text.NormalizeQuestionExample | hybrid_faq_retrieval.py:15-17 | "Track My Order!" and "track my order" both normalise to "track my order" |
| Text.LowerExample | hybrid_faq_retrieval.py:15 | "Track My Order!" lowercases to "track my order!" |
| Text.PatternNeedsBracket | hybrid_faq_retrieval.py:22 | text without `[` cannot contain the literal pattern text |
| Text.DeleteLiteral | hybrid_faq_retrieval.py:22 | `str.replace(pat, '')` never lengthens the text and introduces no character that was not there |
| Text.DeleteLiteralAbsent | hybrid_faq_retrieval.py:22 | when the literal does not occur, `str.replace` returns the text unchanged |
| Text.NormalizeQuery | hybrid_faq_retrieval.py:22 | a normalised query has no upper-case letter, no whitespace at either end, and is no longer than the input |
| Text.NormalizeQueryLowersAndStrips | hybrid_faq_retrieval.py:22 | unless the lowercased query contains the literal text `[^\w\s]`, the query normaliser only lowercases and strips |
| Text.NormalizeQueryAgreesOnPlainText | hybrid_faq_retrieval.py:15-22 | on text made only of word characters and whitespace, the query and corpus normalisers agree |
| Text.NormalizeQueryKeepsPunctuation | hybrid_faq_retrieval.py:15-22 | on "Track My Order!" the query normaliser gives "track my order!", while the corpus normaliser gives "track my order" |
| Text.NormalizeQueryDeletesPatternText | hybrid_faq_retrieval.py:22 | the literal text `[^\w\s]` is what `str.replace` deletes: "a[^\w\s]b" becomes "ab" |
| Ranking.SliceLength | hybrid_faq_retrieval.py:25 | the slice `[:k]` keeps at most n elements, and at most k when k is not negative |
| Ranking.DistinctCons | hybrid_faq_retrieval.py:25 | putting an index that is not yet present in front of a duplicate-free list keeps it duplicate-free |
| Ranking.DistinctTail | hybrid_faq_retrieval.py:25 | the tail of a duplicate-free list is duplicate-free and does not contain its head |
| Ranking.DescendingCons | hybrid_faq_retrieval.py:25 | putting an index that scores at least as high as every listed one in front keeps the list descending and in range |
| Ranking.DescendingTail | hybrid_faq_retrieval.py:25 | the tail of a descending in-range list is descending and in range |
| Ranking.InsertInFront | hybrid_faq_retrieval.py:25 | an index scoring at least as high as the head goes in front: the list stays descending, in range and duplicate-free |
| Ranking.InsertBehind | hybrid_faq_retrieval.py:25 | an index scoring below the head goes behind it: the list gains exactly that index and stays descending, in range and duplicate-free |
| Ranking.Insert | hybrid_faq_retrieval.py:25 | inserting an index into a descending index list keeps it descending, in range and duplicate-free, and adds exactly that index |
| Ranking.Range | hybrid_faq_retrieval.py:25 | the index range that `argsort` permutes: n indices, each below n, all distinct, every index below n present |
| Ranking.SortByScore | hybrid_faq_retrieval.py:25 | the indices are rearranged into descending score order, with the same elements and no duplicates added |
| Ranking.RankByScore | hybrid_faq_retrieval.py:25 | `np.argsort(s)[::-1]` lists every index once, in range, in non-increasing score order |
| Ranking.PrefixIsTopK | hybrid_faq_retrieval.py:25 | every prefix of a complete descending ranking is a valid top-k selection, including optimality |
| Ranking.TopK | hybrid_faq_retrieval.py:25 | `np.argsort(s)[::-1][:k]` meets `IsTopK`: the slice length, distinct in-range indices, non-increasing scores, and no excluded index scoring above a selected one |
| Ranking.ShortlistContains | hybrid_faq_retrieval.py:25 | an index with fewer than k rivals scoring at least as high is in every top-k selection |
| Ranking.HeadIsMaximum | hybrid_faq_retrieval.py:35 | the first selected index scores highest of all |
| Ranking.StrictMaximumFirst | hybrid_faq_retrieval.py:35 | a strict best score heads every non-empty selection |
| Ranking.BeatsOnlyEarlier | hybrid_faq_retrieval.py:35 | an index scoring above position i of a selection stands before position i |
| Ranking.PrefixInsidePrefix | hybrid_faq_retrieval.py:35 | if one selection scores above another at position i, its first i+1 indices are distinct and all among the other's first i |
| Ranking.NotHigherThanOther | hybrid_faq_retrieval.py:35 | if two selections agree in score up to position i, the first scores no higher than the second at i |
| Ranking.PositionAgrees | hybrid_faq_retrieval.py:35 | two selections that agree in score below position i also agree at i |
| Ranking.ScoresAgreeBelow | hybrid_faq_retrieval.py:35 | agreement at each position, given agreement below it, extends to every prefix |
| Ranking.TopKScoresDetermined | hybrid_faq_retrieval.py:25-26 | whatever order argsort gives to ties, two valid selections have the same length and the same score at every position |
| Retrieval.Gather | hybrid_faq_retrieval.py:26-27 | indexing by an index array gives one element per index, each the element at that index |
| Retrieval.CutAtPicksSame | hybrid_faq_retrieval.py:27 | indices that avoid the cut position pick the same rows, still distinct and in range, from the list with that position cut out |
| Retrieval.LexicalRetrieval | hybrid_faq_retrieval.py:21-27 | results and scores both have the slice length; they are the rows and scores at a valid top-k selection of the lexical scores; scores are non-increasing |
| Retrieval.GatherSubMultiset | hybrid_faq_retrieval.py:27 | rows gathered at distinct indices form a sub-multiset of the rows |
| Retrieval.SelectedSubList | hybrid_faq_retrieval.py:27 | a selection is a reordered sub-list of the rows it was taken from |
| Retrieval.Similarities | hybrid_faq_retrieval.py:31-34 | one semantic score per candidate, each that candidate's question's score |
| Retrieval.SemanticReranking | hybrid_faq_retrieval.py:30-38 | the reranked list has length `min(top_k, len(candidates))` under slice rules, equal to the scores' length; it is a valid top-k selection of the candidates by semantic score; each score belongs to its own item; scores are non-increasing |
| Retrieval.HybridRetrieval | hybrid_faq_retrieval.py:41-50 | results and scores have equal length: the `top_k` slice of the shortlist of 20. That is at most 20, at most the corpus size, and at most `top_k` when not negative. Each score is its item's semantic score, in non-increasing order |
| Retrieval.HybridSubList | hybrid_faq_retrieval.py:43-47 | every hybrid result is a shortlisted row and a corpus row: the results are a reordered sub-list of both |
| Retrieval.RerankingKeepsAll | hybrid_faq_retrieval.py:35-37 | when `top_k` covers all candidates, reranking only reorders them |
| Retrieval.HybridReturnsBestMatch | hybrid_faq_retrieval.py:41-50 | a row that is surely shortlisted (fewer than 20 lexical rivals) and whose question beats every other semantically is returned first |
| Evaluation.Questions | hybrid_faq_retrieval.py:63 | the retrieved question list has one entry per result, each that result's question |
| Evaluation.Judgements | hybrid_faq_retrieval.py:59-63 | one judged row per test query |
| Evaluation.FirstRank | hybrid_faq_retrieval.py:74-77 | the 1-based rank is 0 exactly when the label is absent; otherwise the label sits at that rank and nowhere before it |
| Evaluation.FirstEmpty | hybrid_faq_retrieval.py:59-66 | the first row with an empty result list: all earlier rows have results, and that row has none (or there is no such row) |
| Evaluation.EvaluateMetrics | hybrid_faq_retrieval.py:53-87 | returns `IndexError` at the first row with an empty result list; otherwise `ZeroDivisionError` for an empty test set; otherwise the hit and reciprocal-rank sums divided by the number of queries |
| Evaluation.RetrieveQuestions | hybrid_faq_retrieval.py:62-63 | the questions retrieved for test row i are those of row i of the judgements |
| Evaluation.ScoreQuery | hybrid_faq_retrieval.py:66-77 | a query adds 1 to Precision@1 iff its top question is the label, 1 to Recall@K iff the label is retrieved, and the reciprocal of the label's first rank to MRR |
| Evaluation.ReciprocalOfFirstMatch | hybrid_faq_retrieval.py:74-77 | the rank loop with `break` adds 1/rank of the first match, or 0 when the label is absent |
| Evaluation.FirstRankAt | hybrid_faq_retrieval.py:74-77 | when the label sits at a rank and not before, that rank is its first rank |
| Evaluation.AbsentFurther | hybrid_faq_retrieval.py:74-77 | a non-matching question at a rank extends the label-free prefix by one |
| Evaluation.AccumulateRow | hybrid_faq_retrieval.py:66-77 | scoring one more row extends the three sums by exactly that row's contributions |
| Evaluation.FinalReport | hybrid_faq_retrieval.py:79-81 | after the last row, dividing the accumulators by the number of queries gives the reported metrics |
| Evaluation.FirstEmptyAt | hybrid_faq_retrieval.py:66 | a row with an empty result list, after rows that all have results, is the row that raises |
| Evaluation.FirstEmptyNone | hybrid_faq_retrieval.py:66 | when no result list is empty, nothing raises `IndexError` |
| Evaluation.SumsStep | hybrid_faq_retrieval.py:66-77 | appending a row adds its contributions to each sum |
| Evaluation.ContributionsOrdered | hybrid_faq_retrieval.py:66-77 | per query, 0 <= Precision@1 hit <= reciprocal rank <= Recall@K hit <= 1; the reciprocal rank is positive iff the label is retrieved |
| Evaluation.SumsOrdered | hybrid_faq_retrieval.py:59-77 | the sums keep that order and are bounded by the number of queries |
| Evaluation.MetricsOrdered | hybrid_faq_retrieval.py:79-81 | 0 <= Precision@1 <= MRR <= Recall@K <= 1 |
| Evaluation.FractionsOrdered | hybrid_faq_retrieval.py:79-81 | dividing ordered counts within [0, n] by the positive query count n gives ordered fractions within [0, 1] |
| Evaluation.TopHitsCount | hybrid_faq_retrieval.py:66-67 | the Precision@1 count is the number of queries whose top question is the label |
| Evaluation.AnyHitsCount | hybrid_faq_retrieval.py:70-71 | the Recall@K count is the number of queries whose label is retrieved |
| Evaluation.UnmatchedLabelsScoreZero | hybrid_faq_retrieval.py:59-77 | if no query retrieves its label, all three sums are 0 |
| Evaluation.NoIndexErrorWithResults | hybrid_faq_retrieval.py:66 | with a non-empty corpus and `top_k >= 1`, no query has an empty result list, so nothing raises `IndexError` |
| Evaluation.ZeroTopKRaisesIndexError | hybrid_faq_retrieval.py:66 | with `top_k == 0`, the first query of a non-empty test set raises `IndexError` |

Specification functions, which define what the contracts above refer to
and carry no contract of their own:
- `Ranking.IsTopK`, `Ranking.Descending`, `Ranking.Distinct`, `Ranking.InRange`:
  what a valid `argsort(s)[::-1][:k]` selection is.
- `Evaluation.Judge`, `Evaluation.JudgementsAt`: the retrieved questions and
  the label of one test row.
- `Evaluation.TopHit`, `Evaluation.AnyHit`, `Evaluation.ReciprocalRank`: one
  query's contributions to Precision@1, Recall@K and MRR
  (hybrid_faq_retrieval.py:66-77).
- `Evaluation.TopHits`, `Evaluation.AnyHits`, `Evaluation.ReciprocalRankSum`,
  `Evaluation.Metrics`: their sums and the reported means
  (hybrid_faq_retrieval.py:79-81).

Proof helpers, which model no source line of their own and serve the
lemmas above: `Ranking.ElemsCard`, `Ranking.BoundedSetCard`,
`Ranking.SubsetCard` and `Ranking.DistinctWithin` (cardinalities of index
lists and sets); `Retrieval.CutAt` (renumbering indices when one position
is cut out, for the induction in `Retrieval.GatherSubMultiset`).

## Left out

- Scoring back-ends are not modelled: TF-IDF fitting and transform, `cosine_similarity`, and the sentence-embedding model with `model.encode`. These are library numerics over float vectors. The model takes their output as inputs: a lexical score per corpus row, and a semantic score per question text.
- `Evaluation.TestQuery` therefore carries the two scorings of its query instead of the query text.
- The model does not connect the query normaliser to the lexical scores, because the vectoriser is outside the model.
- Float rounding is not modelled: scores and metrics are exact reals.
- `Ranking.RankByScore` orders tied scores one fixed way: among equal scores, the earlier index comes first. numpy's `argsort(s)[::-1]` does not promise that order. Within one stage, the contracts of `Ranking.TopK`, `Retrieval.LexicalRetrieval`, `Retrieval.SemanticReranking` and `Retrieval.HybridRetrieval` rely only on `IsTopK`, which holds for any tie order. `Ranking.TopKScoresDetermined` shows that one stage's scores do not depend on the tie order. Which rows carry those scores does depend on it.
- `Evaluation.EvaluateMetrics`, `Evaluation.Judgements`, `Evaluation.RetrieveQuestions`: their values are those of `Ranking.RankByScore`'s tie order, in both stages. Lexical scores can tie across the 20th place, for example all 0 when a query shares no term with the corpus. The shortlist's membership can then differ from the program's, and so can the results, their scores and the three metrics. The properties proved about the metrics (`Evaluation.MetricsOrdered`, `Evaluation.TopHitsCount`, `Evaluation.AnyHitsCount`, the error cases) hold for that tie order. The metric values are not stated for every tie order.
- `Text.Lower`, `Text.RemovePunctuation`, `Text.Strip`: only ASCII letters are lowercased. `\w` and whitespace are their ASCII members, and every other character counts as punctuation. Python's Unicode case mapping and Unicode `\w`/`\s` classes are not modelled.
- Timing (`time.time()`, `response_time`) is not modelled: it is wall-clock I/O. `hybrid_retrieval`'s result is modelled as its results and scores only.
- An empty corpus is modelled as an empty shortlist and therefore an empty result list, which raises `IndexError`. In the program, the vectoriser and `cosine_similarity` raise their own errors first on an empty corpus or empty candidate list; those errors are not modelled.
- The Flask routes and the empty-query rejection in `faq_retrieval` are not modelled: request parsing and HTML rendering are web plumbing, not ranking logic.
- CSV reading and writing, model initialisation and the `__main__` driver are not modelled: they are file I/O and startup. `generate_faq_dataset.py` and `generate_test_queries.py` are data tables with CSV writes and are not part of this model.
- Row order in `test_df.iterrows()` is taken to be the sequence order of the test set.
