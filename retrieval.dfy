/** The two retrieval stages and their composition. Scoring itself (TF-IDF
    cosine similarity over the corpus, embedding cosine similarity over the
    shortlist) is outside the model: the lexical stage receives one score per
    corpus row, the semantic stage a score for each question text. */
module Retrieval {
  import opened Ranking

  /** One FAQ row as the stages hand it on: its question and its answer. */
  datatype Entry = Entry(question: string, answer: string)

  /** Rows in rank order, each beside its similarity score. */
  datatype Ranked = Ranked(items: seq<Entry>, scores: seq<real>)

  /** The shortlist length `hybrid_retrieval` asks of the lexical stage. */
  const ShortlistSize: nat := 20

  predicate NonIncreasing(xs: seq<real>) {
    forall i, j | 0 <= i < j < |xs| :: xs[i] >= xs[j]
  }

  /** `xs[idx]` for an index array `idx`, as numpy and `df.iloc` read it. */
  function Gather<T>(xs: seq<T>, idx: seq<nat>): (r: seq<T>)
    requires InRange(idx, |xs|)
    ensures |r| == |idx|
    ensures forall i | 0 <= i < |idx| :: r[i] == xs[idx[i]]
  {
    seq(|idx|, i requires 0 <= i < |idx| => xs[idx[i]])
  }

  /** `r` holds the rows of `rows` that some valid top-k selection of
      `scores` picks, in its order, each beside its own score. */
  ghost predicate SelectedBy(rows: seq<Entry>, scores: seq<real>, k: int, r: Ranked)
    requires |rows| == |scores|
  {
    exists idx :: IsTopK(scores, k, idx) && r.items == Gather(rows, idx) && r.scores == Gather(scores, idx)
  }

  /** The indices `idx`, renumbered as if position `p` were cut out of the
      sequence they index. */
  function CutAt(idx: seq<nat>, p: nat): (r: seq<nat>)
    ensures |r| == |idx|
    ensures forall i | 0 <= i < |idx| :: r[i] == if idx[i] > p then idx[i] - 1 else idx[i]
  {
    seq(|idx|, i requires 0 <= i < |idx| => if idx[i] > p then idx[i] - 1 else idx[i])
  }

  /** Cutting position `p` out of `xs` and renumbering indices that avoid
      `p` picks the same rows. */
  lemma CutAtPicksSame<T>(xs: seq<T>, idx: seq<nat>, p: nat)
    requires p < |xs| && Distinct(idx) && InRange(idx, |xs|)
    requires forall i | 0 <= i < |idx| :: idx[i] != p
    ensures Distinct(CutAt(idx, p)) && InRange(CutAt(idx, p), |xs| - 1)
    ensures Gather(xs[..p] + xs[p + 1..], CutAt(idx, p)) == Gather(xs, idx)
  {
    var cut := CutAt(idx, p);
    forall i, j | 0 <= i < j < |cut| ensures cut[i] != cut[j] {
      assert idx[i] != idx[j];
    }
  }

  /** Picking rows at distinct positions takes each row at most as often as
      it occurs: the result is a sub-list of `xs`, reordered. */
  lemma {:induction false} GatherSubMultiset<T>(xs: seq<T>, idx: seq<nat>)
    requires Distinct(idx) && InRange(idx, |xs|)
    ensures multiset(Gather(xs, idx)) <= multiset(xs)
    decreases |idx|
  {
    if idx != [] {
      var p := idx[0];
      var others := idx[1..];
      forall i | 0 <= i < |others| ensures others[i] != p {
        assert idx[i + 1] != idx[0];
      }
      CutAtPicksSame(xs, others, p);
      GatherSubMultiset(xs[..p] + xs[p + 1..], CutAt(others, p));
      assert Gather(xs, idx) == [xs[p]] + Gather(xs, others);
      assert xs == xs[..p] + [xs[p]] + xs[p + 1..];
    }
  }

  /** `tfidf_retrieval` after scoring: the corpus rows at the `topK` highest
      lexical similarities, with those similarities. */
  function LexicalRetrieval(corpus: seq<Entry>, similarities: seq<real>, topK: int): (r: Ranked)
    requires |similarities| == |corpus|
    ensures |r.items| == |r.scores| == SliceLength(topK, |corpus|)
    ensures SelectedBy(corpus, similarities, topK, r)
    ensures NonIncreasing(r.scores)
  {
    var idx := TopK(similarities, topK);
    Ranked(Gather(corpus, idx), Gather(similarities, idx))
  }

  /** The semantic similarity of each candidate: the query is fixed, so it
      depends on the candidate's question text alone. */
  function Similarities(candidates: seq<Entry>, semantic: string -> real): (s: seq<real>)
    ensures |s| == |candidates|
    ensures forall i | 0 <= i < |candidates| :: s[i] == semantic(candidates[i].question)
  {
    seq(|candidates|, i requires 0 <= i < |candidates| => semantic(candidates[i].question))
  }

  /** `semantic_reranking`: the candidates reordered by semantic similarity
      and cut to `topK`. */
  function SemanticReranking(candidates: seq<Entry>, semantic: string -> real, topK: int): (r: Ranked)
    ensures |r.items| == |r.scores| == SliceLength(topK, |candidates|)
    ensures SelectedBy(candidates, Similarities(candidates, semantic), topK, r)
    ensures forall i | 0 <= i < |r.items| :: r.scores[i] == semantic(r.items[i].question)
    ensures NonIncreasing(r.scores)
  {
    var similarities := Similarities(candidates, semantic);
    var idx := TopK(similarities, topK);
    Ranked(Gather(candidates, idx), Gather(similarities, idx))
  }

  /** `hybrid_retrieval` without its timing: a lexical shortlist of
      `ShortlistSize` rows, reranked semantically down to `topK`. */
  function HybridRetrieval(corpus: seq<Entry>, lexical: seq<real>, semantic: string -> real, topK: int): (r: Ranked)
    requires |lexical| == |corpus|
    ensures |r.items| == |r.scores| == SliceLength(topK, SliceLength(ShortlistSize, |corpus|))
    ensures |r.items| <= ShortlistSize && |r.items| <= |corpus| && (0 <= topK ==> |r.items| <= topK)
    ensures forall i | 0 <= i < |r.items| :: r.scores[i] == semantic(r.items[i].question)
    ensures NonIncreasing(r.scores)
  {
    var shortlist := LexicalRetrieval(corpus, lexical, ShortlistSize);
    SemanticReranking(shortlist.items, semantic, topK)
  }

  /** A selection takes each row at most as often as it occurs: the result
      is a sub-list of the rows, reordered. */
  lemma SelectedSubList(rows: seq<Entry>, scores: seq<real>, k: int, r: Ranked)
    requires |rows| == |scores| && SelectedBy(rows, scores, k, r)
    ensures multiset(r.items) <= multiset(rows)
  {
    var idx :| IsTopK(scores, k, idx) && r.items == Gather(rows, idx) && r.scores == Gather(scores, idx);
    GatherSubMultiset(rows, idx);
  }

  /** The hybrid result is a reordered sub-list of the lexical shortlist,
      and so of the corpus. */
  lemma HybridSubList(corpus: seq<Entry>, lexical: seq<real>, semantic: string -> real, topK: int)
    requires |lexical| == |corpus|
    ensures multiset(HybridRetrieval(corpus, lexical, semantic, topK).items)
      <= multiset(LexicalRetrieval(corpus, lexical, ShortlistSize).items)
    ensures multiset(HybridRetrieval(corpus, lexical, semantic, topK).items) <= multiset(corpus)
  {
    var shortlist := LexicalRetrieval(corpus, lexical, ShortlistSize);
    SelectedSubList(corpus, lexical, ShortlistSize, shortlist);
    var candidates := shortlist.items;
    SelectedSubList(candidates, Similarities(candidates, semantic), topK, SemanticReranking(candidates, semantic, topK));
  }

  /** When `topK` covers all candidates, reranking only reorders them. */
  lemma RerankingKeepsAll(candidates: seq<Entry>, semantic: string -> real, topK: int)
    requires |candidates| <= topK
    ensures multiset(SemanticReranking(candidates, semantic, topK).items) == multiset(candidates)
  {
    var r := SemanticReranking(candidates, semantic, topK);
    SelectedSubList(candidates, Similarities(candidates, semantic), topK, r);
    var extra := multiset(candidates) - multiset(r.items);
    assert multiset(candidates) == multiset(r.items) + extra;
    assert |extra| == 0;
  }

  /** A row that is certainly shortlisted lexically (fewer than
      `ShortlistSize` other rows score at least as high) and whose question
      beats every other question semantically comes out first. */
  lemma HybridReturnsBestMatch(corpus: seq<Entry>, lexical: seq<real>, semantic: string -> real, topK: int, j: nat)
    requires |lexical| == |corpus| && j < |corpus| && 1 <= topK
    requires |set i: nat | i < |lexical| && i != j && lexical[i] >= lexical[j]| < ShortlistSize
    requires forall i | 0 <= i < |corpus| && i != j :: semantic(corpus[i].question) < semantic(corpus[j].question)
    ensures |HybridRetrieval(corpus, lexical, semantic, topK).items| > 0
    ensures HybridRetrieval(corpus, lexical, semantic, topK).items[0] == corpus[j]
  {
    var idx := TopK(lexical, ShortlistSize);
    ShortlistContains(lexical, ShortlistSize, idx, j);
    var p :| 0 <= p < |idx| && idx[p] == j;
    var shortlist := LexicalRetrieval(corpus, lexical, ShortlistSize);
    assert shortlist.items == Gather(corpus, idx);
    var sims := Similarities(shortlist.items, semantic);
    forall q | 0 <= q < |sims| && q != p ensures sims[q] < sims[p] {
      assert idx[q] != j;
    }
    var order := TopK(sims, topK);
    StrictMaximumFirst(sims, topK, order, p);
  }
}
