/** `evaluate_metrics`: Precision@1, Recall@K and mean reciprocal rank of the
    hybrid pipeline over a labelled query set. Python's floats are modelled
    as exact reals. */
module Evaluation {
  import opened Ranking
  import opened Retrieval

  /** One row of the test set together with the scores the two back-ends
      give its query: a lexical similarity per corpus row and a semantic
      similarity per question text. */
  datatype TestQuery = TestQuery(lexical: seq<real>, semantic: string -> real, relevant: string)

  /** What one query is judged on: the questions retrieved, and its label. */
  datatype Judged = Judged(retrieved: seq<string>, relevant: string)

  datatype MetricReport = MetricReport(precisionAt1: real, recallAtK: real, mrr: real)

  /** What `evaluate_metrics` raises: `IndexError` when the result list of
      the query in row `row` is empty, `ZeroDivisionError` when the test set
      is. */
  datatype EvalError = EmptyRetrievedList(row: nat) | ZeroDivision

  datatype Result<T, E> = Ok(value: T) | Err(error: E)

  /** Every query was scored against this corpus. */
  predicate Aligned(corpus: seq<Entry>, tests: seq<TestQuery>) {
    forall i | 0 <= i < |tests| :: |tests[i].lexical| == |corpus|
  }

  /** `[res['question'] for res in result['results']]`. */
  function Questions(items: seq<Entry>): (qs: seq<string>)
    ensures |qs| == |items|
    ensures forall i | 0 <= i < |items| :: qs[i] == items[i].question
  {
    seq(|items|, i requires 0 <= i < |items| => items[i].question)
  }

  /** The questions the hybrid pipeline retrieves for one test query. */
  function Judge(corpus: seq<Entry>, query: TestQuery, topK: int): Judged
    requires |query.lexical| == |corpus|
  {
    Judged(Questions(HybridRetrieval(corpus, query.lexical, query.semantic, topK).items), query.relevant)
  }

  /** `Judge` over the whole test set, row by row. */
  function Judgements(corpus: seq<Entry>, tests: seq<TestQuery>, topK: int): (js: seq<Judged>)
    requires Aligned(corpus, tests)
    ensures |js| == |tests|
  {
    seq(|tests|, i requires 0 <= i < |tests| && |tests[i].lexical| == |corpus| => Judge(corpus, tests[i], topK))
  }

  /** Row `i` of the judgements is the judgement of test row `i`. */
  lemma JudgementsAt(corpus: seq<Entry>, tests: seq<TestQuery>, topK: int, i: nat)
    requires Aligned(corpus, tests) && i < |tests|
    ensures Judgements(corpus, tests, topK)[i] == Judge(corpus, tests[i], topK)
  {
  }

  /** The 1-based position of the first `relevant` in `retrieved`, or 0 when
      it is absent. */
  function FirstRank(retrieved: seq<string>, relevant: string): (rank: nat)
    ensures rank <= |retrieved|
    ensures rank == 0 <==> relevant !in retrieved
    ensures rank > 0 ==> retrieved[rank - 1] == relevant && relevant !in retrieved[..rank - 1]
  {
    if retrieved == [] then 0
    else if retrieved[0] == relevant then 1
    else
      var rest := FirstRank(retrieved[1..], relevant);
      assert retrieved == [retrieved[0]] + retrieved[1..];
      if rest == 0 then 0
      else
        assert retrieved[..rest] == [retrieved[0]] + retrieved[1..][..rest - 1];
        rest + 1
  }

  /** Precision@1 contribution: the top question is the label. */
  function TopHit(j: Judged): nat
    requires j.retrieved != []
  {
    if j.retrieved[0] == j.relevant then 1 else 0
  }

  /** Recall@K contribution: the label is retrieved at all. */
  function AnyHit(j: Judged): nat {
    if j.relevant in j.retrieved then 1 else 0
  }

  /** MRR contribution: one over the rank of the label, 0 when absent. */
  function ReciprocalRank(j: Judged): real {
    var rank := FirstRank(j.retrieved, j.relevant);
    if rank == 0 then 0.0 else 1.0 / rank as real
  }

  predicate AllRetrieved(js: seq<Judged>) {
    forall i | 0 <= i < |js| :: js[i].retrieved != []
  }

  function TopHits(js: seq<Judged>): nat
    requires AllRetrieved(js)
  {
    if js == [] then 0 else TopHits(js[..|js| - 1]) + TopHit(js[|js| - 1])
  }

  function AnyHits(js: seq<Judged>): nat {
    if js == [] then 0 else AnyHits(js[..|js| - 1]) + AnyHit(js[|js| - 1])
  }

  function ReciprocalRankSum(js: seq<Judged>): real {
    if js == [] then 0.0 else ReciprocalRankSum(js[..|js| - 1]) + ReciprocalRank(js[|js| - 1])
  }

  /** The first row whose result list is empty, or `|js|` when there is none. */
  function FirstEmpty(js: seq<Judged>): (k: nat)
    ensures k <= |js|
    ensures AllRetrieved(js[..k])
    ensures k < |js| ==> js[k].retrieved == []
    ensures k == |js| ==> AllRetrieved(js)
  {
    if js == [] then 0
    else if js[0].retrieved == [] then 0
    else
      var k := FirstEmpty(js[1..]);
      assert js[..k + 1] == [js[0]] + js[1..][..k];
      k + 1
  }

  /** The three means `evaluate_metrics` reports. */
  function Metrics(js: seq<Judged>): MetricReport
    requires |js| > 0 && AllRetrieved(js)
  {
    var n := |js| as real;
    MetricReport(TopHits(js) as real / n, AnyHits(js) as real / n, ReciprocalRankSum(js) / n)
  }

  /** `evaluate_metrics`: runs every test query through the pipeline,
      accumulating hit counts and reciprocal ranks, then divides by the
      number of queries. */
  method EvaluateMetrics(corpus: seq<Entry>, tests: seq<TestQuery>, topK: int) returns (r: Result<MetricReport, EvalError>)
    requires Aligned(corpus, tests)
    ensures var js := Judgements(corpus, tests, topK);
      if FirstEmpty(js) < |js| then r == Err(EmptyRetrievedList(FirstEmpty(js)))
      else if js == [] then r == Err(ZeroDivision)
      else r == Ok(Metrics(js))
  {
    ghost var js := Judgements(corpus, tests, topK);
    var precisionAt1 := 0;
    var recallAtK := 0;
    var mrr := 0.0;
    var i := 0;
    while i < |tests|
      invariant 0 <= i <= |tests|
      invariant Accumulated(js[..i], precisionAt1, recallAtK, mrr)
    {
      var query := tests[i];
      var retrieved := RetrieveQuestions(corpus, tests, topK, i);
      if retrieved == [] {
        // `retrieved_questions[0]` raises IndexError
        FirstEmptyAt(js, i);
        return Err(EmptyRetrievedList(i));
      }
      var top, any, reciprocal := ScoreQuery(retrieved, query.relevant);
      AccumulateRow(js, i, precisionAt1, recallAtK, mrr);
      precisionAt1 := precisionAt1 + top;
      recallAtK := recallAtK + any;
      mrr := mrr + reciprocal;
      i := i + 1;
    }
    if |tests| == 0 {
      return Err(ZeroDivision);
    }
    FinalReport(js, precisionAt1, recallAtK, mrr);
    var n := |tests| as real;
    r := Ok(MetricReport(precisionAt1 as real / n, recallAtK as real / n, mrr / n));
  }

  /** The accumulators hold the sums over the rows `js`, none of which has
      an empty result list. */
  ghost predicate Accumulated(js: seq<Judged>, hits: nat, found: nat, rrSum: real) {
    AllRetrieved(js) && hits == TopHits(js) && found == AnyHits(js) && rrSum == ReciprocalRankSum(js)
  }

  /** Scoring row `i` extends the sums from the rows before it to the rows up
      to it. */
  lemma AccumulateRow(js: seq<Judged>, i: nat, hits: nat, found: nat, rrSum: real)
    requires i < |js| && js[i].retrieved != [] && Accumulated(js[..i], hits, found, rrSum)
    ensures Accumulated(js[..i + 1], hits + TopHit(js[i]), found + AnyHit(js[i]), rrSum + ReciprocalRank(js[i]))
  {
    SumsStep(js[..i], js[i]);
    assert js[..i + 1] == js[..i] + [js[i]];
  }

  /** After the last row, the accumulators give `Metrics`. */
  lemma FinalReport(js: seq<Judged>, hits: nat, found: nat, rrSum: real)
    requires |js| > 0 && Accumulated(js[..|js|], hits, found, rrSum)
    ensures FirstEmpty(js) == |js|
    ensures Metrics(js) == MetricReport(hits as real / |js| as real, found as real / |js| as real, rrSum / |js| as real)
  {
    assert js[..|js|] == js;
    FirstEmptyNone(js);
  }

  /** `hybrid_retrieval` for one test query, reduced to the questions it
      returns. */
  method RetrieveQuestions(corpus: seq<Entry>, tests: seq<TestQuery>, topK: int, i: nat) returns (retrieved: seq<string>)
    requires Aligned(corpus, tests) && i < |tests|
    ensures Judgements(corpus, tests, topK)[i] == Judged(retrieved, tests[i].relevant)
  {
    JudgementsAt(corpus, tests, topK, i);
    var query := tests[i];
    var result := HybridRetrieval(corpus, query.lexical, query.semantic, topK);
    retrieved := Questions(result.items);
  }

  /** What one query with a non-empty result list adds to the three
      accumulators of `evaluate_metrics`. */
  method ScoreQuery(retrieved: seq<string>, relevant: string) returns (top: nat, any: nat, reciprocal: real)
    requires retrieved != []
    ensures top == TopHit(Judged(retrieved, relevant))
    ensures any == AnyHit(Judged(retrieved, relevant))
    ensures reciprocal == ReciprocalRank(Judged(retrieved, relevant))
  {
    top, any := 0, 0;
    if retrieved[0] == relevant {
      top := 1;
    }
    if relevant in retrieved {
      any := 1;
    }
    reciprocal := ReciprocalOfFirstMatch(retrieved, relevant);
  }

  /** The inner loop of `evaluate_metrics`: walks the ranks from 1 and stops
      at the first question equal to the label. */
  method ReciprocalOfFirstMatch(retrieved: seq<string>, relevant: string) returns (reciprocal: real)
    ensures reciprocal == ReciprocalRank(Judged(retrieved, relevant))
  {
    reciprocal := 0.0;
    var rank := 1;
    while rank <= |retrieved|
      invariant 1 <= rank <= |retrieved| + 1
      invariant relevant !in retrieved[..rank - 1]
    {
      if retrieved[rank - 1] == relevant {
        FirstRankAt(retrieved, relevant, rank);
        reciprocal := 1.0 / rank as real;
        break;
      }
      AbsentFurther(retrieved, relevant, rank);
      rank := rank + 1;
    }
    assert reciprocal == 0.0 ==> retrieved[..rank - 1] == retrieved;
  }

  /** The first empty row is `i` when the rows before it are not empty and
      row `i` is. */
  lemma FirstEmptyAt(js: seq<Judged>, i: nat)
    requires i < |js| && AllRetrieved(js[..i]) && js[i].retrieved == []
    ensures FirstEmpty(js) == i
  {
    var k := FirstEmpty(js);
    assert forall p | 0 <= p < i :: js[..i][p] == js[p];
    assert forall p | 0 <= p < k :: js[..k][p] == js[p];
  }

  /** A position holding the label with no label before it is the first
      rank. */
  lemma FirstRankAt(retrieved: seq<string>, relevant: string, rank: nat)
    requires 1 <= rank <= |retrieved| && retrieved[rank - 1] == relevant
    requires relevant !in retrieved[..rank - 1]
    ensures FirstRank(retrieved, relevant) == rank
  {
    var f := FirstRank(retrieved, relevant);
    assert forall p | 0 <= p < rank - 1 :: retrieved[p] == retrieved[..rank - 1][p];
    assert forall p | 0 <= p < f - 1 :: retrieved[p] == retrieved[..f - 1][p];
  }

  lemma AbsentFurther(retrieved: seq<string>, relevant: string, rank: nat)
    requires 1 <= rank <= |retrieved| && retrieved[rank - 1] != relevant
    requires relevant !in retrieved[..rank - 1]
    ensures relevant !in retrieved[..rank]
  {
    assert retrieved[..rank] == retrieved[..rank - 1] + [retrieved[rank - 1]];
  }

  /** Appending a row adds that row's contributions. */
  lemma SumsStep(js: seq<Judged>, row: Judged)
    requires AllRetrieved(js) && row.retrieved != []
    ensures AllRetrieved(js + [row])
    ensures TopHits(js + [row]) == TopHits(js) + TopHit(row)
    ensures AnyHits(js + [row]) == AnyHits(js) + AnyHit(row)
    ensures ReciprocalRankSum(js + [row]) == ReciprocalRankSum(js) + ReciprocalRank(row)
  {
    assert (js + [row])[..|js|] == js;
  }

  /** No row is empty, so the first empty row is past the end. */
  lemma FirstEmptyNone(js: seq<Judged>)
    requires AllRetrieved(js)
    ensures FirstEmpty(js) == |js|
  {
    if FirstEmpty(js) < |js| {
      assert false;
    }
  }

  /** One query adds at most as much to Precision@1 as to MRR, and at most
      as much to MRR as to Recall@K, which adds 0 or 1. */
  lemma ContributionsOrdered(j: Judged)
    requires j.retrieved != []
    ensures 0.0 <= TopHit(j) as real <= ReciprocalRank(j) <= AnyHit(j) as real <= 1.0
    ensures ReciprocalRank(j) > 0.0 <==> j.relevant in j.retrieved
  {
    var rank := FirstRank(j.retrieved, j.relevant);
    if j.retrieved[0] == j.relevant {
      assert rank == 1;
    } else if rank > 0 {
      assert 1.0 / rank as real <= 1.0;
    }
  }

  lemma {:induction false} SumsOrdered(js: seq<Judged>)
    requires AllRetrieved(js)
    ensures 0.0 <= TopHits(js) as real <= ReciprocalRankSum(js) <= AnyHits(js) as real <= |js| as real
  {
    if js != [] {
      var front := js[..|js| - 1];
      assert AllRetrieved(front);
      SumsOrdered(front);
      ContributionsOrdered(js[|js| - 1]);
    }
  }

  /** 0 <= Precision@1 <= MRR <= Recall@K <= 1. */
  lemma MetricsOrdered(js: seq<Judged>)
    requires |js| > 0 && AllRetrieved(js)
    ensures 0.0 <= Metrics(js).precisionAt1 <= Metrics(js).mrr <= Metrics(js).recallAtK <= 1.0
  {
    SumsOrdered(js);
    FractionsOrdered(TopHits(js) as real, ReciprocalRankSum(js), AnyHits(js) as real, |js| as real);
  }

  /** Dividing by a positive count keeps the order of values between 0 and
      that count, and brings them between 0 and 1. */
  lemma FractionsOrdered(a: real, b: real, c: real, n: real)
    requires 0.0 <= a <= b <= c <= n && n > 0.0
    ensures 0.0 <= a / n <= b / n <= c / n <= 1.0
  {
    assert a / n >= 0.0;
    assert b / n - a / n == (b - a) / n;
    assert c / n - b / n == (c - b) / n;
    assert n / n - c / n == (n - c) / n;
  }

  /** Precision@1 counts exactly the queries whose top question is the label. */
  lemma {:induction false} TopHitsCount(js: seq<Judged>)
    requires AllRetrieved(js)
    ensures TopHits(js) == |set i | 0 <= i < |js| && js[i].retrieved[0] == js[i].relevant|
  {
    if js != [] {
      var n := |js| - 1;
      var front := js[..n];
      assert AllRetrieved(front);
      TopHitsCount(front);
      var before := set i | 0 <= i < n && front[i].retrieved[0] == front[i].relevant;
      var after := set i | 0 <= i < |js| && js[i].retrieved[0] == js[i].relevant;
      if js[n].retrieved[0] == js[n].relevant {
        assert after == before + {n};
      } else {
        assert after == before;
      }
    }
  }

  /** Recall@K counts exactly the queries whose label is retrieved at all. */
  lemma {:induction false} AnyHitsCount(js: seq<Judged>)
    ensures AnyHits(js) == |set i | 0 <= i < |js| && js[i].relevant in js[i].retrieved|
  {
    if js != [] {
      var n := |js| - 1;
      var front := js[..n];
      AnyHitsCount(front);
      var before := set i | 0 <= i < n && front[i].relevant in front[i].retrieved;
      var after := set i | 0 <= i < |js| && js[i].relevant in js[i].retrieved;
      if js[n].relevant in js[n].retrieved {
        assert after == before + {n};
      } else {
        assert after == before;
      }
    }
  }

  /** A label that no query retrieves contributes nothing: labels that match
      no corpus question silently pull every metric towards 0. */
  lemma {:induction false} UnmatchedLabelsScoreZero(js: seq<Judged>)
    requires AllRetrieved(js)
    requires forall i | 0 <= i < |js| :: js[i].relevant !in js[i].retrieved
    ensures TopHits(js) == 0 && AnyHits(js) == 0 && ReciprocalRankSum(js) == 0.0
  {
    if js != [] {
      var front := js[..|js| - 1];
      assert AllRetrieved(front);
      UnmatchedLabelsScoreZero(front);
      assert js[|js| - 1].retrieved[0] in js[|js| - 1].retrieved;
    }
  }

  /** With a non-empty corpus and `topK` at least 1 every query retrieves
      something, so `evaluate_metrics` never raises IndexError. */
  lemma NoIndexErrorWithResults(corpus: seq<Entry>, tests: seq<TestQuery>, topK: int)
    requires Aligned(corpus, tests) && |corpus| > 0 && 1 <= topK
    ensures AllRetrieved(Judgements(corpus, tests, topK))
    ensures FirstEmpty(Judgements(corpus, tests, topK)) == |tests|
  {
    var js := Judgements(corpus, tests, topK);
    forall i | 0 <= i < |js| ensures js[i].retrieved != [] {
      JudgementsAt(corpus, tests, topK, i);
    }
    FirstEmptyNone(js);
  }

  /** With `topK` 0 every result list is empty, so the first query raises
      IndexError. */
  lemma ZeroTopKRaisesIndexError(corpus: seq<Entry>, tests: seq<TestQuery>)
    requires Aligned(corpus, tests) && |tests| > 0
    ensures FirstEmpty(Judgements(corpus, tests, 0)) == 0
  {
    JudgementsAt(corpus, tests, 0, 0);
    FirstEmptyAt(Judgements(corpus, tests, 0), 0);
  }
}
