/**
 * `EvaluationAgent` (src/agents/eval_agent.py): the retrieval metrics of
 * `evaluate_resources` and the legacy roadmap score of `evaluate`. Scores are
 * exact reals; `sklearn.metrics.ndcg_score` is an oracle that may raise.
 */
module EvalAgent {
  import opened Models
  import opened Text

  /** The ground truth handed to `evaluate_resources`: a list of ids (with
      `in` and `len` of a list) or the keys of a relevance dictionary. */
  datatype Relevance = RelevantList(items: seq<string>) | RelevantKeys(keys: set<string>)

  /** `x in relevant`. */
  predicate Contains(rel: Relevance, x: string) {
    match rel
    case RelevantList(items) => x in items
    case RelevantKeys(keys) => x in keys
  }

  /** `len(relevant)`: a list counts its duplicates, a dictionary its keys. */
  function Size(rel: Relevance): nat {
    match rel
    case RelevantList(items) => |items|
    case RelevantKeys(keys) => |keys|
  }

  /** `sklearn.metrics.ndcg_score([ideal], [scores], k=k)`, or `None` when it raises. */
  type NdcgScorer = (seq<int>, seq<int>, int) -> Option<real>

  /** What `evaluate_resources` computes: the returned `recall@k` and `ndcg@k`
      together with the intermediate top-k list, hit count and vectors. */
  datatype RetrievalScores = RetrievalScores(
    topK: seq<string>, hits: nat, recall: real,
    relevance: seq<int>, ideal: seq<int>, ndcg: real)

  /** `sum(1 for res in xs if res in relevant)`. */
  function CountRelevant(xs: seq<string>, rel: Relevance): (n: nat)
    ensures n <= |xs|
  {
    if |xs| == 0 then 0
    else (if Contains(rel, xs[0]) then 1 else 0) + CountRelevant(xs[1..], rel)
  }

  /** The 1/0 flag per element: `[1 if res in relevant else 0 for res in xs]`. */
  function RelevanceFlags(xs: seq<string>, rel: Relevance): (r: seq<int>)
    ensures |r| == |xs|
    ensures forall i :: 0 <= i < |xs| ==> r[i] == if Contains(rel, xs[i]) then 1 else 0
  {
    seq(|xs|, i requires 0 <= i < |xs| => if Contains(rel, xs[i]) then 1 else 0)
  }

  function SumInts(xs: seq<int>): int {
    if |xs| == 0 then 0 else xs[0] + SumInts(xs[1..])
  }

  function Min(a: int, b: int): int { if a <= b then a else b }

  /** `evaluate_resources(retrieved, relevant, k)`. */
  function EvaluateResources(retrieved: seq<string>, relevant: Relevance, k: int, ndcgScore: NdcgScorer): (r: RetrievalScores)
    // recall is hits over the size of the ground truth, 0.0 for an empty one
    ensures Size(relevant) == 0 ==> r.recall == 0.0
    ensures Size(relevant) > 0 ==> r.recall == r.hits as real / Size(relevant) as real
    // the top-k list and the hits within it
    ensures r.topK <= retrieved
    ensures k >= 0 ==> |r.topK| == Min(k, |retrieved|)
    ensures r.hits <= |r.topK|
    // exactly k relevance entries (for k >= 0): a 1/0 flag per top-k position, then zeros
    ensures k >= 0 ==> |r.relevance| == k
    ensures forall i :: 0 <= i < |r.relevance| ==>
              r.relevance[i] == (if i < |r.topK| && Contains(relevant, r.topK[i]) then 1 else 0)
    // the ideal vector: min(k, |relevant|) ones, then zeros up to k
    ensures k >= 0 ==> |r.ideal| == k
    ensures forall i :: 0 <= i < |r.ideal| ==> r.ideal[i] == (if i < Min(k, Size(relevant)) then 1 else 0)
    // the NDCG is the scorer's answer, 0.0 when it raises
    ensures r.ndcg == (match ndcgScore(r.ideal, r.relevance, k) case Some(v) => v case None => 0.0)
  {
    var topK := Take(retrieved, k);
    var hits := CountRelevant(topK, relevant);
    var total := Size(relevant);
    var recall := if total > 0 then hits as real / total as real else 0.0;
    var flags := RelevanceFlags(topK, relevant);
    var relevance := if |flags| < k then flags + Repeat(0, k - |flags|) else flags;
    var m := Min(k, total);
    var ideal := Repeat(1, m) + Repeat(0, k - m);
    var ndcg := match ndcgScore(ideal, relevance, k) case Some(v) => v case None => 0.0;
    RetrievalScores(topK, hits, recall, relevance, ideal, ndcg)
  }

  /** The hit count is the number of ones in the relevance vector. */
  lemma {:induction false} HitsAreRelevanceOnes(retrieved: seq<string>, relevant: Relevance, k: int, ndcgScore: NdcgScorer)
    ensures var r := EvaluateResources(retrieved, relevant, k, ndcgScore);
            r.hits == SumInts(r.relevance)
  {
    var r := EvaluateResources(retrieved, relevant, k, ndcgScore);
    var flags := RelevanceFlags(r.topK, relevant);
    CountIsFlagSum(r.topK, relevant);
    if |flags| < k {
      SumAppend(flags, Repeat(0, k - |flags|));
      SumZeros(Repeat(0, k - |flags|));
    }
  }

  lemma {:induction false} CountIsFlagSum(xs: seq<string>, rel: Relevance)
    ensures CountRelevant(xs, rel) == SumInts(RelevanceFlags(xs, rel))
  {
    if |xs| > 0 {
      CountIsFlagSum(xs[1..], rel);
      assert RelevanceFlags(xs, rel)[1..] == RelevanceFlags(xs[1..], rel);
    }
  }

  lemma {:induction false} SumAppend(a: seq<int>, b: seq<int>)
    ensures SumInts(a + b) == SumInts(a) + SumInts(b)
  {
    if |a| == 0 {
      assert a + b == b;
    } else {
      assert (a + b)[1..] == a[1..] + b;
      SumAppend(a[1..], b);
    }
  }

  lemma {:induction false} SumZeros(a: seq<int>)
    requires forall i :: 0 <= i < |a| ==> a[i] == 0
    ensures SumInts(a) == 0
  {
    if |a| > 0 {
      SumZeros(a[1..]);
    }
  }

  /** The distinct elements of `xs` that are relevant. */
  function RelevantSet(xs: seq<string>, rel: Relevance): set<string> {
    set x | x in xs && Contains(rel, x)
  }

  /** Without repeated ids in the ranking, the hits are distinct relevant
      ids, so they never outnumber the ground truth: recall is at most 1 and
      the relevance vector has no more ones than the ideal vector (for a
      non-negative `k`; a negative `k` empties the ideal vector while
      `retrieved[:k]` still keeps items). */
  lemma {:induction false} RecallAtMostOne(retrieved: seq<string>, relevant: Relevance, k: int, ndcgScore: NdcgScorer)
    requires forall i, j :: 0 <= i < j < |retrieved| ==> retrieved[i] != retrieved[j]
    ensures var r := EvaluateResources(retrieved, relevant, k, ndcgScore);
            && r.hits <= Size(relevant)
            && 0.0 <= r.recall <= 1.0
            && (k >= 0 ==> SumInts(r.relevance) <= SumInts(r.ideal))
  {
    var r := EvaluateResources(retrieved, relevant, k, ndcgScore);
    HitsAtMostRelevant(retrieved, relevant, k, ndcgScore);
    if Size(relevant) > 0 {
      Ratio(r.hits, Size(relevant));
    }
    HitsAreRelevanceOnes(retrieved, relevant, k, ndcgScore);
    IdealOnes(k, Size(relevant));
  }

  /** A prefix of a ranking without repeats has none either. */
  lemma PrefixDistinct(xs: seq<string>, p: seq<string>)
    requires p <= xs
    requires forall i, j :: 0 <= i < j < |xs| ==> xs[i] != xs[j]
    ensures forall i, j :: 0 <= i < j < |p| ==> p[i] != p[j]
  {
    assert forall i :: 0 <= i < |p| ==> p[i] == xs[i];
  }

  lemma HitsAtMostRelevant(retrieved: seq<string>, relevant: Relevance, k: int, ndcgScore: NdcgScorer)
    requires forall i, j :: 0 <= i < j < |retrieved| ==> retrieved[i] != retrieved[j]
    ensures EvaluateResources(retrieved, relevant, k, ndcgScore).hits <= Size(relevant)
  {
    var topK := EvaluateResources(retrieved, relevant, k, ndcgScore).topK;
    PrefixDistinct(retrieved, topK);
    DistinctCount(topK, relevant);
    RelevantSetBound(topK, relevant);
  }

  lemma Ratio(a: nat, b: nat)
    requires 0 < b && a <= b
    ensures 0.0 <= a as real / b as real <= 1.0
  {
  }

  /** For a ranking without repeats, the hit count is the number of
      distinct relevant ids. */
  lemma {:induction false} DistinctCount(xs: seq<string>, rel: Relevance)
    requires forall i, j :: 0 <= i < j < |xs| ==> xs[i] != xs[j]
    ensures CountRelevant(xs, rel) == |RelevantSet(xs, rel)|
  {
    if |xs| > 0 {
      DistinctCount(xs[1..], rel);
      var rest := RelevantSet(xs[1..], rel);
      assert xs[0] !in xs[1..] by {
        forall j | 0 <= j < |xs[1..]| ensures xs[1..][j] != xs[0] {
          assert xs[1..][j] == xs[j + 1];
        }
      }
      RelevantSetCons(xs, rel);
      assert xs[0] !in rest;
    }
  }

  lemma RelevantSetCons(xs: seq<string>, rel: Relevance)
    requires |xs| > 0
    ensures RelevantSet(xs, rel) ==
              RelevantSet(xs[1..], rel) + (if Contains(rel, xs[0]) then {xs[0]} else {})
  {
    var rhs := RelevantSet(xs[1..], rel) + (if Contains(rel, xs[0]) then {xs[0]} else {});
    forall x
      ensures x in RelevantSet(xs, rel) <==> x in rhs
    {
      assert x in xs <==> x == xs[0] || x in xs[1..] by {
        assert xs == [xs[0]] + xs[1..];
      }
    }
  }

  /** The relevant ids of a ranking are among the ground truth. */
  lemma RelevantSetBound(xs: seq<string>, rel: Relevance)
    ensures |RelevantSet(xs, rel)| <= Size(rel)
  {
    match rel
    case RelevantKeys(keys) =>
      assert RelevantSet(xs, rel) <= keys;
      SubsetCard(RelevantSet(xs, rel), keys);
    case RelevantList(items) =>
      assert RelevantSet(xs, rel) <= set x | x in items;
      SubsetCard(RelevantSet(xs, rel), set x | x in items);
      SeqSetCard(items);
  }

  lemma SubsetCard<T>(a: set<T>, b: set<T>)
    requires a <= b
    ensures |a| <= |b|
  {
    assert b == a + (b - a);
  }

  lemma {:induction false} SeqSetCard<T>(s: seq<T>)
    ensures |set x | x in s| <= |s|
  {
    if |s| > 0 {
      SeqSetCard(s[1..]);
      assert (set x | x in s) == (set x | x in s[1..]) + {s[0]};
    } else {
      assert (set x | x in s) == {};
    }
  }

  lemma {:induction false} IdealOnes(k: int, total: nat)
    ensures SumInts(Repeat(1, Min(k, total)) + Repeat(0, k - Min(k, total)))
            == (if Min(k, total) > 0 then Min(k, total) else 0)
  {
    SumAppend(Repeat(1, Min(k, total)), Repeat(0, k - Min(k, total)));
    SumZeros(Repeat(0, k - Min(k, total)));
    SumOnes(Min(k, total));
  }

  lemma {:induction false} SumOnes(n: int)
    ensures SumInts(Repeat(1, n)) == if n > 0 then n else 0
    decreases if n > 0 then n else 0
  {
    if n > 0 {
      SumOnes(n - 1);
      assert Repeat(1, n)[1..] == Repeat(1, n - 1);
    }
  }

  /** The worked example: three retrieved ids, one of them relevant, k = 5. */
  lemma ExampleSingleRelevant(ndcgScore: NdcgScorer)
    ensures var r := EvaluateResources(["A", "B", "C"], RelevantKeys({"A"}), 5, ndcgScore);
            && r.recall == 1.0
            && r.relevance == [1, 0, 0, 0, 0]
            && r.ideal == [1, 0, 0, 0, 0]
  {
    var r := EvaluateResources(["A", "B", "C"], RelevantKeys({"A"}), 5, ndcgScore);
    assert |{"A"}| == 1;
    assert Contains(RelevantKeys({"A"}), "A");
    assert !Contains(RelevantKeys({"A"}), "B");
    assert !Contains(RelevantKeys({"A"}), "C");
  }

  /** The result of the legacy `evaluate`. */
  datatype Report = Report(score: real, feedback: string, nodeCount: nat, resourceCount: nat)

  const Good: string := "Roadmap looks good."
  const Short: string := "Roadmap is a bit short."
  const Empty: string := "No resources found for any topic."

  /** Topics below this count cost 0.2 of the score. */
  const MinNodes: nat := 3

  /** `sum(len(node.resources) for node in nodes)`. */
  function ResourceCount(nodes: seq<RoadmapNode>): nat {
    if |nodes| == 0 then 0 else |nodes[0].resources| + ResourceCount(nodes[1..])
  }

  /** No resources at all exactly when every node has an empty list. */
  lemma {:induction false} ResourceCountZero(nodes: seq<RoadmapNode>)
    ensures ResourceCount(nodes) == 0 <==> forall i :: 0 <= i < |nodes| ==> nodes[i].resources == []
  {
    if |nodes| > 0 {
      ResourceCountZero(nodes[1..]);
      assert forall i :: 1 <= i < |nodes| ==> nodes[i] == nodes[1..][i - 1];
    }
  }

  lemma {:induction false} ResourceCountBound(nodes: seq<RoadmapNode>, bound: int)
    requires bound >= 0
    requires forall i :: 0 <= i < |nodes| ==> |nodes[i].resources| <= bound
    ensures ResourceCount(nodes) <= bound * |nodes|
  {
    if |nodes| > 0 {
      ResourceCountBound(nodes[1..], bound);
    }
  }

  /** `evaluate(roadmap)`: start from 1.0 and "looks good", deduct 0.2 for a
      short roadmap and 0.5 for one without resources; the missing-resources
      message takes precedence over the short-roadmap one. */
  function Evaluate(roadmap: RoadmapResponse): (r: Report)
    ensures r.nodeCount == |roadmap.nodes|
    ensures r.resourceCount == 0 <==> forall i :: 0 <= i < |roadmap.nodes| ==> roadmap.nodes[i].resources == []
    ensures r.score == 1.0 - (if r.nodeCount < MinNodes then 0.2 else 0.0)
                           - (if r.resourceCount == 0 then 0.5 else 0.0)
    ensures r.resourceCount == 0 ==> r.feedback == Empty
    ensures r.resourceCount > 0 && r.nodeCount < MinNodes ==> r.feedback == Short
    ensures r.resourceCount > 0 && r.nodeCount >= MinNodes ==> r.feedback == Good
    ensures 0.3 <= r.score <= 1.0
  {
    ResourceCountZero(roadmap.nodes);
    var nodeCount := |roadmap.nodes|;
    var resourceCount := ResourceCount(roadmap.nodes);
    var shortScore := if nodeCount < MinNodes then 1.0 - 0.2 else 1.0;
    var shortFeedback := if nodeCount < MinNodes then Short else Good;
    var score := if resourceCount == 0 then shortScore - 0.5 else shortScore;
    var feedback := if resourceCount == 0 then Empty else shortFeedback;
    Report(score, feedback, nodeCount, resourceCount)
  }
}
