/**
 * The offline retrieval metrics of scripts/evaluation/evaluate_retrieval.py:
 * `dcg_at_k`, `ndcg_at_k` and the per-query recall and NDCG over the ids of
 * the resources `find_resources` returned.
 *
 * The discount `1 / log2(i + 2)` is kept abstract: any positive, strictly
 * decreasing function of the rank.
 */
module RetrievalMetrics {
  import opened Models
  import opened Text
  import ResourceAgent

  /** Ranking cut-off used by the evaluation. */
  const TopK: int := 5

  /** The properties of `1 / log2(i + 2)` the metrics rely on. */
  ghost predicate ValidDiscount(disc: nat -> real) {
    && (forall i: nat :: 0.0 < disc(i))
    && (forall i: nat, j: nat :: i < j ==> disc(j) < disc(i))
  }

  /** `sum(rel * disc(o + j) for j, rel in enumerate(r))`. */
  function DiscountedSum(r: seq<real>, o: nat, disc: nat -> real): real
    decreases |r|
  {
    if |r| == 0 then 0.0 else r[0] * disc(o) + DiscountedSum(r[1..], o + 1, disc)
  }

  /** `dcg_at_k(r, k)`: the discounted sum of `r[:k]`, `0.0` for an empty cut. */
  function Dcg(r: seq<real>, k: int, disc: nat -> real): real {
    var cut := Take(r, k);
    if |cut| > 0 then DiscountedSum(cut, 0, disc) else 0.0
  }

  /** `sorted(r, reverse=True)`, by insertion. */
  function SortDesc(r: seq<real>): (s: seq<real>)
    ensures |s| == |r|
  {
    if |r| == 0 then [] else Insert(r[0], SortDesc(r[1..]))
  }

  predicate SortedDesc(s: seq<real>) {
    forall i, j :: 0 <= i < j < |s| ==> s[i] >= s[j]
  }

  /** Puts `x` before the first element it is not below. */
  function Insert(x: real, s: seq<real>): (t: seq<real>)
    ensures |t| == |s| + 1
  {
    if |s| == 0 || x >= s[0] then [x] + s
    else [s[0]] + Insert(x, s[1..])
  }

  lemma {:induction false} InsertPermutes(x: real, s: seq<real>)
    ensures multiset(Insert(x, s)) == multiset(s) + multiset{x}
    decreases |s|
  {
    if |s| > 0 && x < s[0] {
      InsertPermutes(x, s[1..]);
      assert s == [s[0]] + s[1..];
    }
  }

  /** Inserting a value below a bound into a list below the bound keeps
      every element below it. */
  lemma {:induction false} InsertBounded(x: real, s: seq<real>, b: real)
    requires x <= b
    requires forall i :: 0 <= i < |s| ==> s[i] <= b
    ensures forall i :: 0 <= i < |Insert(x, s)| ==> Insert(x, s)[i] <= b
    decreases |s|
  {
    if |s| > 0 && x < s[0] {
      InsertBounded(x, s[1..], b);
      var t := Insert(x, s);
      forall i | 0 <= i < |t|
        ensures t[i] <= b
      {
        if i > 0 {
          assert t[i] == Insert(x, s[1..])[i - 1];
        }
      }
    }
  }

  lemma {:induction false} InsertSorted(x: real, s: seq<real>)
    requires SortedDesc(s)
    ensures SortedDesc(Insert(x, s))
    decreases |s|
  {
    if |s| > 0 && x < s[0] {
      var rest := Insert(x, s[1..]);
      InsertSorted(x, s[1..]);
      InsertBounded(x, s[1..], s[0]);
      var t := [s[0]] + rest;
      forall i, j | 0 <= i < j < |t|
        ensures t[i] >= t[j]
      {
        assert t[j] == rest[j - 1];
        if i > 0 {
          assert t[i] == rest[i - 1];
        }
      }
    }
  }

  /** The sorted gains are a permutation of the gains. */
  lemma {:induction false} SortDescPermutes(r: seq<real>)
    ensures multiset(SortDesc(r)) == multiset(r)
  {
    if |r| > 0 {
      SortDescPermutes(r[1..]);
      InsertPermutes(r[0], SortDesc(r[1..]));
      assert r == [r[0]] + r[1..];
    }
  }

  /** The sorted gains are in descending order. */
  lemma {:induction false} SortDescSorted(r: seq<real>)
    ensures SortedDesc(SortDesc(r))
  {
    if |r| > 0 {
      SortDescSorted(r[1..]);
      InsertSorted(r[0], SortDesc(r[1..]));
    }
  }

  /** `ndcg_at_k(r, k)`: the DCG over the DCG of the same gains sorted in
      descending order, `0.0` when that ideal DCG is zero. */
  function Ndcg(r: seq<real>, k: int, disc: nat -> real): real {
    var ideal := Dcg(SortDesc(r), k, disc);
    if ideal == 0.0 then 0.0 else Dcg(r, k, disc) / ideal
  }

  // ---------------------------------------------------------------------
  // Rearrangement: sorting the gains in descending order never lowers the
  // DCG at a non-negative cut-off.
  // ---------------------------------------------------------------------

  /** The weight of rank `p` under cut-off `k`. */
  function Weight(k: int, p: nat, disc: nat -> real): real {
    if p < k then disc(p) else 0.0
  }

  /** `sum(r[j] * Weight(k, o + j))`: the DCG with the cut-off folded into
      the weights. */
  function WeightedSum(r: seq<real>, o: nat, k: int, disc: nat -> real): real
    decreases |r|
  {
    if |r| == 0 then 0.0 else r[0] * Weight(k, o, disc) + WeightedSum(r[1..], o + 1, k, disc)
  }

  lemma {:induction false} WeightsNonIncreasing(k: int, p: nat, disc: nat -> real)
    requires ValidDiscount(disc)
    ensures 0.0 <= Weight(k, p + 1, disc) <= Weight(k, p, disc)
  {
    assert 0.0 < disc(p + 1) && disc(p + 1) < disc(p);
  }

  lemma {:induction false} WeightedSumPastCutoff(r: seq<real>, o: nat, k: int, disc: nat -> real)
    requires o >= k
    ensures WeightedSum(r, o, k, disc) == 0.0
    decreases |r|
  {
    if |r| > 0 {
      WeightedSumPastCutoff(r[1..], o + 1, k, disc);
    }
  }

  /** Folding the cut-off into the weights gives the DCG of the cut list. */
  lemma {:induction false} WeightedSumIsCutSum(r: seq<real>, o: nat, k: int, disc: nat -> real)
    requires o <= k
    ensures WeightedSum(r, o, k, disc)
            == DiscountedSum(r[..if |r| <= k - o then |r| else k - o], o, disc)
    decreases |r|
  {
    var m := if |r| <= k - o then |r| else k - o;
    if |r| == 0 {
    } else if o == k {
      WeightedSumPastCutoff(r, o, k, disc);
    } else {
      WeightedSumIsCutSum(r[1..], o + 1, k, disc);
      assert r[..m][1..] == r[1..][..m - 1];
    }
  }

  lemma {:induction false} DcgIsWeightedSum(r: seq<real>, k: int, disc: nat -> real)
    requires k >= 0
    ensures Dcg(r, k, disc) == WeightedSum(r, 0, k, disc)
  {
    WeightedSumIsCutSum(r, 0, k, disc);
    assert r[..|r|] == r;
    if |Take(r, k)| == 0 {
      assert DiscountedSum(r[..0], 0, disc) == 0.0;
    }
  }

  lemma MulNonNeg(a: real, b: real)
    requires a >= 0.0 && b >= 0.0
    ensures a * b >= 0.0
  {
  }

  lemma {:induction false} WeightedSumCons(a: real, t: seq<real>, o: nat, k: int, disc: nat -> real)
    ensures WeightedSum([a] + t, o, k, disc) == a * Weight(k, o, disc) + WeightedSum(t, o + 1, k, disc)
  {
    assert ([a] + t)[0] == a;
    assert ([a] + t)[1..] == t;
  }

  /** Exchanging an adjacent pair into descending order never lowers the sum. */
  lemma SwapRaises(x: real, y: real, w0: real, w1: real)
    requires x < y && w1 <= w0
    ensures x * w0 + y * w1 <= y * w0 + x * w1
  {
    MulNonNeg(y - x, w0 - w1);
  }

  /** Moving `x` past larger elements never lowers the weighted sum. */
  lemma {:induction false} InsertRaises(x: real, s: seq<real>, o: nat, k: int, disc: nat -> real)
    requires ValidDiscount(disc)
    ensures WeightedSum([x] + s, o, k, disc) <= WeightedSum(Insert(x, s), o, k, disc)
    decreases |s|
  {
    if |s| == 0 || x >= s[0] {
    } else {
      var y := s[0];
      var t := s[1..];
      assert s == [y] + t;
      var w0 := Weight(k, o, disc);
      var w1 := Weight(k, o + 1, disc);
      var rest := WeightedSum(t, o + 2, k, disc);
      WeightsNonIncreasing(k, o, disc);
      WeightedSumCons(x, s, o, k, disc);
      WeightedSumCons(y, t, o + 1, k, disc);
      assert WeightedSum([x] + s, o, k, disc) == x * w0 + (y * w1 + rest);
      WeightedSumCons(x, t, o + 1, k, disc);
      WeightedSumCons(y, [x] + t, o, k, disc);
      assert WeightedSum([y] + ([x] + t), o, k, disc) == y * w0 + (x * w1 + rest);
      SwapRaises(x, y, w0, w1);
      InsertRaises(x, t, o + 1, k, disc);
      assert Insert(x, s) == [y] + Insert(x, t);
      WeightedSumCons(y, Insert(x, t), o, k, disc);
    }
  }

  /** The rearrangement bound: the descending order maximises the weighted sum. */
  lemma {:induction false} SortRaises(r: seq<real>, o: nat, k: int, disc: nat -> real)
    requires ValidDiscount(disc)
    ensures WeightedSum(r, o, k, disc) <= WeightedSum(SortDesc(r), o, k, disc)
    decreases |r|
  {
    if |r| > 0 {
      var sorted := SortDesc(r[1..]);
      var w := r[0] * Weight(k, o, disc);
      SortRaises(r[1..], o + 1, k, disc);
      assert WeightedSum(r, o, k, disc) == w + WeightedSum(r[1..], o + 1, k, disc);
      WeightedSumCons(r[0], sorted, o, k, disc);
      assert WeightedSum(r, o, k, disc) <= WeightedSum([r[0]] + sorted, o, k, disc);
      InsertRaises(r[0], sorted, o, k, disc);
      assert SortDesc(r) == Insert(r[0], sorted);
    }
  }

  /** Sorting the gains in descending order never lowers the DCG. */
  lemma DcgAtMostIdeal(r: seq<real>, k: int, disc: nat -> real)
    requires ValidDiscount(disc)
    requires k >= 0
    ensures Dcg(r, k, disc) <= Dcg(SortDesc(r), k, disc)
  {
    DcgIsWeightedSum(r, k, disc);
    DcgIsWeightedSum(SortDesc(r), k, disc);
    SortRaises(r, 0, k, disc);
  }

  lemma {:induction false} WeightedSumNonNeg(r: seq<real>, o: nat, k: int, disc: nat -> real)
    requires ValidDiscount(disc)
    requires forall i :: 0 <= i < |r| ==> r[i] >= 0.0
    ensures WeightedSum(r, o, k, disc) >= 0.0
    decreases |r|
  {
    if |r| > 0 {
      WeightsNonIncreasing(k, o, disc);
      MulNonNeg(r[0], Weight(k, o, disc));
      WeightedSumNonNeg(r[1..], o + 1, k, disc);
    }
  }

  /** For non-negative gains and a non-negative cut-off the NDCG lies in [0, 1]. */
  lemma NdcgInUnitInterval(r: seq<real>, k: int, disc: nat -> real)
    requires ValidDiscount(disc)
    requires k >= 0
    requires forall i :: 0 <= i < |r| ==> r[i] >= 0.0
    ensures 0.0 <= Ndcg(r, k, disc) <= 1.0
  {
    var dcg := Dcg(r, k, disc);
    var ideal := Dcg(SortDesc(r), k, disc);
    DcgAtMostIdeal(r, k, disc);
    DcgIsWeightedSum(r, k, disc);
    WeightedSumNonNeg(r, 0, k, disc);
    if ideal != 0.0 {
      assert 0.0 <= dcg <= ideal;
      DivAtMostOne(dcg, ideal);
    }
  }

  lemma DivAtMostOne(a: real, b: real)
    requires 0.0 <= a <= b && b > 0.0
    ensures 0.0 <= a / b <= 1.0
  {
  }

  /** Sorting a list already in descending order leaves it unchanged. */
  lemma {:induction false} SortOfSorted(r: seq<real>)
    requires SortedDesc(r)
    ensures SortDesc(r) == r
  {
    if |r| > 0 {
      SortOfSorted(r[1..]);
      assert r == [r[0]] + r[1..];
    }
  }

  /** A ranking already in descending order with a positive gain has NDCG 1
      at any positive cut-off. */
  lemma NdcgOfIdealRanking(r: seq<real>, k: int, disc: nat -> real)
    requires ValidDiscount(disc)
    requires k >= 1
    requires SortedDesc(r)
    requires forall i :: 0 <= i < |r| ==> r[i] >= 0.0
    requires exists i :: 0 <= i < |r| && r[i] > 0.0
    ensures Ndcg(r, k, disc) == 1.0
  {
    SortOfSorted(r);
    LeadingGainPositive(r);
    DcgPositive(r, k, disc);
    SelfRatio(Dcg(r, k, disc));
  }

  lemma LeadingGainPositive(r: seq<real>)
    requires SortedDesc(r)
    requires exists i :: 0 <= i < |r| && r[i] > 0.0
    ensures |r| > 0 && r[0] > 0.0
  {
    var i :| 0 <= i < |r| && r[i] > 0.0;
    assert r[0] >= r[i];
  }

  lemma SelfRatio(d: real)
    requires d > 0.0
    ensures d / d == 1.0
  {
  }

  /** A positive leading gain gives a positive DCG. */
  lemma DcgPositive(r: seq<real>, k: int, disc: nat -> real)
    requires ValidDiscount(disc)
    requires k >= 1
    requires |r| > 0 && r[0] > 0.0
    requires forall i :: 0 <= i < |r| ==> r[i] >= 0.0
    ensures Dcg(r, k, disc) > 0.0
  {
    DcgIsWeightedSum(r, k, disc);
    WeightedSumNonNeg(r[1..], 1, k, disc);
    var head := r[0] * disc(0);
    PosMul(r[0], disc(0));
    assert WeightedSum(r, 0, k, disc) == head + WeightedSum(r[1..], 1, k, disc);
  }

  lemma PosMul(a: real, b: real)
    requires a > 0.0 && b > 0.0
    ensures a * b > 0.0
  {
  }

  /** Gains that are all zero (or none at all) give NDCG 0, never a division
      by zero. */
  lemma NdcgOfNoGain(r: seq<real>, k: int, disc: nat -> real)
    requires forall i :: 0 <= i < |r| ==> r[i] == 0.0
    ensures Ndcg(r, k, disc) == 0.0
  {
    var s := SortDesc(r);
    SortDescPermutes(r);
    forall i | 0 <= i < |s|
      ensures s[i] == 0.0
    {
      assert s[i] in multiset(s);
      assert s[i] in r;
    }
    ZeroGainsSum(Take(s, k), 0, disc);
  }

  lemma {:induction false} ZeroGainsSum(r: seq<real>, o: nat, disc: nat -> real)
    requires forall i :: 0 <= i < |r| ==> r[i] == 0.0
    ensures DiscountedSum(r, o, disc) == 0.0
    decreases |r|
  {
    if |r| > 0 {
      ZeroGainsSum(r[1..], o + 1, disc);
    }
  }

  /** `dcg_at_k` only looks at the first `k` gains. */
  lemma DcgIgnoresTail(r: seq<real>, tail: seq<real>, k: int, disc: nat -> real)
    requires 0 <= k <= |r|
    ensures Dcg(r + tail, k, disc) == Dcg(r, k, disc)
  {
    assert (r + tail)[..k] == r[..k];
  }

  // ---------------------------------------------------------------------
  // Per-query evaluation
  // ---------------------------------------------------------------------

  /** `[res.id for res in resources if res.id]`: only resources with a
      non-empty id, in order. */
  function RetrievedIds(resources: seq<Resource>): (ids: seq<string>)
    ensures |ids| <= |resources|
    ensures forall x :: x in ids <==> exists i :: 0 <= i < |resources| && resources[i].id == Some(x) && x != ""
  {
    if |resources| == 0 then []
    else
      var rest := RetrievedIds(resources[1..]);
      assert forall i :: 1 <= i < |resources| ==> resources[i] == resources[1..][i - 1];
      match resources[0].id
      case Some(x) => if x != "" then [x] + rest else rest
      case None => rest
  }

  /** A resource the evaluation scores: its id is present and non-empty. */
  predicate HasId(res: Resource) {
    res.id.Some? && res.id.value != ""
  }

  /** The positions among the first `n` resources that have an id, in order. */
  function IdPositions(resources: seq<Resource>, n: nat): (idx: seq<nat>)
    requires n <= |resources|
    ensures Increasing(idx)
    ensures forall p :: 0 <= p < |idx| ==> idx[p] < n && HasId(resources[idx[p]])
    ensures forall i :: 0 <= i < n && HasId(resources[i]) ==> i in idx
  {
    if n == 0 then [] else IdPositions(resources, n - 1) + (if HasId(resources[n - 1]) then [n - 1] else [])
  }

  lemma {:induction false} RetrievedIdsAppend(a: seq<Resource>, b: seq<Resource>)
    ensures RetrievedIds(a + b) == RetrievedIds(a) + RetrievedIds(b)
    decreases |a|
  {
    if |a| == 0 {
      assert a + b == b;
    } else {
      assert (a + b)[0] == a[0];
      assert (a + b)[1..] == a[1..] + b;
      RetrievedIdsAppend(a[1..], b);
    }
  }

  lemma RetrievedIdsOne(res: Resource)
    ensures RetrievedIds([res]) == if HasId(res) then [res.id.value] else []
  {
    assert [res][1..] == [];
  }

  lemma {:induction false} RetrievedIdsAtPositions(resources: seq<Resource>, n: nat)
    requires n <= |resources|
    ensures IdsAt(RetrievedIds(resources[..n]), resources, IdPositions(resources, n))
    decreases n
  {
    if n > 0 {
      RetrievedIdsAtPositions(resources, n - 1);
      PositionsStep(resources, n);
    }
  }

  /** `ids` lists, in order, the ids of the resources at the positions `idx`. */
  predicate IdsAt(ids: seq<string>, resources: seq<Resource>, idx: seq<nat>) {
    && |ids| == |idx|
    && forall p :: 0 <= p < |idx| ==>
         idx[p] < |resources| && HasId(resources[idx[p]]) && ids[p] == resources[idx[p]].id.value
  }

  /** The induction step of `RetrievedIdsAtPositions`. */
  lemma PositionsStep(resources: seq<Resource>, n: nat)
    requires 0 < n <= |resources|
    requires IdsAt(RetrievedIds(resources[..n - 1]), resources, IdPositions(resources, n - 1))
    ensures IdsAt(RetrievedIds(resources[..n]), resources, IdPositions(resources, n))
  {
    var res := resources[n - 1];
    var before := RetrievedIds(resources[..n - 1]);
    TakeSnoc(resources, n);
    RetrievedIdsAppend(resources[..n - 1], [res]);
    RetrievedIdsOne(res);
    if HasId(res) {
      SnocIdsAt(before, resources, IdPositions(resources, n - 1), n - 1);
    } else {
      assert before + [] == before;
    }
  }

  lemma SnocIdsAt(ids: seq<string>, resources: seq<Resource>, idx: seq<nat>, i: nat)
    requires IdsAt(ids, resources, idx) && i < |resources| && HasId(resources[i])
    ensures IdsAt(ids + [resources[i].id.value], resources, idx + [i])
  {
    var ids' := ids + [resources[i].id.value];
    var idx' := idx + [i];
    forall p | 0 <= p < |idx'|
      ensures idx'[p] < |resources| && HasId(resources[idx'[p]]) && ids'[p] == resources[idx'[p]].id.value
    {
      if p < |idx| {
        assert ids'[p] == ids[p] && idx'[p] == idx[p];
      }
    }
  }

  lemma TakeSnoc<T>(s: seq<T>, n: nat)
    requires 0 < n <= |s|
    ensures s[..n] == s[..n - 1] + [s[n - 1]]
  {
  }

  /** The retrieved ids are the ids of the resources that have one, in the
      order of the resources and with repeats kept: the `p`-th id belongs to
      the `p`-th such resource. */
  lemma RetrievedIdsFilter(resources: seq<Resource>)
    ensures var ids := RetrievedIds(resources);
            var idx := IdPositions(resources, |resources|);
            && |ids| == |idx|
            && forall p :: 0 <= p < |idx| ==> ids[p] == resources[idx[p]].id.value
  {
    RetrievedIdsAtPositions(resources, |resources|);
    assert resources[..|resources|] == resources;
  }

  /** The positions among the first `n` of `ids` that hold a relevant id. */
  function RelevantPositions(ids: seq<string>, relevant: set<string>, n: nat): set<nat>
    requires n <= |ids|
  {
    set i: nat | i < n && ids[i] in relevant
  }

  lemma {:induction false} HitsAppend(a: seq<string>, b: seq<string>, relevant: set<string>)
    ensures Hits(a + b, relevant) == Hits(a, relevant) + Hits(b, relevant)
    decreases |a|
  {
    if |a| == 0 {
      assert a + b == b;
    } else {
      assert (a + b)[0] == a[0];
      assert (a + b)[1..] == a[1..] + b;
      HitsAppend(a[1..], b, relevant);
    }
  }

  lemma {:induction false} HitsOfPrefix(ids: seq<string>, relevant: set<string>, n: nat)
    requires n <= |ids|
    ensures Hits(ids[..n], relevant) == |RelevantPositions(ids, relevant, n)|
    decreases n
  {
    if n > 0 {
      HitsOfPrefix(ids, relevant, n - 1);
      assert ids[..n] == ids[..n - 1] + [ids[n - 1]];
      HitsAppend(ids[..n - 1], [ids[n - 1]], relevant);
      assert Hits([ids[n - 1]], relevant) == if ids[n - 1] in relevant then 1 else 0 by {
        assert [ids[n - 1]][1..] == [];
      }
      var before := RelevantPositions(ids, relevant, n - 1);
      assert n - 1 !in before;
      if ids[n - 1] in relevant {
        assert RelevantPositions(ids, relevant, n) == before + {n - 1};
      } else {
        assert RelevantPositions(ids, relevant, n) == before;
      }
    }
  }

  /** `sum(1 for rid in retrieved_ids if rid in relevant_ids)` counts
      positions: every relevant occurrence once, repeats included. */
  lemma HitsCountsPositions(ids: seq<string>, relevant: set<string>)
    ensures Hits(ids, relevant) == |RelevantPositions(ids, relevant, |ids|)|
  {
    HitsOfPrefix(ids, relevant, |ids|);
    assert ids[..|ids|] == ids;
  }

  /** The positions among the first `n` resources whose id is present,
      non-empty and relevant. */
  function ScoredPositions(resources: seq<Resource>, relevant: set<string>, n: nat): set<nat>
    requires n <= |resources|
  {
    set i: nat | i < n && HasId(resources[i]) && resources[i].id.value in relevant
  }

  lemma HitsOfOne(res: Resource, relevant: set<string>)
    ensures Hits(RetrievedIds([res]), relevant) == if HasId(res) && res.id.value in relevant then 1 else 0
  {
    RetrievedIdsOne(res);
    if HasId(res) {
      assert [res.id.value][1..] == [];
    }
  }

  lemma ScoredStep(resources: seq<Resource>, relevant: set<string>, n: nat)
    requires 0 < n <= |resources|
    ensures |ScoredPositions(resources, relevant, n)|
            == |ScoredPositions(resources, relevant, n - 1)|
               + (if HasId(resources[n - 1]) && resources[n - 1].id.value in relevant then 1 else 0)
  {
    var before := ScoredPositions(resources, relevant, n - 1);
    assert n - 1 !in before;
    if HasId(resources[n - 1]) && resources[n - 1].id.value in relevant {
      assert ScoredPositions(resources, relevant, n) == before + {n - 1};
    } else {
      assert ScoredPositions(resources, relevant, n) == before;
    }
  }

  lemma {:induction false} ScoredOfPrefix(resources: seq<Resource>, relevant: set<string>, n: nat)
    requires n <= |resources|
    ensures Hits(RetrievedIds(resources[..n]), relevant) == |ScoredPositions(resources, relevant, n)|
    decreases n
  {
    if n > 0 {
      var res := resources[n - 1];
      ScoredOfPrefix(resources, relevant, n - 1);
      assert resources[..n] == resources[..n - 1] + [res];
      RetrievedIdsAppend(resources[..n - 1], [res]);
      HitsAppend(RetrievedIds(resources[..n - 1]), RetrievedIds([res]), relevant);
      HitsOfOne(res, relevant);
      ScoredStep(resources, relevant, n);
    }
  }

  /** The recall numerator is the number of returned resources whose id is
      present, non-empty and relevant. */
  lemma RecallCountsResources(resources: seq<Resource>, relevant: set<string>)
    ensures Hits(RetrievedIds(resources), relevant) == |ScoredPositions(resources, relevant, |resources|)|
  {
    ScoredOfPrefix(resources, relevant, |resources|);
    assert resources[..|resources|] == resources;
  }

  /** The recall and NDCG of one query. */
  datatype QueryScores = QueryScores(recall: real, ndcg: real)

  /** Relevant hits among the retrieved ids, counting repeats. */
  function Hits(ids: seq<string>, relevant: set<string>): (n: nat)
    ensures n <= |ids|
    ensures n == 0 <==> forall i :: 0 <= i < |ids| ==> ids[i] !in relevant
  {
    if |ids| == 0 then 0
    else
      assert forall i :: 1 <= i < |ids| ==> ids[i] == ids[1..][i - 1];
      (if ids[0] in relevant then 1 else 0) + Hits(ids[1..], relevant)
  }

  /** The per-query body of the evaluation loop: recall over the relevant
      set (0.0 when it is empty) and NDCG at `TopK` of the 1/0 relevance of
      each retrieved id. */
  function EvaluateQuery(resources: seq<Resource>, relevant: set<string>, disc: nat -> real): (r: QueryScores)
    requires ValidDiscount(disc)
    ensures |relevant| == 0 ==> r.recall == 0.0
    ensures |relevant| > 0 ==> r.recall == Hits(RetrievedIds(resources), relevant) as real / |relevant| as real
    ensures 0.0 <= r.ndcg <= 1.0
    ensures (forall x :: x in RetrievedIds(resources) ==> x !in relevant) ==> r.ndcg == 0.0 && r.recall == 0.0
  {
    var ids := RetrievedIds(resources);
    QueryScores(Recall(ids, relevant), BinaryNdcg(ids, relevant, disc))
  }

  /** Relevant hits over the size of the relevant set, 0.0 for an empty set. */
  function Recall(ids: seq<string>, relevant: set<string>): (r: real)
    ensures |relevant| == 0 ==> r == 0.0
    ensures |relevant| > 0 ==> r == Hits(ids, relevant) as real / |relevant| as real
    ensures (forall x :: x in ids ==> x !in relevant) ==> r == 0.0
  {
    if |relevant| > 0 then
      NoHitsNoRecall(ids, relevant);
      Hits(ids, relevant) as real / |relevant| as real
    else 0.0
  }

  lemma NoHitsNoRecall(ids: seq<string>, relevant: set<string>)
    ensures (forall x :: x in ids ==> x !in relevant) ==> Hits(ids, relevant) == 0
  {
    if forall x :: x in ids ==> x !in relevant {
      forall i | 0 <= i < |ids|
        ensures ids[i] !in relevant
      {
        assert ids[i] in ids;
      }
    }
  }

  /** `[1 if rid in relevant_ids else 0 for rid in retrieved_ids]`. */
  function BinaryGains(ids: seq<string>, relevant: set<string>): (g: seq<real>)
    ensures |g| == |ids|
    ensures forall i :: 0 <= i < |ids| ==> g[i] == if ids[i] in relevant then 1.0 else 0.0
  {
    seq(|ids|, i requires 0 <= i < |ids| => if ids[i] in relevant then 1.0 else 0.0)
  }

  /** NDCG at `TopK` of the 1/0 relevance of each retrieved id. */
  function BinaryNdcg(ids: seq<string>, relevant: set<string>, disc: nat -> real): (n: real)
    requires ValidDiscount(disc)
    ensures 0.0 <= n <= 1.0
    ensures (forall x :: x in ids ==> x !in relevant) ==> n == 0.0
  {
    var gains := BinaryGains(ids, relevant);
    NdcgInUnitInterval(gains, TopK, disc);
    NoHitNoGain(ids, relevant, gains, disc);
    Ndcg(gains, TopK, disc)
  }

  /** Every relevant retrieved id comes before every irrelevant one. */
  predicate RelevantFirst(ids: seq<string>, relevant: set<string>) {
    forall i, j :: 0 <= i < j < |ids| && ids[j] in relevant ==> ids[i] in relevant
  }

  /** A ranking that puts every relevant id before every irrelevant one,
      with at least one relevant id, has NDCG exactly 1. */
  lemma BinaryNdcgOfRelevantFirst(ids: seq<string>, relevant: set<string>, disc: nat -> real)
    requires ValidDiscount(disc)
    requires RelevantFirst(ids, relevant)
    requires exists i :: 0 <= i < |ids| && ids[i] in relevant
    ensures BinaryNdcg(ids, relevant, disc) == 1.0
  {
    var gains := BinaryGains(ids, relevant);
    assert SortedDesc(gains) by {
      forall i, j | 0 <= i < j < |gains|
        ensures gains[i] >= gains[j]
      {
        if ids[j] in relevant {
          assert ids[i] in relevant;
        }
      }
    }
    var k :| 0 <= k < |ids| && ids[k] in relevant;
    assert gains[k] > 0.0;
    NdcgOfIdealRanking(gains, TopK, disc);
  }

  /** The query-level NDCG is 1 when the returned resources put every
      relevant id before every irrelevant one and some returned id is
      relevant. */
  lemma EvaluateQueryPerfectRanking(resources: seq<Resource>, relevant: set<string>, disc: nat -> real)
    requires ValidDiscount(disc)
    requires RelevantFirst(RetrievedIds(resources), relevant)
    requires exists i :: 0 <= i < |RetrievedIds(resources)| && RetrievedIds(resources)[i] in relevant
    ensures EvaluateQuery(resources, relevant, disc).ndcg == 1.0
  {
    BinaryNdcgOfRelevantFirst(RetrievedIds(resources), relevant, disc);
  }

  lemma NoHitNoGain(ids: seq<string>, relevant: set<string>, gains: seq<real>, disc: nat -> real)
    requires |gains| == |ids|
    requires forall i :: 0 <= i < |ids| ==> gains[i] == if ids[i] in relevant then 1.0 else 0.0
    ensures (forall x :: x in ids ==> x !in relevant) ==> Ndcg(gains, TopK, disc) == 0.0
  {
    if forall x :: x in ids ==> x !in relevant {
      NdcgOfNoGain(gains, TopK, disc);
    }
  }

  /** Only resources that came from the vector index are scored: web results
      and search links carry no id. */
  lemma RetrievedIdsAreLocal(query: string, limit: int, svc: ResourceAgent.Services)
    ensures var r := ResourceAgent.FindResources(query, limit, svc).resources;
            var local := ResourceAgent.LocalPart(query, limit, svc);
            forall x :: x in RetrievedIds(r) ==> exists i :: 0 <= i < |local| && local[i].id == Some(x)
  {
    var r := ResourceAgent.FindResources(query, limit, svc).resources;
    var local := ResourceAgent.LocalPart(query, limit, svc);
    ResourceAgent.IdsMarkLocalItems(query, limit, svc);
    assert Take(local, limit) <= r;
    forall x | x in RetrievedIds(r)
      ensures exists i :: 0 <= i < |local| && local[i].id == Some(x)
    {
      var i :| 0 <= i < |r| && r[i].id == Some(x) && x != "";
      assert i < |local|;
      assert i < |Take(local, limit)|;
      assert r[i] == local[i];
    }
  }
}
