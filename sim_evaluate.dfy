/**
 * Scoring of a copy-number prediction against a simulated truth
 * (`compare_cn` and `evaluate_results` in remixt/simulations/pipeline.py).
 *
 * Tumour clones are put largest mix fraction first, each clone's allele pair is sorted,
 * both tables are brought onto common segments, and length-weighted proportions of
 * segments with correct copy number, correct dominant clone and correct clonality are
 * computed. Copy-number tables are indexed [segment][tumour clone][allele].
 */
module SimulationEvaluation {
  import opened Indices
  import opened Wrappers
  import opened CopyNumbers

  datatype EvalError =
    | ZeroTotalLength   // the ZeroDivisionError of a proportion over zero total length
    | EmptyMix          // numpy's error for the min/max of an empty mix

  // ------------------------------------------------------------ proportions

  /** Total length of the segments whose flag is set, `(flags * lengths).sum()`. */
  function LengthWhere(flags: seq<bool>, l: seq<int>): int
    requires |flags| == |l|
  {
    if l == [] then 0 else (if flags[0] then l[0] else 0) + LengthWhere(flags[1..], l[1..])
  }

  /** `float((flags * lengths).sum()) / float(lengths.sum())`. */
  function Proportion(flags: seq<bool>, l: seq<int>): Result<real, EvalError>
    requires |flags| == |l|
  {
    if SumInt(l) == 0 then Err(ZeroTotalLength)
    else Ok(LengthWhere(flags, l) as real / SumInt(l) as real)
  }

  lemma {:induction false} LengthWhereBounds(flags: seq<bool>, l: seq<int>)
    requires |flags| == |l| && forall i :: 0 <= i < |l| ==> l[i] >= 0
    ensures 0 <= LengthWhere(flags, l) <= SumInt(l)
  {
    if l != [] {
      LengthWhereBounds(flags[1..], l[1..]);
    }
  }

  lemma {:induction false} LengthWhereAll(flags: seq<bool>, l: seq<int>)
    requires |flags| == |l| && forall i :: 0 <= i < |flags| ==> flags[i]
    ensures LengthWhere(flags, l) == SumInt(l)
  {
    if l != [] {
      LengthWhereAll(flags[1..], l[1..]);
    }
  }

  lemma DivUnit(a: real, b: real)
    requires b > 0.0 && 0.0 <= a <= b
    ensures 0.0 <= a / b <= 1.0
  {
  }

  /** Over nonnegative lengths with a positive total, a proportion lies in [0, 1]. */
  lemma ProportionBounds(flags: seq<bool>, l: seq<int>)
    requires |flags| == |l| && forall i :: 0 <= i < |l| ==> l[i] >= 0
    requires SumInt(l) > 0
    ensures Proportion(flags, l).Ok?
    ensures 0.0 <= Proportion(flags, l).value <= 1.0
  {
    LengthWhereBounds(flags, l);
    DivUnit(LengthWhere(flags, l) as real, SumInt(l) as real);
  }

  /** When every flag is set and the total is nonzero, the proportion is 1. */
  lemma ProportionAll(flags: seq<bool>, l: seq<int>)
    requires |flags| == |l| && forall i :: 0 <= i < |flags| ==> flags[i]
    requires SumInt(l) != 0
    ensures Proportion(flags, l) == Ok(1.0)
  {
    LengthWhereAll(flags, l);
    var t := SumInt(l) as real;
    assert t / t == 1.0;
  }

  // ------------------------------------------------------------ compare_cn

  function MaxReal(s: seq<real>): (r: real)
    requires |s| > 0
    ensures r in s && forall i :: 0 <= i < |s| ==> s[i] <= r
  {
    if |s| == 1 then s[0] else var t := MaxReal(s[1..]); if s[0] >= t then s[0] else t
  }

  function MinReal(s: seq<real>): (r: real)
    requires |s| > 0
    ensures r in s && forall i :: 0 <= i < |s| ==> r <= s[i]
  {
    if |s| == 1 then s[0] else var t := MinReal(s[1..]); if s[0] <= t then s[0] else t
  }

  /**
   * `mix.min() / mix.max() > 0.75`; a zero maximum gives numpy's NaN or negative infinity,
   * which is not above 0.75.
   */
  predicate SwapAllowed(mix: seq<real>)
    requires |mix| > 0
  {
    MaxReal(mix) != 0.0 && MinReal(mix) / MaxReal(mix) > 0.75
  }

  /** `cn[:, ::-1, :]` on one segment: the tumour clones in reverse order. */
  function ReverseClones(seg: seq<seq<int>>): (r: seq<seq<int>>)
    ensures |r| == |seg| && forall j :: 0 <= j < |seg| ==> r[j] == seg[|seg| - 1 - j]
  {
    seq(|seg|, j requires 0 <= j < |seg| => seg[|seg| - 1 - j])
  }

  lemma ReverseClonesInvolution(seg: seq<seq<int>>)
    ensures ReverseClones(ReverseClones(seg)) == seg
  {
  }

  /** A segment is called correctly when every clone matches, or, if swapping is allowed, every clone of the reversed prediction. */
  predicate SegmentCorrect(t: seq<seq<int>>, p: seq<seq<int>>, swap: bool)
  {
    t == p || (swap && t == ReverseClones(p))
  }

  function CorrectFlags(cnTrue: Tensor, cnPred: Tensor, swap: bool): (f: seq<bool>)
    requires |cnTrue| == |cnPred|
    ensures |f| == |cnTrue|
  {
    seq(|cnTrue|, i requires 0 <= i < |cnTrue| => SegmentCorrect(cnTrue[i], cnPred[i], swap))
  }

  /** `compare_cn`; the predicted mix is passed but not used, as remixt's `compare_cn` does. */
  function CompareCn(mixTrue: seq<real>, mixPred: seq<real>, cnTrue: Tensor, cnPred: Tensor, l: seq<int>)
    : Result<real, EvalError>
    requires |cnTrue| == |cnPred| == |l|
  {
    if mixTrue == [] then Err(EmptyMix)
    else Proportion(CorrectFlags(cnTrue, cnPred, SwapAllowed(mixTrue)), l)
  }

  /** For nonnegative lengths with a positive total, the score lies in [0, 1]. */
  lemma CompareCnBounds(mixTrue: seq<real>, mixPred: seq<real>, cnTrue: Tensor, cnPred: Tensor, l: seq<int>)
    requires |cnTrue| == |cnPred| == |l| && |mixTrue| > 0
    requires forall i :: 0 <= i < |l| ==> l[i] >= 0
    requires SumInt(l) > 0
    ensures CompareCn(mixTrue, mixPred, cnTrue, cnPred, l).Ok?
    ensures 0.0 <= CompareCn(mixTrue, mixPred, cnTrue, cnPred, l).value <= 1.0
  {
    ProportionBounds(CorrectFlags(cnTrue, cnPred, SwapAllowed(mixTrue)), l);
  }

  /** A prediction equal to the truth scores 1. */
  lemma CompareCnIdentical(mixTrue: seq<real>, mixPred: seq<real>, cn: Tensor, l: seq<int>)
    requires |cn| == |l| && |mixTrue| > 0 && SumInt(l) != 0
    ensures CompareCn(mixTrue, mixPred, cn, cn, l) == Ok(1.0)
  {
    ProportionAll(CorrectFlags(cn, cn, SwapAllowed(mixTrue)), l);
  }

  /** With near-equal mix fractions, a prediction with the clones reversed also scores 1. */
  lemma CompareCnReversed(mixTrue: seq<real>, mixPred: seq<real>, cnTrue: Tensor, cnPred: Tensor, l: seq<int>)
    requires |cnTrue| == |cnPred| == |l| && |mixTrue| > 0 && SumInt(l) != 0
    requires SwapAllowed(mixTrue)
    requires forall i :: 0 <= i < |l| ==> cnPred[i] == ReverseClones(cnTrue[i])
    ensures CompareCn(mixTrue, mixPred, cnTrue, cnPred, l) == Ok(1.0)
  {
    forall i | 0 <= i < |l|
      ensures SegmentCorrect(cnTrue[i], cnPred[i], true)
    {
      ReverseClonesInvolution(cnTrue[i]);
    }
    ProportionAll(CorrectFlags(cnTrue, cnPred, SwapAllowed(mixTrue)), l);
  }

  // ------------------------------------------------------------ clone order

  /** `order` lists each index below n exactly once. */
  predicate IsIndexPermutation(order: seq<nat>, n: nat)
  {
    |order| == n && (forall i :: 0 <= i < n ==> order[i] < n) && multiset(order) == multiset(Range(n))
  }

  /** `s[order]`: numpy's indexing by an array of indices. */
  function Gather<T>(s: seq<T>, order: seq<nat>): (r: seq<T>)
    requires forall i :: 0 <= i < |order| ==> order[i] < |s|
    ensures |r| == |order| && forall i :: 0 <= i < |order| ==> r[i] == s[order[i]]
  {
    seq(|order|, i requires 0 <= i < |order| => s[order[i]])
  }

  predicate DescendingReals(s: seq<real>)
  {
    forall p, q :: 0 <= p < q < |s| ==> s[p] >= s[q]
  }

  /** `order` puts `x` largest first: `np.argsort(x)[::-1]`, with ties in any order. */
  predicate IsDescendingOrder(x: seq<real>, order: seq<nat>)
  {
    IsIndexPermutation(order, |x|) && DescendingReals(Gather(x, order))
  }

  lemma GatherAppend<T>(s: seq<T>, a: seq<nat>, b: seq<nat>)
    requires forall i :: 0 <= i < |a| ==> a[i] < |s|
    requires forall i :: 0 <= i < |b| ==> b[i] < |s|
    ensures Gather(s, a + b) == Gather(s, a) + Gather(s, b)
  {
  }

  /** Gathering around position `p`: the gathered value of `o[p]` sits between the two sides. */
  lemma GatherSplit<T>(s: seq<T>, o: seq<nat>, p: nat)
    requires p < |o|
    requires forall i :: 0 <= i < |o| ==> o[i] < |s|
    ensures Gather(s, o) == Gather(s, o[..p]) + [s[o[p]]] + Gather(s, o[p + 1..])
  {
  }

  lemma RemoveAt(o: seq<nat>, p: nat)
    requires p < |o|
    ensures multiset(o[..p] + o[p + 1..]) == multiset(o) - multiset{o[p]}
  {
    assert o == o[..p] + [o[p]] + o[p + 1..];
  }

  /** Taking the first index of `o1` and a matching index of `o2` out keeps the two multisets equal. */
  lemma RemoveMatched(o1: seq<nat>, o2: seq<nat>, p: nat)
    requires multiset(o1) == multiset(o2) && 0 < |o1| && p < |o2| && o2[p] == o1[0]
    ensures multiset(o1[1..]) == multiset(o2[..p] + o2[p + 1..])
  {
    RemoveAt(o2, p);
    assert o1 == [o1[0]] + o1[1..];
  }

  lemma {:induction false} GatherSameIndices<T>(s: seq<T>, o1: seq<nat>, o2: seq<nat>)
    requires forall i :: 0 <= i < |o1| ==> o1[i] < |s|
    requires forall i :: 0 <= i < |o2| ==> o2[i] < |s|
    requires multiset(o1) == multiset(o2)
    ensures multiset(Gather(s, o1)) == multiset(Gather(s, o2))
    decreases |o1|
  {
    if o1 == [] {
      assert |o2| == |multiset(o2)| == 0;
    } else {
      assert o1[0] in multiset(o2);
      var p :| 0 <= p < |o2| && o2[p] == o1[0];
      var rest1 := o1[1..];
      var rest2 := o2[..p] + o2[p + 1..];
      RemoveMatched(o1, o2, p);
      GatherSameIndices(s, rest1, rest2);
      GatherMoveOne(s, o1, o2, p);
    }
  }

  /** The induction step: matching `o1[0]` with `o2[p]` leaves two index lists that gather alike. */
  lemma GatherMoveOne<T>(s: seq<T>, o1: seq<nat>, o2: seq<nat>, p: nat)
    requires 0 < |o1| && p < |o2| && o2[p] == o1[0]
    requires forall i :: 0 <= i < |o1| ==> o1[i] < |s|
    requires forall i :: 0 <= i < |o2| ==> o2[i] < |s|
    requires multiset(Gather(s, o1[1..])) == multiset(Gather(s, o2[..p] + o2[p + 1..]))
    ensures multiset(Gather(s, o1)) == multiset(Gather(s, o2))
  {
    GatherSplit(s, o1, 0);
    GatherSplit(s, o2, p);
    GatherAppend(s, o2[..p], o2[p + 1..]);
    MultisetMoveOne(Gather(s, o1), Gather(s, o2), Gather(s, o1[1..]), Gather(s, o2[..p]), Gather(s, o2[p + 1..]), s[o1[0]]);
  }

  lemma MultisetMoveOne<T>(g1: seq<T>, g2: seq<T>, t: seq<T>, a: seq<T>, b: seq<T>, v: T)
    requires g1 == [] + [v] + t && g2 == a + [v] + b
    requires multiset(t) == multiset(a + b)
    ensures multiset(g1) == multiset(g2)
  {
  }

  /** Gathering along a permutation of the indices keeps the values. */
  lemma GatherPermutation<T>(s: seq<T>, order: seq<nat>)
    requires IsIndexPermutation(order, |s|)
    ensures multiset(Gather(s, order)) == multiset(s)
  {
    GatherSameIndices(s, order, Range(|s|));
    assert Gather(s, Range(|s|)) == s;
  }

  /** `np.argsort(x)[::-1]`, as a selection sort of the indices, largest value first. */
  method ArgsortDescending(x: seq<real>) returns (order: seq<nat>)
    ensures IsDescendingOrder(x, order)
  {
    order := Range(|x|);
    var i := 0;
    while i < |order|
      invariant 0 <= i <= |order| == |x|
      invariant multiset(order) == multiset(Range(|x|))
      invariant SelectedUpTo(x, order, i)
    {
      var best := LargestFrom(x, order, i);
      SelectStep(x, order, i, best);
      SwapKeepsIndices(order, i, best);
      order := order[i := order[best]][best := order[i]];
      i := i + 1;
    }
    SelectedAll(x, order);
  }

  /** The first i indices are placed: largest value first, none smaller than a later one. */
  predicate SelectedUpTo(x: seq<real>, s: seq<nat>, i: nat)
  {
    i <= |s| &&
    (forall k :: 0 <= k < |s| ==> s[k] < |x|) &&
    (forall p, q :: 0 <= p < q < i ==> x[s[p]] >= x[s[q]]) &&
    (forall p, q :: 0 <= p < i <= q < |s| ==> x[s[p]] >= x[s[q]])
  }

  /** Once every position is placed, the indices form a descending order of `x`. */
  lemma SelectedAll(x: seq<real>, s: seq<nat>)
    requires |s| == |x| && multiset(s) == multiset(Range(|x|)) && SelectedUpTo(x, s, |s|)
    ensures IsDescendingOrder(x, s)
  {
  }

  /** Exchanging position i with the largest remaining position places one more index. */
  lemma SelectStep(x: seq<real>, s: seq<nat>, i: nat, best: nat)
    requires SelectedUpTo(x, s, i) && i <= best < |s|
    requires forall q :: i <= q < |s| ==> x[s[q]] <= x[s[best]]
    ensures SelectedUpTo(x, s[i := s[best]][best := s[i]], i + 1)
  {
  }

  /** Exchanging two positions keeps the indices. */
  lemma SwapKeepsIndices(s: seq<nat>, i: nat, j: nat)
    requires i < |s| && j < |s|
    ensures multiset(s[i := s[j]][j := s[i]]) == multiset(s)
  {
  }

  /** The position in `s[i..]` whose value in `x` is largest. */
  method LargestFrom(x: seq<real>, s: seq<nat>, i: nat) returns (best: nat)
    requires i < |s| && forall k :: 0 <= k < |s| ==> s[k] < |x|
    ensures i <= best < |s|
    ensures forall q :: i <= q < |s| ==> x[s[q]] <= x[s[best]]
  {
    best := i;
    var k := i + 1;
    while k < |s|
      invariant i <= best < k <= |s|
      invariant forall q :: i <= q < k ==> x[s[q]] <= x[s[best]]
    {
      if x[s[k]] > x[s[best]] {
        best := k;
      }
      k := k + 1;
    }
  }

  /** `mix[1:] = mix[order]` as written: the tail indices are applied to the whole mix. */
  function ReorderedAsWritten(mix: seq<real>, order: seq<nat>): seq<real>
    requires |mix| >= 1 && IsIndexPermutation(order, |mix| - 1)
  {
    [mix[0]] + Gather(mix, order)
  }

  /** On [0.5, 0.1, 0.4] the tail order is [1, 0], and the as-written result [0.5, 0.1, 0.5] is neither sorted nor a permutation. */
  lemma ReorderedAsWrittenCounterexample()
    ensures var mix, order := [0.5, 0.1, 0.4], [1, 0];
      IsDescendingOrder(mix[1..], order) &&
      ReorderedAsWritten(mix, order) == [0.5, 0.1, 0.5] &&
      !DescendingReals(ReorderedAsWritten(mix, order)[1..]) &&
      multiset(ReorderedAsWritten(mix, order)) != multiset(mix)
  {
    var mix: seq<real>, order: seq<nat> := [0.5, 0.1, 0.4], [1, 0];
    CounterexampleOrder();
    CounterexampleValue();
    var w := ReorderedAsWritten(mix, order);
    assert w[1..][0] < w[1..][1];
    assert multiset(w)[0.4] == 0;
  }

  /** [1, 0] puts [0.1, 0.4] largest first. */
  lemma CounterexampleOrder()
    ensures IsDescendingOrder([0.1, 0.4], [1, 0])
  {
    assert Range(2) == [0, 1];
    assert multiset([1, 0]) == multiset(Range(2));
    assert Gather([0.1, 0.4], [1, 0]) == [0.4, 0.1];
  }

  /** The as-written reordering of [0.5, 0.1, 0.4] along [1, 0]. */
  lemma CounterexampleValue()
    requires IsIndexPermutation([1, 0], 2)
    ensures ReorderedAsWritten([0.5, 0.1, 0.4], [1, 0]) == [0.5, 0.1, 0.5]
  {
    assert Gather([0.5, 0.1, 0.4], [1, 0]) == [0.1, 0.5];
  }

  /**
   * What the as-written reordering does to the score: true mix [0.5, 0.3, 0.35] and a prediction
   * whose two tumour clones are swapped. The as-written fractions [0.3, 0.5] forbid the swap
   * (0.3 / 0.5 is not above 0.75) and score 0; the intended fractions [0.35, 0.3] allow it and score 1.
   */
  lemma ReorderedAsWrittenScore()
    ensures var mix, order := [0.5, 0.3, 0.35], [1, 0];
      var cnTrue: Tensor, cnPred: Tensor := [[[1, 1], [2, 1]]], [[[2, 1], [1, 1]]];
      IsDescendingOrder(mix[1..], order) &&
      CompareCn(ReorderedAsWritten(mix, order)[1..], [0.7, 0.3], cnTrue, cnPred, [10]) == Ok(0.0) &&
      CompareCn(Reordered(mix, order)[1..], [0.7, 0.3], cnTrue, cnPred, [10]) == Ok(1.0)
  {
    var mix: seq<real>, order: seq<nat> := [0.5, 0.3, 0.35], [1, 0];
    ScoreExampleOrder();
    ScoreExampleTails();
    ScoreExampleSwapped();
  }

  /** [1, 0] puts [0.3, 0.35] largest first. */
  lemma ScoreExampleOrder()
    ensures IsDescendingOrder([0.3, 0.35], [1, 0])
  {
    assert Range(2) == [0, 1];
    assert multiset([1, 0]) == multiset(Range(2));
    assert Gather([0.3, 0.35], [1, 0]) == [0.35, 0.3];
  }

  /** The tumour fractions of [0.5, 0.3, 0.35] along [1, 0], as written and as intended. */
  lemma ScoreExampleTails()
    requires IsIndexPermutation([1, 0], 2)
    ensures ReorderedAsWritten([0.5, 0.3, 0.35], [1, 0])[1..] == [0.3, 0.5]
    ensures Reordered([0.5, 0.3, 0.35], [1, 0])[1..] == [0.35, 0.3]
  {
    assert Gather([0.5, 0.3, 0.35], [1, 0]) == [0.3, 0.5];
    assert [0.5, 0.3, 0.35][1..] == [0.3, 0.35];
    assert Gather([0.3, 0.35], [1, 0]) == [0.35, 0.3];
  }

  /** The swapped prediction scores 0 under [0.3, 0.5] and 1 under [0.35, 0.3]. */
  lemma ScoreExampleSwapped()
    ensures CompareCn([0.3, 0.5], [0.7, 0.3], [[[1, 1], [2, 1]]], [[[2, 1], [1, 1]]], [10]) == Ok(0.0)
    ensures CompareCn([0.35, 0.3], [0.7, 0.3], [[[1, 1], [2, 1]]], [[[2, 1], [1, 1]]], [10]) == Ok(1.0)
  {
    var cnTrue: Tensor, cnPred: Tensor := [[[1, 1], [2, 1]]], [[[2, 1], [1, 1]]];
    assert MaxReal([0.3, 0.5]) == 0.5 && MinReal([0.3, 0.5]) == 0.3;
    assert !SwapAllowed([0.3, 0.5]);
    assert MaxReal([0.35, 0.3]) == 0.35 && MinReal([0.35, 0.3]) == 0.3;
    assert SwapAllowed([0.35, 0.3]);
    assert ReverseClones(cnPred[0]) == cnTrue[0];
    assert cnPred[0] != cnTrue[0];
    assert CorrectFlags(cnTrue, cnPred, false) == [false];
    assert CorrectFlags(cnTrue, cnPred, true) == [true];
  }

  /** The tumour fractions `mix[1:]` put in the order `order`, the normal fraction kept first. */
  function Reordered(mix: seq<real>, order: seq<nat>): (r: seq<real>)
    requires |mix| >= 1 && IsIndexPermutation(order, |mix| - 1)
    ensures |r| == |mix| && r[0] == mix[0]
  {
    [mix[0]] + Gather(mix[1..], order)
  }

  /** Reordering by a descending order keeps the normal fraction, sorts the tumour fractions and loses none. */
  lemma ReorderedSpec(mix: seq<real>, order: seq<nat>)
    requires |mix| >= 1 && IsDescendingOrder(mix[1..], order)
    ensures |Reordered(mix, order)| == |mix| && Reordered(mix, order)[0] == mix[0]
    ensures DescendingReals(Reordered(mix, order)[1..])
    ensures multiset(Reordered(mix, order)) == multiset(mix)
  {
    GatherPermutation(mix[1..], order);
    assert Reordered(mix, order)[1..] == Gather(mix[1..], order);
    assert mix == [mix[0]] + mix[1..];
  }

  /** `cn[:, order, :]`: every segment's clones in the order `order`. */
  function ReorderClones(cn: Tensor, k: nat, w: nat, order: seq<nat>): (r: Tensor)
    requires IsTensor(cn, |cn|, k, w) && IsIndexPermutation(order, k)
    ensures IsTensor(r, |cn|, k, w)
    ensures forall i, j :: 0 <= i < |cn| && 0 <= j < k ==> r[i][j] == cn[i][order[j]]
  {
    seq(|cn|, i requires 0 <= i < |cn| => Gather(cn[i], order))
  }

  /** Reordering permutes each segment's clones: no clone is lost or duplicated. */
  lemma ReorderClonesPermutes(cn: Tensor, k: nat, w: nat, order: seq<nat>)
    requires IsTensor(cn, |cn|, k, w) && IsIndexPermutation(order, k)
    ensures forall i :: 0 <= i < |cn| ==> multiset(ReorderClones(cn, k, w, order)[i]) == multiset(cn[i])
  {
    forall i | 0 <= i < |cn|
      ensures multiset(ReorderClones(cn, k, w, order)[i]) == multiset(cn[i])
    {
      GatherPermutation(cn[i], order);
    }
  }

  /**
   * Clones move in step with their fractions: after reordering along the same order, tumour
   * clone j of every segment and tumour fraction j of the mix both come from original clone order[j].
   */
  lemma ClonesFollowFractions(cn: Tensor, k: nat, w: nat, mix: seq<real>, order: seq<nat>)
    requires IsTensor(cn, |cn|, k, w) && |mix| == k + 1 && IsIndexPermutation(order, k)
    ensures forall j :: 0 <= j < k ==> order[j] < k && Reordered(mix, order)[j + 1] == mix[order[j] + 1]
    ensures forall i, j :: 0 <= i < |cn| && 0 <= j < k ==> ReorderClones(cn, k, w, order)[i][j] == cn[i][order[j]]
  {
    forall j | 0 <= j < k
      ensures order[j] < k && Reordered(mix, order)[j + 1] == mix[order[j] + 1]
    {
      assert Reordered(mix, order)[j + 1] == Gather(mix[1..], order)[j];
    }
  }

  // ------------------------------------------------------------ allele order

  /** `np.sort` of one clone's allele copy numbers, which are a pair or a single total. */
  function SortAlleles(c: seq<int>): (r: seq<int>)
    requires |c| <= 2
    ensures |r| == |c|
  {
    if |c| == 2 && c[0] > c[1] then [c[1], c[0]] else c
  }

  /** Sorting alleles gives the same copy numbers, smallest first. */
  lemma SortAllelesSpec(c: seq<int>)
    requires |c| <= 2
    ensures multiset(SortAlleles(c)) == multiset(c)
    ensures forall p, q :: 0 <= p < q < |c| ==> SortAlleles(c)[p] <= SortAlleles(c)[q]
  {
    if |c| == 2 && c[0] > c[1] {
      assert c == [c[0], c[1]];
    }
  }

  /** `np.sort(cn, axis=2)`. */
  function SortAllAlleles(cn: Tensor, k: nat, w: nat): (r: Tensor)
    requires IsTensor(cn, |cn|, k, w) && w <= 2
    ensures IsTensor(r, |cn|, k, w)
  {
    seq(|cn|, i requires 0 <= i < |cn| => seq(k, j requires 0 <= j < k => SortAlleles(cn[i][j])))
  }

  // ------------------------------------------------------------ evaluate_results

  /** Whether the predicted table has allele-specific columns (`major_1` present) or totals only. */
  datatype CnLayout = AlleleSpecific | TotalOnly

  function Width(layout: CnLayout): nat
  {
    if layout == AlleleSpecific then 2 else 1
  }

  /** The true tumour copy number: the clones after the normal one, as allele pairs or totals. */
  function TumourCn(gmCn: Tensor, m: nat, layout: CnLayout): (r: Tensor)
    requires m >= 1 && IsTensor(gmCn, |gmCn|, m, 2)
    ensures IsTensor(r, |gmCn|, m - 1, Width(layout))
    ensures layout == AlleleSpecific ==> forall i :: 0 <= i < |gmCn| ==> r[i] == gmCn[i][1..]
    ensures layout == TotalOnly ==> forall i, j :: 0 <= i < |gmCn| && 0 <= j < m - 1 ==>
      r[i][j][0] == gmCn[i][j + 1][0] + gmCn[i][j + 1][1]
  {
    seq(|gmCn|, i requires 0 <= i < |gmCn| =>
      seq(m - 1, j requires 0 <= j < m - 1 =>
        if layout == AlleleSpecific then gmCn[i][j + 1] else [gmCn[i][j + 1][0] + gmCn[i][j + 1][1]]))
  }

  /** All tumour clones of a segment carry the copy number of the first. */
  predicate IsClonal(seg: seq<seq<int>>)
  {
    forall j :: 0 <= j < |seg| ==> seg[j] == seg[0]
  }

  /** `is_dom_cn_correct`: the first (largest) clone matches. */
  function DominantFlags(cnTrue: Tensor, cnPred: Tensor): (f: seq<bool>)
    requires |cnTrue| == |cnPred| && forall i :: 0 <= i < |cnTrue| ==> |cnTrue[i]| > 0 && |cnPred[i]| > 0
    ensures |f| == |cnTrue|
  {
    seq(|cnTrue|, i requires 0 <= i < |cnTrue| => cnTrue[i][0] == cnPred[i][0])
  }

  /** `is_clonal_correct`: truth and prediction agree on whether the segment is clonal. */
  function ClonalFlags(cnTrue: Tensor, cnPred: Tensor): (f: seq<bool>)
    requires |cnTrue| == |cnPred|
    ensures |f| == |cnTrue|
  {
    seq(|cnTrue|, i requires 0 <= i < |cnTrue| => IsClonal(cnTrue[i]) == IsClonal(cnPred[i]))
  }

  /** `is_subclonal_correct`: truth and prediction agree on whether the segment is subclonal. */
  function SubclonalFlags(cnTrue: Tensor, cnPred: Tensor): (f: seq<bool>)
    requires |cnTrue| == |cnPred|
    ensures |f| == |cnTrue|
  {
    seq(|cnTrue|, i requires 0 <= i < |cnTrue| => !IsClonal(cnTrue[i]) == !IsClonal(cnPred[i]))
  }

  datatype EvalResults = EvalResults(
    proportionCnCorrect: real,
    proportionDomCnCorrect: real,
    proportionClonalCorrect: real,
    proportionSubclonalCorrect: real,
    mixTrue: seq<real>,
    mixPred: seq<real>)

  /** The inputs `evaluate_results` works on, once read: k tumour clones in truth and prediction. */
  predicate WellShaped(gmCn: Tensor, m: nat, layout: CnLayout, mixTrue: seq<real>, mixPred: seq<real>,
                       cnPred: Tensor, idx1: seq<nat>, idx2: seq<nat>, l: seq<int>)
  {
    && m >= 2
    && IsTensor(gmCn, |gmCn|, m, 2)
    && IsTensor(cnPred, |cnPred|, m - 1, Width(layout))
    && |mixTrue| == m && |mixPred| == m
    && |idx1| == |idx2| == |l|
    && (forall i :: 0 <= i < |idx1| ==> idx1[i] < |gmCn|)
    && (forall i :: 0 <= i < |idx2| ==> idx2[i] < |cnPred|)
  }

  /** Clones put in `order`, each clone's alleles sorted, and the rows of the common segments `idx` taken. */
  function AlignedCn(cn: Tensor, k: nat, w: nat, order: seq<nat>, idx: seq<nat>): (r: Tensor)
    requires IsTensor(cn, |cn|, k, w) && w <= 2 && IsIndexPermutation(order, k)
    requires forall i :: 0 <= i < |idx| ==> idx[i] < |cn|
    ensures IsTensor(r, |idx|, k, w)
  {
    Gather(SortAllAlleles(ReorderClones(cn, k, w, order), k, w), idx)
  }

  /**
   * `evaluate_results` for given clone orders of truth and prediction, with the tumour
   * fractions reordered as evidently intended (see `ReorderedAsWritten`).
   */
  function Evaluation(gmCn: Tensor, m: nat, layout: CnLayout, mixTrue: seq<real>, mixPred: seq<real>,
                      cnPred: Tensor, idx1: seq<nat>, idx2: seq<nat>, l: seq<int>,
                      orderTrue: seq<nat>, orderPred: seq<nat>): Result<EvalResults, EvalError>
    requires WellShaped(gmCn, m, layout, mixTrue, mixPred, cnPred, idx1, idx2, l)
    requires IsIndexPermutation(orderTrue, m - 1) && IsIndexPermutation(orderPred, m - 1)
  {
    var cnT := AlignedCn(TumourCn(gmCn, m, layout), m - 1, Width(layout), orderTrue, idx1);
    var cnP := AlignedCn(cnPred, m - 1, Width(layout), orderPred, idx2);
    Score(cnT, cnP, Reordered(mixTrue, orderTrue), Reordered(mixPred, orderPred), l)
  }

  /** Every reported proportion lies in [0, 1]. */
  predicate ProportionsInUnitRange(r: EvalResults)
  {
    && 0.0 <= r.proportionCnCorrect <= 1.0
    && 0.0 <= r.proportionDomCnCorrect <= 1.0
    && 0.0 <= r.proportionClonalCorrect <= 1.0
    && 0.0 <= r.proportionSubclonalCorrect <= 1.0
  }

  /** The four proportions of `evaluate_results` on truth and prediction already aligned segment by segment. */
  function Score(cnT: Tensor, cnP: Tensor, mT: seq<real>, mP: seq<real>, l: seq<int>): Result<EvalResults, EvalError>
    requires |cnT| == |cnP| == |l| && |mT| >= 1 && |mP| >= 1
    requires forall i :: 0 <= i < |cnT| ==> |cnT[i]| > 0 && |cnP[i]| > 0
  {
    match CompareCn(mT[1..], mP[1..], cnT, cnP, l)
    case Err(e) => Err(e)
    case Ok(pcn) =>
      match Proportion(DominantFlags(cnT, cnP), l)
      case Err(e) => Err(e)
      case Ok(pdom) =>
        match Proportion(ClonalFlags(cnT, cnP), l)
        case Err(e) => Err(e)
        case Ok(pcl) =>
          match Proportion(SubclonalFlags(cnT, cnP), l)
          case Err(e) => Err(e)
          case Ok(psub) => Ok(EvalResults(pcn, pdom, pcl, psub, mT, mP))
  }

  /** With nonnegative lengths of positive total and at least one tumour clone, the scoring succeeds with every proportion in [0, 1]. */
  lemma ScoreBounds(cnT: Tensor, cnP: Tensor, mT: seq<real>, mP: seq<real>, l: seq<int>)
    requires |cnT| == |cnP| == |l| && |mT| >= 2 && |mP| >= 1
    requires forall i :: 0 <= i < |cnT| ==> |cnT[i]| > 0 && |cnP[i]| > 0
    requires (forall i :: 0 <= i < |l| ==> l[i] >= 0) && SumInt(l) > 0
    ensures Score(cnT, cnP, mT, mP, l).Ok?
    ensures ProportionsInUnitRange(Score(cnT, cnP, mT, mP, l).value)
  {
    CompareCnBounds(mT[1..], mP[1..], cnT, cnP, l);
    ProportionBounds(DominantFlags(cnT, cnP), l);
    ProportionBounds(ClonalFlags(cnT, cnP), l);
    ProportionBounds(SubclonalFlags(cnT, cnP), l);
  }

  /**
   * Clonality and subclonality are called correctly on the same segments, so their
   * proportions agree; the evaluation fails exactly on zero total length.
   */
  lemma EvaluationClonalEqualsSubclonal(gmCn: Tensor, m: nat, layout: CnLayout, mixTrue: seq<real>, mixPred: seq<real>,
                                        cnPred: Tensor, idx1: seq<nat>, idx2: seq<nat>, l: seq<int>,
                                        orderTrue: seq<nat>, orderPred: seq<nat>)
    requires WellShaped(gmCn, m, layout, mixTrue, mixPred, cnPred, idx1, idx2, l)
    requires IsIndexPermutation(orderTrue, m - 1) && IsIndexPermutation(orderPred, m - 1)
    ensures Evaluation(gmCn, m, layout, mixTrue, mixPred, cnPred, idx1, idx2, l, orderTrue, orderPred).Ok?
      <==> SumInt(l) != 0
    ensures Evaluation(gmCn, m, layout, mixTrue, mixPred, cnPred, idx1, idx2, l, orderTrue, orderPred).Ok? ==>
      var r := Evaluation(gmCn, m, layout, mixTrue, mixPred, cnPred, idx1, idx2, l, orderTrue, orderPred).value;
      r.proportionClonalCorrect == r.proportionSubclonalCorrect
  {
    var cnT := AlignedCn(TumourCn(gmCn, m, layout), m - 1, Width(layout), orderTrue, idx1);
    var cnP := AlignedCn(cnPred, m - 1, Width(layout), orderPred, idx2);
    assert ClonalFlags(cnT, cnP) == SubclonalFlags(cnT, cnP);
  }

  /** With descending clone orders, the reported mixes keep the normal fraction first and the tumour fractions largest first. */
  lemma EvaluationMixSorted(gmCn: Tensor, m: nat, layout: CnLayout, mixTrue: seq<real>, mixPred: seq<real>,
                            cnPred: Tensor, idx1: seq<nat>, idx2: seq<nat>, l: seq<int>,
                            orderTrue: seq<nat>, orderPred: seq<nat>)
    requires WellShaped(gmCn, m, layout, mixTrue, mixPred, cnPred, idx1, idx2, l)
    requires IsDescendingOrder(mixTrue[1..], orderTrue) && IsDescendingOrder(mixPred[1..], orderPred)
    requires Evaluation(gmCn, m, layout, mixTrue, mixPred, cnPred, idx1, idx2, l, orderTrue, orderPred).Ok?
    ensures var r := Evaluation(gmCn, m, layout, mixTrue, mixPred, cnPred, idx1, idx2, l, orderTrue, orderPred).value;
      r.mixTrue[0] == mixTrue[0] && DescendingReals(r.mixTrue[1..]) && multiset(r.mixTrue) == multiset(mixTrue) &&
      r.mixPred[0] == mixPred[0] && DescendingReals(r.mixPred[1..]) && multiset(r.mixPred) == multiset(mixPred)
  {
    ReorderedSpec(mixTrue, orderTrue);
    ReorderedSpec(mixPred, orderPred);
  }

  /** `r` is the evaluation under clone orders that put the tumour fractions of both mixes largest first. */
  ghost predicate SortedAndScored(gmCn: Tensor, m: nat, layout: CnLayout, mixTrue: seq<real>, mixPred: seq<real>,
                                  cnPred: Tensor, idx1: seq<nat>, idx2: seq<nat>, l: seq<int>,
                                  r: Result<EvalResults, EvalError>)
    requires WellShaped(gmCn, m, layout, mixTrue, mixPred, cnPred, idx1, idx2, l)
  {
    exists orderTrue, orderPred ::
      IsDescendingOrder(mixTrue[1..], orderTrue) && IsDescendingOrder(mixPred[1..], orderPred) &&
      r == Evaluation(gmCn, m, layout, mixTrue, mixPred, cnPred, idx1, idx2, l, orderTrue, orderPred)
  }

  /**
   * `evaluate_results`: orders both mixes' tumour clones largest first and scores the
   * prediction. `idx1`, `idx2` and the lengths are the common segments of truth and
   * prediction.
   */
  method EvaluateResults(gmCn: Tensor, m: nat, layout: CnLayout, mixTrue: seq<real>, mixPred: seq<real>,
                         cnPred: Tensor, idx1: seq<nat>, idx2: seq<nat>, l: seq<int>)
    returns (r: Result<EvalResults, EvalError>)
    requires WellShaped(gmCn, m, layout, mixTrue, mixPred, cnPred, idx1, idx2, l)
    ensures SortedAndScored(gmCn, m, layout, mixTrue, mixPred, cnPred, idx1, idx2, l, r)
  {
    var orderTrue := ArgsortDescending(mixTrue[1..]);
    var orderPred := ArgsortDescending(mixPred[1..]);
    r := Evaluation(gmCn, m, layout, mixTrue, mixPred, cnPred, idx1, idx2, l, orderTrue, orderPred);
  }
}
