/**
 * One fit per initialisation (`fit`, `fit_hmm_viterbi`, `fit_hmm_graph`,
 * `fit_graph` in remixt/analysis/pipeline.py), the summary statistics computed
 * from the fitted copy number, and the breakend column swap.
 *
 * The inference engine (EM estimator, Viterbi decoder, genome graph optimiser,
 * hard-assignment estimator) is not part of this model: it is the `Engine`
 * parameter, a record of pure functions of the likelihood and prior settings.
 */
module AnalysisFit {
  import opened Wrappers
  import opened CopyNumbers
  import AnalysisInit

  // ---------------------------------------------------------------- dispatch

  datatype FitMethod = HmmViterbi | HmmGraph | Graph

  datatype FitError =
    | UnknownFitMethod(name: string)   // the ValueError of `fit`
    | EmptyReduction                   // numpy's error for a max/min over zero tumour clones

  const FitMethodNames: seq<string> := ["hmm_viterbi", "hmm_graph", "graph"]

  function FitMethodName(m: FitMethod): string
  {
    match m
    case HmmViterbi => "hmm_viterbi"
    case HmmGraph => "hmm_graph"
    case Graph => "graph"
  }

  /** The `if`/`elif` chain of `fit`: one of the three configured names, or the ValueError. */
  function ParseFitMethod(name: string): (r: Result<FitMethod, FitError>)
    ensures r.Err? <==> name !in FitMethodNames
    ensures r.Err? ==> r.error == UnknownFitMethod(name)
    ensures r.Ok? ==> FitMethodName(r.value) == name
  {
    if name == "hmm_viterbi" then Ok(HmmViterbi)
    else if name == "hmm_graph" then Ok(HmmGraph)
    else if name == "graph" then Ok(Graph)
    else Err(UnknownFitMethod(name))
  }

  // ---------------------------------------------------------- engine boundary

  datatype Mask =
    | AmplificationMask(maxCopyNumber: nat)
    | SegmentLengthMask(minSegmentLength: real)
    | ProportionGenotypedMask(minProportionGenotyped: real)

  /** What the likelihood model holds when the engine is called: haploid depths and masks. */
  datatype LikelihoodState = LikelihoodState(h: seq<real>, masks: seq<Mask>)

  /** What the copy-number prior holds when the engine is called. */
  datatype PriorState = PriorState(divergenceWeight: real, alleleSpecific: bool)

  /** A decoded or optimised copy-number tensor and its log-likelihood. */
  datatype Decoded = Decoded(logLikelihood: real, cn: Tensor)

  /**
   * The inference engine. Every call builds its model with |h| clones.
   * learnDepth: `ExpectationMaximizationEstimator.learn_param` on the HMM, giving the fitted h;
   * optimalState: `HiddenMarkovModel.optimal_state`;
   * graphOptimize: `GenomeGraph.init_copy_number` from a seed, then `optimize`;
   * hardAssignment: `GenomeGraph.init_copy_number` from a seed, then `HardAssignmentEstimator.learn_param`.
   */
  datatype Engine = Engine(
    learnDepth: (LikelihoodState, PriorState) -> seq<real>,
    optimalState: (LikelihoodState, PriorState) -> Decoded,
    graphOptimize: (LikelihoodState, PriorState, Tensor) -> Decoded,
    hardAssignment: (LikelihoodState, PriorState, Tensor) -> (seq<real>, Decoded))

  /** The engine keeps the number of clones and returns n-segment, two-allele tensors. */
  ghost predicate EngineShapes(e: Engine, n: nat)
  {
    && (forall lik, prior :: |e.learnDepth(lik, prior)| == |lik.h|)
    && (forall lik, prior :: IsTensor(e.optimalState(lik, prior).cn, n, |lik.h|, 2))
    && (forall lik, prior, seed :: IsTensor(e.graphOptimize(lik, prior, seed).cn, n, |lik.h|, 2))
    && (forall lik, prior, seed ::
          |e.hardAssignment(lik, prior, seed).0| == |lik.h| &&
          IsTensor(e.hardAssignment(lik, prior, seed).1.cn, n, |lik.h|, 2))
  }

  /** The likelihood model of `fit`: NegBinBetaBinLikelihood with its h and masks. */
  class Emission {
    var h: seq<real>
    var masks: seq<Mask>

    constructor ()
      ensures h == [] && masks == []
    {
      h := [];
      masks := [];
    }

    function State(): LikelihoodState
      reads this
    {
      LikelihoodState(h, masks)
    }

    /** `add_amplification_mask` and friends: the mask joins the likelihood model, h is kept. */
    method AddMask(mask: Mask)
      modifies this
      ensures masks == old(masks) + [mask] && h == old(h)
    {
      masks := masks + [mask];
    }
  }

  /** The copy-number prior of `fit`: CopyNumberPrior with its divergence weight. */
  class Prior {
    var divergenceWeight: real
    var alleleSpecific: bool

    constructor (divergenceWeight: real, alleleSpecific: bool)
      ensures this.divergenceWeight == divergenceWeight && this.alleleSpecific == alleleSpecific
    {
      this.divergenceWeight := divergenceWeight;
      this.alleleSpecific := alleleSpecific;
    }

    function State(): PriorState
      reads this
    {
      PriorState(divergenceWeight, alleleSpecific)
    }
  }

  // ------------------------------------------------------------------ fitters

  /** The part of a fitter's `results` this model keeps: h, cn and the reported log-likelihood. */
  datatype FitResults = FitResults(h: seq<real>, cn: Tensor, logLikelihood: real)

  /** `fit_hmm_viterbi`: EM on the HMM, then Viterbi with the fitted depths. */
  function HmmViterbiOutcome(e: Engine, lik: LikelihoodState, prior: PriorState): FitResults
  {
    var h := e.learnDepth(lik, prior);
    var decoded := e.optimalState(LikelihoodState(h, lik.masks), prior);
    FitResults(h, decoded.cn, decoded.logLikelihood)
  }

  /** `fit_hmm_graph`: EM on the HMM, then an allele-independent Viterbi seed for the genome graph. */
  function HmmGraphOutcome(e: Engine, lik: LikelihoodState, prior: PriorState): FitResults
  {
    var h := e.learnDepth(lik, prior);
    var independent := PriorState(prior.divergenceWeight, false);
    var seed := e.optimalState(LikelihoodState(h, lik.masks), independent);
    var optimised := e.graphOptimize(LikelihoodState(h, lik.masks), independent, seed.cn);
    FitResults(h, optimised.cn, optimised.logLikelihood)
  }

  /** `fit_graph` after seeding: hard-assignment EM on the genome graph from `seed`. */
  function GraphOutcome(e: Engine, lik: LikelihoodState, prior: PriorState, seed: Tensor): FitResults
  {
    var (h, decoded) := e.hardAssignment(lik, prior, seed);
    FitResults(h, decoded.cn, decoded.logLikelihood)
  }

  /** `h_init_single`: the normal depth and the summed tumour depth; total depth is kept. */
  function SingleCloneDepth(h: seq<real>): (single: seq<real>)
    requires |h| >= 1
    ensures |single| == 2 && single[0] == h[0]
    ensures SumReal(single) == SumReal(h)
  {
    var single := [h[0], SumReal(h[1..])];
    assert single[1..] == [SumReal(h[1..])] && single[1..][1..] == [];
    assert SumReal(single[1..]) == SumReal(h[1..]) + SumReal(single[1..][1..]);
    single
  }

  /** `cn_init` of `fit_graph`: clone 0 is 1 for both alleles, every other clone copies clone 1 of `cn`. */
  ghost predicate IsSeedOf(seed: Tensor, cn: Tensor, n: nat, m: nat)
    requires IsTensor(cn, n, 2, 2)
  {
    && IsTensor(seed, n, m, 2)
    && (forall i :: 0 <= i < n && 0 < m ==> seed[i][0] == [1, 1])
    && (forall i, j :: 0 <= i < n && 1 <= j < m ==> seed[i][j] == cn[i][1])
  }

  /** The seed is determined by the single-clone copy number and the clone count. */
  lemma SeedUnique(s1: Tensor, s2: Tensor, cn: Tensor, n: nat, m: nat)
    requires IsTensor(cn, n, 2, 2)
    requires IsSeedOf(s1, cn, n, m) && IsSeedOf(s2, cn, n, m)
    ensures s1 == s2
  {
    forall i | 0 <= i < n
      ensures s1[i] == s2[i]
    {
      forall j | 0 <= j < m
        ensures s1[i][j] == s2[i][j]
      {
        if j == 0 {
          assert s1[i][0] == [1, 1] == s2[i][0];
        } else {
          assert s1[i][j] == cn[i][1] == s2[i][j];
        }
      }
    }
  }

  /** n segments of m clones, every allele at copy number one (`np.ones((N, M, 2))`). */
  function Ones(n: nat, m: nat): (t: Tensor)
    ensures IsTensor(t, n, m, 2)
  {
    seq(n, i => seq(m, j => [1, 1]))
  }

  /** The seeding loop of `fit_graph`: `cn_init[:, m, :] = cn[:, 1, :]` for m = 1 .. M-1. */
  method SeedCopyNumber(cn: Tensor, n: nat, m: nat) returns (cnInit: Tensor)
    requires IsTensor(cn, n, 2, 2)
    ensures IsSeedOf(cnInit, cn, n, m)
  {
    cnInit := Ones(n, m);
    var c := 1;
    while c < m
      invariant 1 <= c || m == 0
      invariant c <= m || m == 0
      invariant IsTensor(cnInit, n, m, 2)
      invariant forall i :: 0 <= i < n && 0 < m ==> cnInit[i][0] == [1, 1]
      invariant forall i, j :: 0 <= i < n && 1 <= j < c && j < m ==> cnInit[i][j] == cn[i][1]
    {
      cnInit := seq(n, i requires 0 <= i < n => cnInit[i][c := cn[i][1]]);
      c := c + 1;
    }
  }

  /** `fit_hmm_viterbi`: sets h, runs EM (which leaves the fitted h in the model), then Viterbi. */
  method FitHmmViterbi(e: Engine, emission: Emission, prior: Prior, hInit: seq<real>) returns (res: FitResults)
    modifies emission
    ensures emission.masks == old(emission.masks)
    ensures res == HmmViterbiOutcome(e, LikelihoodState(hInit, emission.masks), prior.State())
    ensures emission.h == res.h
  {
    emission.h := hInit;
    emission.h := e.learnDepth(emission.State(), prior.State());
    var decoded := e.optimalState(emission.State(), prior.State());
    res := FitResults(emission.h, decoded.cn, decoded.logLikelihood);
  }

  /**
   * `fit_hmm_graph`: EM as for `fit_hmm_viterbi`, then the prior is switched to
   * allele-independent before the Viterbi seed and the graph optimisation.
   */
  method FitHmmGraph(e: Engine, emission: Emission, prior: Prior, hInit: seq<real>) returns (res: FitResults)
    modifies emission, prior
    ensures emission.masks == old(emission.masks)
    ensures !prior.alleleSpecific && prior.divergenceWeight == old(prior.divergenceWeight)
    ensures res == HmmGraphOutcome(e, LikelihoodState(hInit, emission.masks), old(prior.State()))
    ensures emission.h == res.h
  {
    emission.h := hInit;
    emission.h := e.learnDepth(emission.State(), prior.State());
    prior.alleleSpecific := false;
    var seed := e.optimalState(emission.State(), prior.State());
    var optimised := e.graphOptimize(emission.State(), prior.State(), seed.cn);
    res := FitResults(emission.h, optimised.cn, optimised.logLikelihood);
  }

  /**
   * `fit_graph`: Viterbi with one tumour clone of the summed depth, its tumour
   * column replicated over every tumour clone as the seed, then hard-assignment
   * EM from h_init. The prior is left as configured.
   */
  method FitGraph(e: Engine, emission: Emission, prior: Prior, hInit: seq<real>, n: nat) returns (res: FitResults)
    requires |hInit| >= 1
    requires EngineShapes(e, n)
    modifies emission
    ensures emission.masks == old(emission.masks) && emission.h == hInit
    ensures exists seed ::
      && IsSeedOf(seed, e.optimalState(LikelihoodState(SingleCloneDepth(hInit), emission.masks), prior.State()).cn, n, |hInit|)
      && res == GraphOutcome(e, LikelihoodState(hInit, emission.masks), prior.State(), seed)
  {
    emission.h := SingleCloneDepth(hInit);
    var single := e.optimalState(emission.State(), prior.State());
    var cnInit := SeedCopyNumber(single.cn, n, |hInit|);
    emission.h := hInit;
    var (h, decoded) := e.hardAssignment(emission.State(), prior.State(), cnInit);
    res := FitResults(h, decoded.cn, decoded.logLikelihood);
  }

  // --------------------------------------------------------- summary statistics

  function TotalLength(l: seq<nat>): nat
  {
    if l == [] then 0 else l[0] + TotalLength(l[1..])
  }

  /** `sum(l[n] * x[n])`. */
  function WeightedSum(l: seq<nat>, x: seq<real>): real
    requires |l| == |x|
  {
    if l == [] then 0.0 else (l[0] as real) * x[0] + WeightedSum(l[1..], x[1..])
  }

  /** Copy numbers of allele a over the tumour clones 1 .. M-1 of one segment. */
  function TumourColumn(seg: seq<seq<int>>, a: nat): (col: seq<int>)
    requires |seg| >= 1 && forall j :: 0 <= j < |seg| ==> a < |seg[j]|
    ensures |col| == |seg| - 1
  {
    seq(|seg| - 1, j requires 0 <= j < |seg| - 1 => seg[j + 1][a])
  }

  predicate IsSegment(seg: seq<seq<int>>)
  {
    |seg| >= 2 && forall j :: 0 <= j < |seg| ==> |seg[j]| == 2
  }

  /** `cn[n, 1:, a].mean()`. */
  function AlleleMean(seg: seq<seq<int>>, a: nat): real
    requires IsSegment(seg) && a < 2
  {
    SumInt(TumourColumn(seg, a)) as real / (|seg| - 1) as real
  }

  /** Mean tumour copy number of a segment, summed over both alleles. */
  function SegmentPloidy(seg: seq<seq<int>>): real
    requires IsSegment(seg)
  {
    AlleleMean(seg, 0) + AlleleMean(seg, 1)
  }

  function MaxInt(s: seq<int>): (r: int)
    requires |s| > 0
    ensures r in s && forall i :: 0 <= i < |s| ==> s[i] <= r
  {
    if |s| == 1 then s[0] else var t := MaxInt(s[1..]); if s[0] >= t then s[0] else t
  }

  function MinInt(s: seq<int>): (r: int)
    requires |s| > 0
    ensures r in s && forall i :: 0 <= i < |s| ==> r <= s[i]
  {
    if |s| == 1 then s[0] else var t := MinInt(s[1..]); if s[0] <= t then s[0] else t
  }

  /** `cn[n, 1:, a].max() != cn[n, 1:, a].min()`. */
  predicate Divergent(seg: seq<seq<int>>, a: nat)
    requires IsSegment(seg) && a < 2
  {
    MaxInt(TumourColumn(seg, a)) != MinInt(TumourColumn(seg, a))
  }

  /** Number of divergent alleles of a segment, 0, 1 or 2. */
  function DivergentAlleles(seg: seq<seq<int>>): (r: real)
    requires IsSegment(seg)
    ensures 0.0 <= r <= 2.0
    ensures r == 0.0 <==> !Divergent(seg, 0) && !Divergent(seg, 1)
  {
    (if Divergent(seg, 0) then 1.0 else 0.0) + (if Divergent(seg, 1) then 1.0 else 0.0)
  }

  /** The fitted tensor of a fit: n segments, m clones of which at least one is a tumour clone. */
  predicate IsFittedTensor(cn: Tensor, n: nat, m: nat)
  {
    IsTensor(cn, n, m, 2) && (n == 0 || m >= 2)
  }

  /** Per-segment ploidy of every segment. */
  function SegmentPloidies(cn: Tensor, n: nat, m: nat): (x: seq<real>)
    requires IsFittedTensor(cn, n, m)
    ensures |x| == n && forall i :: 0 <= i < n ==> x[i] == SegmentPloidy(cn[i])
  {
    seq(n, i requires 0 <= i < n => SegmentPloidy(cn[i]))
  }

  /** Number of divergent alleles of every segment. */
  function SegmentDivergence(cn: Tensor, n: nat, m: nat): (x: seq<real>)
    requires IsFittedTensor(cn, n, m)
    ensures |x| == n && forall i :: 0 <= i < n ==> x[i] == DivergentAlleles(cn[i])
  {
    seq(n, i requires 0 <= i < n => DivergentAlleles(cn[i]))
  }

  /** `ploidy`: length-weighted mean tumour copy number, summed over alleles; None where numpy gives NaN. */
  function Ploidy(cn: Tensor, l: seq<nat>, m: nat): Option<real>
    requires IsFittedTensor(cn, |l|, m)
  {
    if TotalLength(l) == 0 then None
    else Some(WeightedSum(l, SegmentPloidies(cn, |l|, m)) / TotalLength(l) as real)
  }

  /**
   * `proportion_divergent`: length-weighted share of (segment, allele) pairs whose tumour clones differ;
   * the division by twice the total length is written as two divisions.
   */
  function ProportionDivergent(cn: Tensor, l: seq<nat>, m: nat): Option<real>
    requires IsFittedTensor(cn, |l|, m)
  {
    if TotalLength(l) == 0 then None
    else Some(WeightedSum(l, SegmentDivergence(cn, |l|, m)) / TotalLength(l) as real / 2.0)
  }

  /** `a` lies between `lo * b` and `hi * b`. */
  predicate BetweenScaled(a: real, b: real, lo: real, hi: real)
  {
    lo * b <= a <= hi * b
  }

  lemma DivBounds(a: real, b: real, lo: real, hi: real)
    requires b > 0.0 && BetweenScaled(a, b, lo, hi)
    ensures lo <= a / b <= hi
  {
    var q := a / b;
    assert q * b == a;
    if q < lo {
      MulStrict(q, lo, b);
    }
    if q > hi {
      MulStrict(hi, q, b);
    }
  }

  lemma MulStrict(p: real, q: real, b: real)
    requires p < q && b > 0.0
    ensures p * b < q * b
  {
    assert (q - p) * b > 0.0;
  }

  lemma MulMono(p: real, q: real, w: real)
    requires p <= q && w >= 0.0
    ensures w * p <= w * q
  {
    assert w * (q - p) >= 0.0;
  }

  lemma IntRealMul(a: int, b: int)
    ensures (a * b) as real == a as real * b as real
  {
  }

  /** The length-weighted mean of values in [lo, hi] lies in [lo, hi]. */
  lemma WeightedMeanBounds(l: seq<nat>, x: seq<real>, lo: real, hi: real)
    requires |l| == |x| && TotalLength(l) > 0
    requires forall i :: 0 <= i < |x| ==> lo <= x[i] <= hi
    ensures lo <= WeightedSum(l, x) / TotalLength(l) as real <= hi
  {
    WeightedSumBounds(l, x, lo, hi);
    DivBounds(WeightedSum(l, x), TotalLength(l) as real, lo, hi);
  }

  /** One more segment of weight w and value v keeps the sum between lo and hi times the total length. */
  lemma WeightedStep(w: real, v: real, rest: real, sum: real, lo: real, hi: real)
    requires w >= 0.0 && lo <= v <= hi && BetweenScaled(sum, rest, lo, hi)
    ensures BetweenScaled(w * v + sum, w + rest, lo, hi)
  {
    MulMono(lo, v, w);
    MulMono(v, hi, w);
    assert lo * (w + rest) == w * lo + lo * rest;
    assert hi * (w + rest) == w * hi + hi * rest;
  }

  /** A length-weighted sum of values in [lo, hi] lies between lo and hi times the total length. */
  lemma {:induction false} WeightedSumBounds(l: seq<nat>, x: seq<real>, lo: real, hi: real)
    requires |l| == |x|
    requires forall i :: 0 <= i < |x| ==> lo <= x[i] <= hi
    ensures BetweenScaled(WeightedSum(l, x), TotalLength(l) as real, lo, hi)
  {
    if l != [] {
      WeightedSumBounds(l[1..], x[1..], lo, hi);
      WeightedStep(l[0] as real, x[0], TotalLength(l[1..]) as real, WeightedSum(l[1..], x[1..]), lo, hi);
    }
  }

  lemma {:induction false} SumIntBounds(s: seq<int>, lo: int, hi: int)
    requires forall i :: 0 <= i < |s| ==> lo <= s[i] <= hi
    ensures |s| * lo <= SumInt(s) <= |s| * hi
  {
    if s != [] {
      SumIntBounds(s[1..], lo, hi);
    }
  }

  /** A segment whose tumour copy numbers lie in [0, c] has per-allele means in [0, c]. */
  lemma AlleleMeanBounds(seg: seq<seq<int>>, a: nat, c: nat)
    requires IsSegment(seg) && a < 2
    requires forall j :: 1 <= j < |seg| ==> 0 <= seg[j][a] <= c
    ensures 0.0 <= AlleleMean(seg, a) <= c as real
  {
    var col := TumourColumn(seg, a);
    SumIntBounds(col, 0, c);
    var k := |seg| - 1;
    IntRealMul(k, c);
    DivBounds(SumInt(col) as real, k as real, 0.0, c as real);
  }

  /** A segment whose tumour clones all carry c on allele a has mean c on that allele. */
  lemma AlleleMeanOfConstant(seg: seq<seq<int>>, a: nat, c: int)
    requires IsSegment(seg) && a < 2
    requires forall j :: 1 <= j < |seg| ==> seg[j][a] == c
    ensures AlleleMean(seg, a) == c as real
  {
    var col := TumourColumn(seg, a);
    var k := |seg| - 1;
    SumIntBounds(col, c, c);
    IntRealMul(k, c);
    DivBounds(SumInt(col) as real, k as real, c as real, c as real);
  }

  /** With tumour copy numbers in [0, maxCopyNumber] and some length, ploidy lies in [0, 2 * maxCopyNumber]. */
  lemma PloidyBounds(cn: Tensor, l: seq<nat>, m: nat, maxCopyNumber: nat)
    requires IsFittedTensor(cn, |l|, m) && TotalLength(l) > 0
    requires forall i, j, a :: 0 <= i < |l| && 1 <= j < m && 0 <= a < 2 ==> 0 <= cn[i][j][a] <= maxCopyNumber
    ensures Ploidy(cn, l, m).Some?
    ensures 0.0 <= Ploidy(cn, l, m).value <= 2.0 * maxCopyNumber as real
  {
    var x := SegmentPloidies(cn, |l|, m);
    forall i | 0 <= i < |l|
      ensures 0.0 <= x[i] <= 2.0 * maxCopyNumber as real
    {
      AlleleMeanBounds(cn[i], 0, maxCopyNumber);
      AlleleMeanBounds(cn[i], 1, maxCopyNumber);
    }
    WeightedMeanBounds(l, x, 0.0, 2.0 * maxCopyNumber as real);
  }

  /** If every tumour clone of every segment carries (c0, c1), ploidy is c0 + c1. */
  lemma PloidyOfClonalTensor(cn: Tensor, l: seq<nat>, m: nat, c0: int, c1: int)
    requires IsFittedTensor(cn, |l|, m) && TotalLength(l) > 0
    requires forall i, j :: 0 <= i < |l| && 1 <= j < m ==> cn[i][j] == [c0, c1]
    ensures Ploidy(cn, l, m) == Some((c0 + c1) as real)
  {
    var x := SegmentPloidies(cn, |l|, m);
    forall i | 0 <= i < |l|
      ensures x[i] == (c0 + c1) as real
    {
      AlleleMeanOfConstant(cn[i], 0, c0);
      AlleleMeanOfConstant(cn[i], 1, c1);
    }
    WeightedMeanBounds(l, x, (c0 + c1) as real, (c0 + c1) as real);
  }

  /** An allele is divergent exactly when two tumour clones differ on it. */
  lemma DivergentIff(seg: seq<seq<int>>, a: nat)
    requires IsSegment(seg) && a < 2
    ensures Divergent(seg, a) <==>
      exists j1, j2 :: 1 <= j1 < |seg| && 1 <= j2 < |seg| && seg[j1][a] != seg[j2][a]
  {
    var col := TumourColumn(seg, a);
    if Divergent(seg, a) {
      var hi, lo := MaxInt(col), MinInt(col);
      var j1 :| 0 <= j1 < |col| && col[j1] == hi;
      var j2 :| 0 <= j2 < |col| && col[j2] == lo;
      assert seg[j1 + 1][a] != seg[j2 + 1][a];
    }
    if exists j1, j2 :: 1 <= j1 < |seg| && 1 <= j2 < |seg| && seg[j1][a] != seg[j2][a] {
      var j1, j2 :| 1 <= j1 < |seg| && 1 <= j2 < |seg| && seg[j1][a] != seg[j2][a];
      assert col[j1 - 1] in col && col[j2 - 1] in col;
    }
  }

  /** With some length, the proportion divergent lies in [0, 1]. */
  lemma ProportionDivergentBounds(cn: Tensor, l: seq<nat>, m: nat)
    requires IsFittedTensor(cn, |l|, m) && TotalLength(l) > 0
    ensures ProportionDivergent(cn, l, m).Some?
    ensures 0.0 <= ProportionDivergent(cn, l, m).value <= 1.0
  {
    var x := SegmentDivergence(cn, |l|, m);
    WeightedMeanBounds(l, x, 0.0, 2.0);
  }

  // ------------------------------------------------------- breakend column swap

  /** `column_swap`: the two breakends' columns exchange names. */
  const ColumnSwap: map<string, string> := map[
    "n_1" := "n_2", "ell_1" := "ell_2", "side_1" := "side_2",
    "n_2" := "n_1", "ell_2" := "ell_1", "side_2" := "side_1"]

  /** `DataFrame.rename(columns=column_swap)` on one column name. */
  function SwapColumn(c: string): string
  {
    if c in ColumnSwap then ColumnSwap[c] else c
  }

  lemma SwapColumnInvolution(c: string)
    ensures SwapColumn(SwapColumn(c)) == c
  {
  }

  /** The columns of one breakend in the breakpoint segment table. */
  datatype BreakendColumns = BreakendColumns(n: int, ell: int, side: int)

  /** A row of the breakpoint segment table: columns `*_1` and `*_2`. */
  datatype BreakpointRow = BreakpointRow(end1: BreakendColumns, end2: BreakendColumns)

  /** The value of one of the six swapped columns in a row. */
  function ColumnValue(row: BreakpointRow, c: string): int
    requires c in ColumnSwap
  {
    if c == "n_1" then row.end1.n
    else if c == "ell_1" then row.end1.ell
    else if c == "side_1" then row.end1.side
    else if c == "n_2" then row.end2.n
    else if c == "ell_2" then row.end2.ell
    else row.end2.side
  }

  /** The row read through `rename(columns=column_swap)`. */
  function RenameColumns(row: BreakpointRow): BreakpointRow
  {
    BreakpointRow(row.end2, row.end1)
  }

  /** Renaming moves the value of column c to column SwapColumn(c), and renaming twice gives back the row. */
  lemma RenameColumnsMovesValues(row: BreakpointRow, c: string)
    requires c in ColumnSwap
    ensures SwapColumn(c) in ColumnSwap
    ensures ColumnValue(RenameColumns(row), SwapColumn(c)) == ColumnValue(row, c)
    ensures RenameColumns(RenameColumns(row)) == row
  {
  }

  /** Both breakend orderings: `concat([table, table renamed])`. */
  function BreakpointTable(rows: seq<BreakpointRow>): seq<BreakpointRow>
  {
    rows + seq(|rows|, i requires 0 <= i < |rows| => RenameColumns(rows[i]))
  }

  /** The table has both orientations of every row, and is closed under swapping breakends. */
  lemma BreakpointTableSymmetric(rows: seq<BreakpointRow>)
    ensures |BreakpointTable(rows)| == 2 * |rows|
    ensures forall i :: 0 <= i < |rows| ==>
      BreakpointTable(rows)[i] == rows[i] && BreakpointTable(rows)[|rows| + i] == RenameColumns(rows[i])
    ensures forall r :: r in BreakpointTable(rows) ==> RenameColumns(r) in BreakpointTable(rows)
  {
    var table := BreakpointTable(rows);
    var n := |rows|;
    forall r | r in table
      ensures RenameColumns(r) in table
    {
      var i :| 0 <= i < |table| && table[i] == r;
      if i < n {
        assert table[n + i] == RenameColumns(r);
      } else {
        assert RenameColumns(r) == table[i - n];
      }
    }
  }

  // ----------------------------------------------------------------------- fit

  /** The statistics row `fit` stores for `collate`. */
  datatype FitStats = FitStats(
    numClones: nat, numSegments: nat,
    ploidy: Option<real>, proportionDivergent: Option<real>,
    modeIdx: nat, divergenceWeight: real, logLikelihood: real)

  datatype FitRecord = FitRecord(hInit: seq<real>, results: FitResults, stats: FitStats)

  /** The three masks `fit` adds, in order. */
  function StandardMasks(maxCopyNumber: nat, minSegmentLength: real, minProportionGenotyped: real): seq<Mask>
  {
    [AmplificationMask(maxCopyNumber), SegmentLengthMask(minSegmentLength), ProportionGenotypedMask(minProportionGenotyped)]
  }

  /**
   * `fit`: build the likelihood and prior, add the masks, run exactly the
   * configured fitter (ValueError for any other name) and summarise. `l` are
   * the segment lengths; `alleleSpecificByDefault` is the prior's default.
   */
  method Fit(e: Engine, fitMethod: string, init: AnalysisInit.InitParams, l: seq<nat>,
             maxCopyNumber: nat, minSegmentLength: real, minProportionGenotyped: real,
             alleleSpecificByDefault: bool)
    returns (r: Result<FitRecord, FitError>)
    requires |init.hInit| >= 1
    requires EngineShapes(e, |l|)
    ensures r.Err? <==> fitMethod !in FitMethodNames || (|l| > 0 && |init.hInit| < 2)
    ensures fitMethod !in FitMethodNames ==> r == Err(UnknownFitMethod(fitMethod))
    ensures r.Ok? ==>
      var lik := LikelihoodState(init.hInit, StandardMasks(maxCopyNumber, minSegmentLength, minProportionGenotyped));
      var prior := PriorState(init.divergenceWeight, alleleSpecificByDefault);
      var res := r.value.results;
      && r.value.hInit == init.hInit
      && (fitMethod == "hmm_viterbi" ==> res == HmmViterbiOutcome(e, lik, prior))
      && (fitMethod == "hmm_graph" ==> res == HmmGraphOutcome(e, lik, prior))
      && (fitMethod == "graph" ==>
            exists seed ::
              && IsSeedOf(seed, e.optimalState(LikelihoodState(SingleCloneDepth(init.hInit), lik.masks), prior).cn, |l|, |init.hInit|)
              && res == GraphOutcome(e, lik, prior, seed))
    ensures r.Ok? ==>
      && IsFittedTensor(r.value.results.cn, |l|, |init.hInit|)
      && r.value.stats == FitStats(
           |r.value.results.h|, |l|,
           Ploidy(r.value.results.cn, l, |init.hInit|),
           ProportionDivergent(r.value.results.cn, l, |init.hInit|),
           init.modeIdx, init.divergenceWeight, r.value.results.logLikelihood)
  {
    var emission := new Emission();
    emission.h := init.hInit;
    var prior := new Prior(init.divergenceWeight, alleleSpecificByDefault);
    emission.AddMask(AmplificationMask(maxCopyNumber));
    emission.AddMask(SegmentLengthMask(minSegmentLength));
    emission.AddMask(ProportionGenotypedMask(minProportionGenotyped));
    assert emission.masks == StandardMasks(maxCopyNumber, minSegmentLength, minProportionGenotyped);

    var method_ := ParseFitMethod(fitMethod);
    if method_.Err? {
      return Err(method_.error);
    }
    var results: FitResults;
    match method_.value {
      case HmmViterbi =>
        results := FitHmmViterbi(e, emission, prior, init.hInit);
      case HmmGraph =>
        results := FitHmmGraph(e, emission, prior, init.hInit);
      case Graph =>
        results := FitGraph(e, emission, prior, init.hInit, |l|);
    }

    var m := |init.hInit|;
    if |l| > 0 && m < 2 {
      return Err(EmptyReduction);
    }
    var stats := FitStats(|results.h|, |l|, Ploidy(results.cn, l, m), ProportionDivergent(results.cn, l, m),
                          init.modeIdx, init.divergenceWeight, results.logLikelihood);
    r := Ok(FitRecord(init.hInit, results, stats));
  }
}
