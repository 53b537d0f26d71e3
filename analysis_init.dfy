/**
 * Candidate generation for model fitting (`init` in remixt/analysis/pipeline.py).
 *
 * Each mode of the minor-allele read depth gives a monoclonal haploid depth
 * (normal, tumour). Crossing it with every tumour mix-fraction tuple gives a
 * polyclonal depth vector; candidates whose estimated ploidy falls outside the
 * optional window are dropped, the survivors are crossed with every divergence
 * weight, and the result is enumerated from 0.
 */
module AnalysisInit {
  import opened Wrappers

  /** Haploid depth of the normal and of a single tumour clone, from one read-depth mode. */
  datatype MonoclonalDepth = MonoclonalDepth(normal: real, tumour: real)

  /** A surviving polyclonal depth vector and the mode it came from. */
  datatype DepthCandidate = DepthCandidate(modeIdx: nat, hInit: seq<real>)

  /** One initialisation: a depth candidate together with a divergence weight. */
  datatype InitParams = InitParams(modeIdx: nat, hInit: seq<real>, divergenceWeight: real)

  /** `[h_mono[0]] + h_mono[1] * mix_frac`. */
  function PolyclonalDepth(hMono: MonoclonalDepth, mixFrac: seq<real>): seq<real>
  {
    [hMono.normal] + seq(|mixFrac|, i requires 0 <= i < |mixFrac| => hMono.tumour * mixFrac[i])
  }

  /** The two `continue` guards: a `None` bound applies no filter. */
  predicate PloidyAdmissible(ploidy: real, minPloidy: Option<real>, maxPloidy: Option<real>)
  {
    && !(minPloidy.Some? && ploidy < minPloidy.value)
    && !(maxPloidy.Some? && ploidy > maxPloidy.value)
  }

  /** The candidates kept for one mode, in mix-fraction order. */
  function ModeCandidates(modeIdx: nat, hMono: MonoclonalDepth, mixFracs: seq<seq<real>>,
                          estimatePloidy: seq<real> -> real,
                          minPloidy: Option<real>, maxPloidy: Option<real>): seq<DepthCandidate>
  {
    if mixFracs == [] then []
    else
      var rest := ModeCandidates(modeIdx, hMono, mixFracs[..|mixFracs| - 1], estimatePloidy, minPloidy, maxPloidy);
      var h := PolyclonalDepth(hMono, mixFracs[|mixFracs| - 1]);
      if PloidyAdmissible(estimatePloidy(h), minPloidy, maxPloidy) then rest + [DepthCandidate(modeIdx, h)] else rest
  }

  /** All kept candidates, mode-major and mix-fraction-minor (`init_h_params`). */
  function DepthCandidates(hMonos: seq<MonoclonalDepth>, mixFracs: seq<seq<real>>,
                           estimatePloidy: seq<real> -> real,
                           minPloidy: Option<real>, maxPloidy: Option<real>): seq<DepthCandidate>
  {
    if hMonos == [] then []
    else
      DepthCandidates(hMonos[..|hMonos| - 1], mixFracs, estimatePloidy, minPloidy, maxPloidy)
      + ModeCandidates(|hMonos| - 1, hMonos[|hMonos| - 1], mixFracs, estimatePloidy, minPloidy, maxPloidy)
  }

  /** One depth candidate crossed with each divergence weight in turn. */
  function Weighted(c: DepthCandidate, weights: seq<real>): seq<InitParams>
  {
    seq(|weights|, j requires 0 <= j < |weights| => InitParams(c.modeIdx, c.hInit, weights[j]))
  }

  /** `itertools.product(init_h_params, divergence_weight_params)`: candidate-major, weight-minor. */
  function WithDivergenceWeights(cs: seq<DepthCandidate>, weights: seq<real>): seq<InitParams>
  {
    if cs == [] then [] else WithDivergenceWeights(cs[..|cs| - 1], weights) + Weighted(cs[|cs| - 1], weights)
  }

  /** Position of the pair (candidate i, weight j) in a candidate-major product of the given width. */
  function ProductIndex(i: nat, j: nat, width: nat): nat
  {
    i * width + j
  }

  /** Every kept candidate comes from some mode and some mix-fraction tuple and passed the ploidy window; every such pair is kept. */
  lemma {:induction false} DepthCandidatesIff(hMonos: seq<MonoclonalDepth>, mixFracs: seq<seq<real>>,
                                              estimatePloidy: seq<real> -> real,
                                              minPloidy: Option<real>, maxPloidy: Option<real>, c: DepthCandidate)
    ensures c in DepthCandidates(hMonos, mixFracs, estimatePloidy, minPloidy, maxPloidy)
        <==> (&& PloidyAdmissible(estimatePloidy(c.hInit), minPloidy, maxPloidy)
              && c.modeIdx < |hMonos|
              && exists j :: 0 <= j < |mixFracs| && c.hInit == PolyclonalDepth(hMonos[c.modeIdx], mixFracs[j]))
  {
    if hMonos != [] {
      var n := |hMonos| - 1;
      DepthCandidatesIff(hMonos[..n], mixFracs, estimatePloidy, minPloidy, maxPloidy, c);
      ModeCandidatesIff(n, hMonos[n], mixFracs, estimatePloidy, minPloidy, maxPloidy, c);
      if c.modeIdx < n {
        assert hMonos[..n][c.modeIdx] == hMonos[c.modeIdx];
      }
    }
  }

  lemma {:induction false} ModeCandidatesIff(modeIdx: nat, hMono: MonoclonalDepth, mixFracs: seq<seq<real>>,
                                             estimatePloidy: seq<real> -> real,
                                             minPloidy: Option<real>, maxPloidy: Option<real>, c: DepthCandidate)
    ensures c in ModeCandidates(modeIdx, hMono, mixFracs, estimatePloidy, minPloidy, maxPloidy)
        <==> (&& PloidyAdmissible(estimatePloidy(c.hInit), minPloidy, maxPloidy)
              && c.modeIdx == modeIdx
              && exists j :: 0 <= j < |mixFracs| && c.hInit == PolyclonalDepth(hMono, mixFracs[j]))
  {
    if mixFracs != [] {
      var n := |mixFracs| - 1;
      ModeCandidatesIff(modeIdx, hMono, mixFracs[..n], estimatePloidy, minPloidy, maxPloidy, c);
      if exists j :: 0 <= j < |mixFracs| && c.hInit == PolyclonalDepth(hMono, mixFracs[j]) {
        var j :| 0 <= j < |mixFracs| && c.hInit == PolyclonalDepth(hMono, mixFracs[j]);
        if j < n {
          assert mixFracs[..n][j] == mixFracs[j];
        }
      }
      if exists j :: 0 <= j < n && c.hInit == PolyclonalDepth(hMono, mixFracs[..n][j]) {
        var j :| 0 <= j < n && c.hInit == PolyclonalDepth(hMono, mixFracs[..n][j]);
        assert mixFracs[..n][j] == mixFracs[j];
      }
    }
  }

  /** The product has |cs| * |weights| entries. */
  lemma {:induction false} WithDivergenceWeightsLength(cs: seq<DepthCandidate>, weights: seq<real>)
    ensures |WithDivergenceWeights(cs, weights)| == |cs| * |weights|
  {
    if cs != [] {
      var n := |cs| - 1;
      WithDivergenceWeightsLength(cs[..n], weights);
      MulSucc(n, |weights|);
    }
  }

  /** The product pairs candidate i with weight j at position i * |weights| + j. */
  lemma {:induction false} WithDivergenceWeightsEntry(cs: seq<DepthCandidate>, weights: seq<real>, i: nat, j: nat)
    requires i < |cs| && j < |weights|
    ensures ProductIndex(i, j, |weights|) < |WithDivergenceWeights(cs, weights)|
    ensures WithDivergenceWeights(cs, weights)[ProductIndex(i, j, |weights|)]
              == InitParams(cs[i].modeIdx, cs[i].hInit, weights[j])
  {
    var n := |cs| - 1;
    var w := |weights|;
    var prefix := WithDivergenceWeights(cs[..n], weights);
    WithDivergenceWeightsLength(cs[..n], weights);
    WithDivergenceWeightsLength(cs, weights);
    ProductIndexBound(i, j, |cs|, w);
    if i < n {
      WithDivergenceWeightsEntry(cs[..n], weights, i, j);
      assert cs[..n][i] == cs[i];
    } else {
      assert ProductIndex(i, j, w) == |prefix| + j;
    }
  }

  /** Every pair (candidate i, weight j) sits at position i * |weights| + j of the product. */
  lemma WithDivergenceWeightsAt(cs: seq<DepthCandidate>, weights: seq<real>)
    ensures |WithDivergenceWeights(cs, weights)| == |cs| * |weights|
    ensures forall i, j :: 0 <= i < |cs| && 0 <= j < |weights| ==>
              ProductIndex(i, j, |weights|) < |cs| * |weights| &&
              WithDivergenceWeights(cs, weights)[ProductIndex(i, j, |weights|)]
                == InitParams(cs[i].modeIdx, cs[i].hInit, weights[j])
  {
    WithDivergenceWeightsLength(cs, weights);
    forall i, j | 0 <= i < |cs| && 0 <= j < |weights|
      ensures ProductIndex(i, j, |weights|) < |cs| * |weights|
      ensures WithDivergenceWeights(cs, weights)[ProductIndex(i, j, |weights|)]
                == InitParams(cs[i].modeIdx, cs[i].hInit, weights[j])
    {
      WithDivergenceWeightsEntry(cs, weights, i, j);
    }
  }

  lemma MulSucc(n: nat, w: nat)
    ensures (n + 1) * w == n * w + w
  {
  }

  lemma ProductIndexBound(i: nat, j: nat, n: nat, w: nat)
    requires i < n && j < w
    ensures ProductIndex(i, j, w) < n * w
    ensures i == n - 1 ==> ProductIndex(i, j, w) == (n - 1) * w + j
  {
    MulSucc(i, w);
    MulMonotone(i + 1, n, w);
  }

  lemma DivMod(k: nat, w: nat)
    requires w > 0
    ensures k / w >= 0 && 0 <= k % w < w && k == ProductIndex(k / w, k % w, w)
  {
  }

  lemma MulMonotone(a: nat, b: nat, w: nat)
    requires a <= b
    ensures a * w <= b * w
  {
  }

  /** Enumerating the weighted candidates gives the keys, order and entry properties `Init` promises. */
  ghost predicate InitSpec(hMonos: seq<MonoclonalDepth>, tumourMixFractions: seq<seq<real>>, divergenceWeights: seq<real>,
                     estimatePloidy: seq<real> -> real, minPloidy: Option<real>, maxPloidy: Option<real>,
                     inits: map<nat, InitParams>)
  {
    var cs := DepthCandidates(hMonos, tumourMixFractions, estimatePloidy, minPloidy, maxPloidy);
    && (forall k: nat :: k in inits <==> k < |cs| * |divergenceWeights|)
    && (forall i, j :: 0 <= i < |cs| && 0 <= j < |divergenceWeights| ==>
          ProductIndex(i, j, |divergenceWeights|) in inits &&
          inits[ProductIndex(i, j, |divergenceWeights|)] == InitParams(cs[i].modeIdx, cs[i].hInit, divergenceWeights[j]))
    && (forall k :: k in inits ==>
          && PloidyAdmissible(estimatePloidy(inits[k].hInit), minPloidy, maxPloidy)
          && inits[k].modeIdx < |hMonos|
          && inits[k].divergenceWeight in divergenceWeights
          && exists j :: 0 <= j < |tumourMixFractions| &&
               inits[k].hInit == PolyclonalDepth(hMonos[inits[k].modeIdx], tumourMixFractions[j]))
  }

  lemma EnumeratedCandidates(hMonos: seq<MonoclonalDepth>, tumourMixFractions: seq<seq<real>>, divergenceWeights: seq<real>,
                             estimatePloidy: seq<real> -> real, minPloidy: Option<real>, maxPloidy: Option<real>)
    ensures var ps := WithDivergenceWeights(DepthCandidates(hMonos, tumourMixFractions, estimatePloidy, minPloidy, maxPloidy), divergenceWeights);
            InitSpec(hMonos, tumourMixFractions, divergenceWeights, estimatePloidy, minPloidy, maxPloidy,
                     map k: nat | k < |ps| :: ps[k])
  {
    var cs := DepthCandidates(hMonos, tumourMixFractions, estimatePloidy, minPloidy, maxPloidy);
    var ps := WithDivergenceWeights(cs, divergenceWeights);
    var inits := map k: nat | k < |ps| :: ps[k];
    var w := |divergenceWeights|;
    assert forall k: nat :: k in inits <==> k < |cs| * w by {
      WithDivergenceWeightsLength(cs, divergenceWeights);
    }
    assert forall i, j :: 0 <= i < |cs| && 0 <= j < w ==>
             ProductIndex(i, j, w) in inits && inits[ProductIndex(i, j, w)] == InitParams(cs[i].modeIdx, cs[i].hInit, divergenceWeights[j]) by {
      WithDivergenceWeightsAt(cs, divergenceWeights);
    }
    forall k | k in inits
      ensures && PloidyAdmissible(estimatePloidy(inits[k].hInit), minPloidy, maxPloidy)
              && inits[k].modeIdx < |hMonos|
              && inits[k].divergenceWeight in divergenceWeights
              && exists j :: 0 <= j < |tumourMixFractions| &&
                   inits[k].hInit == PolyclonalDepth(hMonos[inits[k].modeIdx], tumourMixFractions[j])
    {
      EnumeratedEntry(hMonos, tumourMixFractions, divergenceWeights, estimatePloidy, minPloidy, maxPloidy, k);
    }
  }

  /** Entry k of the product comes from an admissible candidate and one of the weights. */
  lemma EnumeratedEntry(hMonos: seq<MonoclonalDepth>, tumourMixFractions: seq<seq<real>>, divergenceWeights: seq<real>,
                        estimatePloidy: seq<real> -> real, minPloidy: Option<real>, maxPloidy: Option<real>, k: nat)
    requires k < |WithDivergenceWeights(DepthCandidates(hMonos, tumourMixFractions, estimatePloidy, minPloidy, maxPloidy), divergenceWeights)|
    ensures var p := WithDivergenceWeights(DepthCandidates(hMonos, tumourMixFractions, estimatePloidy, minPloidy, maxPloidy), divergenceWeights)[k];
            && PloidyAdmissible(estimatePloidy(p.hInit), minPloidy, maxPloidy)
            && p.modeIdx < |hMonos|
            && p.divergenceWeight in divergenceWeights
            && exists j :: 0 <= j < |tumourMixFractions| &&
                 p.hInit == PolyclonalDepth(hMonos[p.modeIdx], tumourMixFractions[j])
  {
    var cs := DepthCandidates(hMonos, tumourMixFractions, estimatePloidy, minPloidy, maxPloidy);
    var w := |divergenceWeights|;
    WithDivergenceWeightsLength(cs, divergenceWeights);
    assert w > 0;
    var ci, wj := k / w, k % w;
    DivMod(k, w);
    assert ci < |cs| by {
      if ci >= |cs| {
        MulMonotone(|cs|, ci, w);
      }
    }
    WithDivergenceWeightsEntry(cs, divergenceWeights, ci, wj);
    assert cs[ci] in cs;
    DepthCandidatesIff(hMonos, tumourMixFractions, estimatePloidy, minPloidy, maxPloidy, cs[ci]);
  }

  /** The nested mode / mix-fraction loop of `init` that fills `init_h_params`. */
  method CollectDepthCandidates(hMonos: seq<MonoclonalDepth>, tumourMixFractions: seq<seq<real>>,
                                estimatePloidy: seq<real> -> real, minPloidy: Option<real>, maxPloidy: Option<real>)
    returns (initHParams: seq<DepthCandidate>)
    ensures initHParams == DepthCandidates(hMonos, tumourMixFractions, estimatePloidy, minPloidy, maxPloidy)
  {
    initHParams := [];
    var i := 0;
    while i < |hMonos|
      invariant 0 <= i <= |hMonos|
      invariant initHParams == DepthCandidates(hMonos[..i], tumourMixFractions, estimatePloidy, minPloidy, maxPloidy)
    {
      var kept := CollectModeCandidates(i, hMonos[i], tumourMixFractions, estimatePloidy, minPloidy, maxPloidy);
      initHParams := initHParams + kept;
      assert hMonos[..i + 1][..i] == hMonos[..i];
      i := i + 1;
    }
    assert hMonos[..i] == hMonos;
  }

  /** The inner loop of `init` over the mix fractions for one mode. */
  method CollectModeCandidates(modeIdx: nat, hMono: MonoclonalDepth, tumourMixFractions: seq<seq<real>>,
                               estimatePloidy: seq<real> -> real, minPloidy: Option<real>, maxPloidy: Option<real>)
    returns (kept: seq<DepthCandidate>)
    ensures kept == ModeCandidates(modeIdx, hMono, tumourMixFractions, estimatePloidy, minPloidy, maxPloidy)
  {
    kept := [];
    var j := 0;
    while j < |tumourMixFractions|
      invariant 0 <= j <= |tumourMixFractions|
      invariant kept == ModeCandidates(modeIdx, hMono, tumourMixFractions[..j], estimatePloidy, minPloidy, maxPloidy)
    {
      var hPoly := PolyclonalDepth(hMono, tumourMixFractions[j]);
      var estimatedPloidy := estimatePloidy(hPoly);
      var keep := true;
      if minPloidy.Some? && estimatedPloidy < minPloidy.value {
        keep := false;
      }
      if maxPloidy.Some? && estimatedPloidy > maxPloidy.value {
        keep := false;
      }
      if keep {
        kept := kept + [DepthCandidate(modeIdx, hPoly)];
      }
      assert tumourMixFractions[..j + 1][..j] == tumourMixFractions[..j];
      j := j + 1;
    }
    assert tumourMixFractions[..j] == tumourMixFractions;
  }

  /** The `itertools.product` loop of `init` that fills `init_params`. */
  method CrossWithWeights(initHParams: seq<DepthCandidate>, divergenceWeights: seq<real>)
    returns (initParams: seq<InitParams>)
    ensures initParams == WithDivergenceWeights(initHParams, divergenceWeights)
  {
    initParams := [];
    var a := 0;
    while a < |initHParams|
      invariant 0 <= a <= |initHParams|
      invariant initParams == WithDivergenceWeights(initHParams[..a], divergenceWeights)
    {
      var b := 0;
      while b < |divergenceWeights|
        invariant 0 <= b <= |divergenceWeights|
        invariant initParams == WithDivergenceWeights(initHParams[..a], divergenceWeights)
                                + Weighted(initHParams[a], divergenceWeights[..b])
      {
        initParams := initParams + [InitParams(initHParams[a].modeIdx, initHParams[a].hInit, divergenceWeights[b])];
        b := b + 1;
      }
      assert divergenceWeights[..b] == divergenceWeights;
      assert initHParams[..a + 1][..a] == initHParams[..a];
      a := a + 1;
    }
    assert initHParams[..a] == initHParams;
  }

  /**
   * `init`: candidate generation, ploidy filter, crossing with divergence
   * weights and enumeration. The result is keyed 0..n-1, candidate-major and
   * weight-minor; every entry passed the ploidy window, comes from a detected
   * mode and a configured mix-fraction tuple, and carries a configured
   * divergence weight.
   */
  method Init(hMonos: seq<MonoclonalDepth>, tumourMixFractions: seq<seq<real>>, divergenceWeights: seq<real>,
              estimatePloidy: seq<real> -> real, minPloidy: Option<real>, maxPloidy: Option<real>)
    returns (inits: map<nat, InitParams>)
    ensures InitSpec(hMonos, tumourMixFractions, divergenceWeights, estimatePloidy, minPloidy, maxPloidy, inits)
  {
    var initHParams := CollectDepthCandidates(hMonos, tumourMixFractions, estimatePloidy, minPloidy, maxPloidy);
    var initParams := CrossWithWeights(initHParams, divergenceWeights);
    inits := map k: nat | k < |initParams| :: initParams[k];
    EnumeratedCandidates(hMonos, tumourMixFractions, divergenceWeights, estimatePloidy, minPloidy, maxPloidy);
  }
}
