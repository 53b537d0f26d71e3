/**
 * Segment and breakpoint tables of a simulated genome collection
 * (`write_perfect_segments` and `write_breakpoints` in remixt/simulations/pipeline.py).
 *
 * Runs of consecutive segments with the same copy number of every clone and allele get
 * one segment id; the segments of one chromosome and id are merged into one interval.
 * Each breakpoint is written as two breakends with chromosome, strand and position.
 */
module SimulationSegments {
  import opened Wrappers
  import opened CopyNumbers

  // ------------------------------------------------------------ segment ids

  function Abs(x: int): nat
  {
    if x < 0 then -x else x
  }

  /** Sum of absolute differences of two clones' allele copy numbers. */
  function AbsDiffAlleles(x: seq<int>, y: seq<int>): nat
    requires |x| == |y|
  {
    if x == [] then 0 else Abs(x[0] - y[0]) + AbsDiffAlleles(x[1..], y[1..])
  }

  /** `np.abs(np.diff(cn, axis=0)).sum(axis=(1,2))` for one pair of segments. */
  function AbsDiffSum(x: seq<seq<int>>, y: seq<seq<int>>): nat
    requires |x| == |y| && forall j :: 0 <= j < |x| ==> |x[j]| == |y[j]|
  {
    if x == [] then 0 else AbsDiffAlleles(x[0], y[0]) + AbsDiffSum(x[1..], y[1..])
  }

  lemma {:induction false} AbsDiffAllelesZero(x: seq<int>, y: seq<int>)
    requires |x| == |y|
    ensures AbsDiffAlleles(x, y) == 0 <==> x == y
  {
    if x != [] {
      AbsDiffAllelesZero(x[1..], y[1..]);
      if x[1..] == y[1..] && x[0] == y[0] {
        assert x == [x[0]] + x[1..] && y == [y[0]] + y[1..];
      }
    }
  }

  /** The difference sum of two segments is zero exactly when their copy numbers agree everywhere. */
  lemma {:induction false} AbsDiffSumZero(x: seq<seq<int>>, y: seq<seq<int>>)
    requires |x| == |y| && forall j :: 0 <= j < |x| ==> |x[j]| == |y[j]|
    ensures AbsDiffSum(x, y) == 0 <==> x == y
  {
    if x != [] {
      AbsDiffSumZero(x[1..], y[1..]);
      AbsDiffAllelesZero(x[0], y[0]);
      if x[1..] == y[1..] && x[0] == y[0] {
        assert x == [x[0]] + x[1..] && y == [y[0]] + y[1..];
      }
    }
  }

  /** `is_new_seg`: 1 for the first segment and for every segment whose block differs from the previous one. */
  function NewSegFlags(cn: Tensor, m: nat, a: nat): (f: seq<int>)
    requires IsTensor(cn, |cn|, m, a)
    ensures |f| == |cn|
  {
    seq(|cn|, i requires 0 <= i < |cn| => if i == 0 then 1 else if AbsDiffSum(cn[i], cn[i - 1]) > 0 then 1 else 0)
  }

  /** Running sums, `cumsum`. */
  function CumSum(xs: seq<int>): (r: seq<int>)
    ensures |r| == |xs|
  {
    if xs == [] then []
    else
      var p := CumSum(xs[..|xs| - 1]);
      p + [(if p == [] then 0 else p[|p| - 1]) + xs[|xs| - 1]]
  }

  lemma {:induction false} CumSumAt(xs: seq<int>)
    ensures |xs| > 0 ==> CumSum(xs)[0] == xs[0]
    ensures forall i :: 0 < i < |xs| ==> CumSum(xs)[i] == CumSum(xs)[i - 1] + xs[i]
  {
    if xs != [] {
      var init := xs[..|xs| - 1];
      CumSumAt(init);
      assert forall i :: 0 <= i < |init| ==> CumSum(xs)[i] == CumSum(init)[i] && xs[i] == init[i];
    }
  }

  /** `seg_id = is_new_seg.cumsum() - 1`. */
  function SegIds(cn: Tensor, m: nat, a: nat): (ids: seq<int>)
    requires IsTensor(cn, |cn|, m, a)
    ensures |ids| == |cn|
  {
    var c := CumSum(NewSegFlags(cn, m, a));
    seq(|cn|, i requires 0 <= i < |cn| => c[i] - 1)
  }

  /** Ids start at 0 and go up by one exactly where the copy-number block changes. */
  lemma SegIdsStep(cn: Tensor, m: nat, a: nat)
    requires IsTensor(cn, |cn|, m, a)
    ensures |cn| > 0 ==> SegIds(cn, m, a)[0] == 0
    ensures forall i :: 0 < i < |cn| ==>
      SegIds(cn, m, a)[i] == SegIds(cn, m, a)[i - 1] + (if cn[i] != cn[i - 1] then 1 else 0)
  {
    var f := NewSegFlags(cn, m, a);
    var c := CumSum(f);
    var ids := SegIds(cn, m, a);
    CumSumAt(f);
    forall i | 0 < i < |cn|
      ensures ids[i] == ids[i - 1] + (if cn[i] != cn[i - 1] then 1 else 0)
    {
      AbsDiffSumZero(cn[i], cn[i - 1]);
      assert f[i] == if cn[i] != cn[i - 1] then 1 else 0;
      assert c[i] == c[i - 1] + f[i];
    }
  }

  /** Ids never decrease, and two segments with the same id have the same copy number. */
  lemma {:induction false} SegIdsSameBlock(cn: Tensor, m: nat, a: nat, i: nat, j: nat)
    requires IsTensor(cn, |cn|, m, a) && i <= j < |cn|
    ensures SegIds(cn, m, a)[i] <= SegIds(cn, m, a)[j]
    ensures SegIds(cn, m, a)[i] == SegIds(cn, m, a)[j] ==> cn[i] == cn[j]
    decreases j - i
  {
    var ids := SegIds(cn, m, a);
    if i < j {
      SegIdsSameBlock(cn, m, a, i, j - 1);
      SegIdsStep(cn, m, a);
      assert ids[j] == ids[j - 1] + (if cn[j] != cn[j - 1] then 1 else 0);
    }
  }

  // ------------------------------------------------------------ merged segments

  datatype Segment = Segment(chromosome: string, start: int, end: int)

  function Min(x: int, y: int): int { if x <= y then x else y }

  function Max(x: int, y: int): int { if x >= y then x else y }

  /**
   * `groupby(['chromosome', 'seg_id']).agg({'start': min, 'end': max})`: one interval per
   * chromosome and segment id.
   */
  function Merge(segs: seq<Segment>, ids: seq<int>): map<(string, int), (int, int)>
    requires |segs| == |ids|
  {
    if segs == [] then map[]
    else
      var n := |segs| - 1;
      var m := Merge(segs[..n], ids[..n]);
      var k := (segs[n].chromosome, ids[n]);
      m[k := if k in m then (Min(m[k].0, segs[n].start), Max(m[k].1, segs[n].end)) else (segs[n].start, segs[n].end)]
  }

  predicate InGroup(segs: seq<Segment>, ids: seq<int>, i: int, k: (string, int))
    requires |segs| == |ids|
  {
    0 <= i < |segs| && (segs[i].chromosome, ids[i]) == k
  }

  /** `v` is the smallest start of the group `k`. */
  ghost predicate IsGroupMin(segs: seq<Segment>, ids: seq<int>, k: (string, int), v: int)
    requires |segs| == |ids|
  {
    (exists i :: InGroup(segs, ids, i, k) && segs[i].start == v) &&
    (forall i :: InGroup(segs, ids, i, k) ==> v <= segs[i].start)
  }

  /** `v` is the largest end of the group `k`. */
  ghost predicate IsGroupMax(segs: seq<Segment>, ids: seq<int>, k: (string, int), v: int)
    requires |segs| == |ids|
  {
    (exists i :: InGroup(segs, ids, i, k) && segs[i].end == v) &&
    (forall i :: InGroup(segs, ids, i, k) ==> segs[i].end <= v)
  }

  /**
   * There is one merged interval per chromosome and id that occur together, and it runs from
   * its group's smallest start to its group's largest end.
   */
  lemma {:induction false} MergeSpec(segs: seq<Segment>, ids: seq<int>, k: (string, int))
    requires |segs| == |ids|
    ensures k in Merge(segs, ids) <==> exists i :: InGroup(segs, ids, i, k)
    ensures k in Merge(segs, ids) ==>
      IsGroupMin(segs, ids, k, Merge(segs, ids)[k].0) && IsGroupMax(segs, ids, k, Merge(segs, ids)[k].1)
  {
    if segs != [] {
      var n := |segs| - 1;
      var s0, i0 := segs[..n], ids[..n];
      MergeSpec(s0, i0, k);
      var m := Merge(s0, i0);
      var r := Merge(segs, ids);
      var kn := (segs[n].chromosome, ids[n]);
      assert forall i :: 0 <= i < n ==> (InGroup(segs, ids, i, k) <==> InGroup(s0, i0, i, k));
      if k != kn {
        assert !InGroup(segs, ids, n, k);
        if k in m {
          var i1 :| InGroup(s0, i0, i1, k) && s0[i1].start == m[k].0;
          var i2 :| InGroup(s0, i0, i2, k) && s0[i2].end == m[k].1;
          assert InGroup(segs, ids, i1, k) && InGroup(segs, ids, i2, k);
        }
        if exists i :: InGroup(segs, ids, i, k) {
          var i :| InGroup(segs, ids, i, k);
          assert InGroup(s0, i0, i, k);
        }
      } else if k in m {
        var i1 :| InGroup(s0, i0, i1, k) && s0[i1].start == m[k].0;
        var i2 :| InGroup(s0, i0, i2, k) && s0[i2].end == m[k].1;
        assert InGroup(segs, ids, i1, k) && InGroup(segs, ids, i2, k) && InGroup(segs, ids, n, k);
      } else {
        assert InGroup(segs, ids, n, k);
      }
    }
  }

  /** `write_perfect_segments`: ids from the copy number, then one interval per chromosome and id. */
  function PerfectSegments(segs: seq<Segment>, cn: Tensor, m: nat, a: nat): map<(string, int), (int, int)>
    requires IsTensor(cn, |segs|, m, a)
  {
    Merge(segs, SegIds(cn, m, a))
  }

  /** Segments merged into one interval lie on one chromosome and carry the same copy number. */
  lemma PerfectSegmentsSameCopyNumber(segs: seq<Segment>, cn: Tensor, m: nat, a: nat, i: nat, j: nat)
    requires IsTensor(cn, |segs|, m, a) && i <= j < |segs|
    requires (segs[i].chromosome, SegIds(cn, m, a)[i]) == (segs[j].chromosome, SegIds(cn, m, a)[j])
    ensures cn[i] == cn[j]
    ensures (segs[i].chromosome, SegIds(cn, m, a)[i]) in PerfectSegments(segs, cn, m, a)
  {
    SegIdsSameBlock(cn, m, a, i, j);
    MergeSpec(segs, SegIds(cn, m, a), (segs[i].chromosome, SegIds(cn, m, a)[i]));
    assert InGroup(segs, SegIds(cn, m, a), i, (segs[i].chromosome, SegIds(cn, m, a)[i]));
  }

  // ------------------------------------------------------------ breakpoints

  /** 0 is the start side of a segment, 1 its end side. */
  type Side = s: int | 0 <= s <= 1

  datatype Breakend = Breakend(n: nat, side: Side)

  /** One breakend as written: chromosome, strand and position. */
  datatype BreakendFields = BreakendFields(chromosome: string, strand: char, position: int)

  datatype BreakpointRow = BreakpointRow(end1: BreakendFields, end2: BreakendFields, predictionId: nat)

  datatype SegmentError = UnknownSegment(n: nat)

  /** A start side faces left (strand '-'), an end side faces right (strand '+'). */
  function Fields(segs: seq<Segment>, b: Breakend): (f: BreakendFields)
    requires b.n < |segs|
    ensures f.chromosome == segs[b.n].chromosome
    ensures f.strand == '-' <==> b.side == 0
    ensures f.strand == '+' <==> b.side == 1
    ensures f.position == if b.side == 0 then segs[b.n].start else segs[b.n].end
  {
    var seg := segs[b.n];
    if b.side == 0 then BreakendFields(seg.chromosome, '-', seg.start)
    else BreakendFields(seg.chromosome, '+', seg.end)
  }

  /** `write_breakpoints`: one row per breakpoint with both breakends' fields, numbered from 0. */
  method WriteBreakpoints(segs: seq<Segment>, breakpoints: seq<(Breakend, Breakend)>)
    returns (r: Result<seq<BreakpointRow>, SegmentError>)
    ensures r.Err? <==> exists k :: 0 <= k < |breakpoints| && (breakpoints[k].0.n >= |segs| || breakpoints[k].1.n >= |segs|)
    ensures r.Ok? ==> |r.value| == |breakpoints|
    ensures r.Ok? ==> forall k :: 0 <= k < |breakpoints| ==>
      breakpoints[k].0.n < |segs| && breakpoints[k].1.n < |segs| &&
      r.value[k] == BreakpointRow(Fields(segs, breakpoints[k].0), Fields(segs, breakpoints[k].1), k)
  {
    var table: seq<BreakpointRow> := [];
    var k := 0;
    while k < |breakpoints|
      invariant 0 <= k <= |breakpoints| && |table| == k
      invariant forall k' :: 0 <= k' < k ==>
        breakpoints[k'].0.n < |segs| && breakpoints[k'].1.n < |segs| &&
        table[k'] == BreakpointRow(Fields(segs, breakpoints[k'].0), Fields(segs, breakpoints[k'].1), k')
    {
      var (b1, b2) := breakpoints[k];
      if b1.n >= |segs| {
        return Err(UnknownSegment(b1.n));
      }
      if b2.n >= |segs| {
        return Err(UnknownSegment(b2.n));
      }
      table := table + [BreakpointRow(Fields(segs, b1), Fields(segs, b2), k)];
      k := k + 1;
    }
    r := Ok(table);
  }
}
