/** Integer copy-number tensors indexed [segment][clone][allele], and the sums used over them. */
module CopyNumbers {

  type Tensor = seq<seq<seq<int>>>

  /** `t` has n segments, m clones per segment and a alleles per clone. */
  predicate IsTensor(t: Tensor, n: nat, m: nat, a: nat)
  {
    && |t| == n
    && (forall i :: 0 <= i < n ==> |t[i]| == m)
    && (forall i, j :: 0 <= i < n && 0 <= j < m ==> |t[i][j]| == a)
  }

  function SumReal(s: seq<real>): real
  {
    if s == [] then 0.0 else s[0] + SumReal(s[1..])
  }

  function SumInt(s: seq<int>): int
  {
    if s == [] then 0 else s[0] + SumInt(s[1..])
  }

  lemma {:induction false} SumIntAppend(s: seq<int>, t: seq<int>)
    ensures SumInt(s + t) == SumInt(s) + SumInt(t)
  {
    if s == [] {
      assert s + t == t;
    } else {
      assert (s + t)[1..] == s[1..] + t;
      SumIntAppend(s[1..], t);
    }
  }

  lemma {:induction false} SumRealAppend(s: seq<real>, t: seq<real>)
    ensures SumReal(s + t) == SumReal(s) + SumReal(t)
  {
    if s == [] {
      assert s + t == t;
    } else {
      assert (s + t)[1..] == s[1..] + t;
      SumRealAppend(s[1..], t);
    }
  }

  /** A sum of nonnegative terms is nonnegative. */
  lemma {:induction false} SumIntNonnegative(s: seq<int>)
    requires forall i :: 0 <= i < |s| ==> s[i] >= 0
    ensures SumInt(s) >= 0
  {
    if s != [] {
      SumIntNonnegative(s[1..]);
    }
  }
}
