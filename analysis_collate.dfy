/**
 * `collate` in remixt/analysis/pipeline.py: the per-fit statistics rows are sorted by
 * log-likelihood, highest first, and the first row of every (mode_idx, divergence_weight)
 * group is kept. The HDF5 stores that are read and copied are not part of this model.
 */
module AnalysisCollate {
  import opened Wrappers

  /** One row of the statistics table, reduced to the columns that drive the selection. */
  datatype StatsRow = StatsRow(initId: nat, modeIdx: nat, divergenceWeight: real, logLikelihood: real)

  /** The grouping key `(mode_idx, divergence_weight)`. */
  datatype GroupKey = GroupKey(modeIdx: nat, divergenceWeight: real)

  /** `pd.concat` of no stats tables raises ValueError: there are no fits to collate. */
  datatype CollateError = NoFits

  function KeyOf(r: StatsRow): GroupKey
  {
    GroupKey(r.modeIdx, r.divergenceWeight)
  }

  function LogLikelihood(r: StatsRow): real
  {
    r.logLikelihood
  }

  /** Sorted by log-likelihood, highest first. */
  predicate Descending(s: seq<StatsRow>)
  {
    forall p, q :: 0 <= p < q < |s| ==> LogLikelihood(s[p]) >= LogLikelihood(s[q])
  }

  /** The keys occurring in a table. */
  function Keys(s: seq<StatsRow>): set<GroupKey>
  {
    set i | 0 <= i < |s| :: KeyOf(s[i])
  }

  /**
   * `groupby([mode_idx, divergence_weight], sort=False).first()`: one row per key, the
   * earliest row carrying it, groups in order of first appearance.
   */
  function FirstPerGroup(s: seq<StatsRow>): seq<StatsRow>
  {
    if s == [] then []
    else
      var g := FirstPerGroup(s[..|s| - 1]);
      if KeyOf(s[|s| - 1]) in Keys(g) then g else g + [s[|s| - 1]]
  }

  /** Distinct rows of the output carry distinct keys. */
  predicate DistinctKeys(s: seq<StatsRow>)
  {
    forall p, q :: 0 <= p < q < |s| ==> KeyOf(s[p]) != KeyOf(s[q])
  }

  lemma KeysAppend(s: seq<StatsRow>, r: StatsRow)
    ensures Keys(s + [r]) == Keys(s) + {KeyOf(r)}
  {
    var t := s + [r];
    forall k | k in Keys(t)
      ensures k in Keys(s) + {KeyOf(r)}
    {
      var i :| 0 <= i < |t| && KeyOf(t[i]) == k;
      if i < |s| {
        assert KeyOf(s[i]) == k;
      }
    }
    forall k | k in Keys(s)
      ensures k in Keys(t)
    {
      var i :| 0 <= i < |s| && KeyOf(s[i]) == k;
      assert KeyOf(t[i]) == k;
    }
    assert KeyOf(t[|s|]) == KeyOf(r);
  }

  /** `s[i]` is the earliest row of `s` with its key. */
  predicate FirstOfKey(s: seq<StatsRow>, i: nat)
  {
    i < |s| && forall i' :: 0 <= i' < i ==> KeyOf(s[i']) != KeyOf(s[i])
  }

  /** `r` is the earliest row of `s` carrying its key. */
  ghost predicate EarliestOfGroup(s: seq<StatsRow>, r: StatsRow)
  {
    exists i: nat :: FirstOfKey(s, i) && s[i] == r
  }

  /** The kept keys are exactly the keys of the input. */
  lemma {:induction false} FirstPerGroupKeys(s: seq<StatsRow>)
    ensures Keys(FirstPerGroup(s)) == Keys(s)
  {
    if s != [] {
      var init := s[..|s| - 1];
      var last := s[|s| - 1];
      FirstPerGroupKeys(init);
      assert s == init + [last];
      KeysAppend(init, last);
      var g := FirstPerGroup(init);
      if KeyOf(last) !in Keys(g) {
        KeysAppend(g, last);
      }
    }
  }

  /** No two kept rows share a key. */
  lemma {:induction false} FirstPerGroupDistinct(s: seq<StatsRow>)
    ensures DistinctKeys(FirstPerGroup(s))
  {
    if s != [] {
      var init := s[..|s| - 1];
      var last := s[|s| - 1];
      FirstPerGroupDistinct(init);
      var g := FirstPerGroup(init);
      if KeyOf(last) !in Keys(g) {
        var g' := g + [last];
        forall p, q | 0 <= p < q < |g'|
          ensures KeyOf(g'[p]) != KeyOf(g'[q])
        {
          if q == |g| {
            assert KeyOf(g[p]) in Keys(g);
          }
        }
      }
    }
  }

  /** Every kept row is the earliest row of its group. */
  lemma {:induction false} FirstPerGroupEarliest(s: seq<StatsRow>)
    ensures forall k :: 0 <= k < |FirstPerGroup(s)| ==> EarliestOfGroup(s, FirstPerGroup(s)[k])
  {
    if s != [] {
      var init := s[..|s| - 1];
      var last := s[|s| - 1];
      FirstPerGroupEarliest(init);
      var g := FirstPerGroup(init);
      forall k | 0 <= k < |g|
        ensures EarliestOfGroup(s, g[k])
      {
        var i: nat :| FirstOfKey(init, i) && init[i] == g[k];
        assert FirstOfKey(s, i) && s[i] == g[k];
      }
      if KeyOf(last) !in Keys(g) {
        FirstPerGroupKeys(init);
        assert FirstOfKey(s, |s| - 1) by {
          forall i' | 0 <= i' < |s| - 1
            ensures KeyOf(s[i']) != KeyOf(last)
          {
            assert KeyOf(init[i']) in Keys(init);
          }
        }
      }
    }
  }

  /** Every row kept is the earliest row of its group; the kept keys are distinct and cover the input. */
  lemma FirstPerGroupSpec(s: seq<StatsRow>)
    ensures DistinctKeys(FirstPerGroup(s))
    ensures Keys(FirstPerGroup(s)) == Keys(s)
    ensures forall k :: 0 <= k < |FirstPerGroup(s)| ==> EarliestOfGroup(s, FirstPerGroup(s)[k])
  {
    FirstPerGroupDistinct(s);
    FirstPerGroupKeys(s);
    FirstPerGroupEarliest(s);
  }

  /** On a table sorted highest first, the kept row of each group has the group's highest log-likelihood. */
  lemma FirstPerGroupIsBest(s: seq<StatsRow>)
    requires Descending(s)
    ensures forall k, i :: 0 <= k < |FirstPerGroup(s)| && 0 <= i < |s| && KeyOf(s[i]) == KeyOf(FirstPerGroup(s)[k]) ==>
      LogLikelihood(FirstPerGroup(s)[k]) >= LogLikelihood(s[i])
  {
    FirstPerGroupSpec(s);
    var g := FirstPerGroup(s);
    forall k, i | 0 <= k < |g| && 0 <= i < |s| && KeyOf(s[i]) == KeyOf(g[k])
      ensures LogLikelihood(g[k]) >= LogLikelihood(s[i])
    {
      var j: nat :| FirstOfKey(s, j) && s[j] == g[k];
      assert j <= i;
    }
  }

  /** `stats_table.sort('log_likelihood', ascending=False)`, as an insertion sort. */
  method SortByLogLikelihood(rows: seq<StatsRow>) returns (sorted: seq<StatsRow>)
    ensures Descending(sorted)
    ensures multiset(sorted) == multiset(rows)
  {
    sorted := rows;
    var i := 0;
    while i < |sorted|
      invariant 0 <= i <= |sorted|
      invariant forall p, q :: 0 <= p < q < i ==> LogLikelihood(sorted[p]) >= LogLikelihood(sorted[q])
      invariant multiset(sorted) == multiset(rows)
    {
      sorted := InsertAt(sorted, i);
      i := i + 1;
    }
  }

  /** Descending, except that the element at `j` may be larger than those before it. */
  predicate DescendingExcept(s: seq<StatsRow>, i: nat, j: nat)
    requires i < |s|
  {
    forall p, q :: 0 <= p < q <= i && q != j ==> LogLikelihood(s[p]) >= LogLikelihood(s[q])
  }

  /** Exchanging `s[j - 1]` and `s[j]` moves the out-of-place element one step down. */
  lemma SwapDown(s: seq<StatsRow>, i: nat, j: nat)
    requires i < |s| && 0 < j <= i
    requires DescendingExcept(s, i, j)
    requires LogLikelihood(s[j - 1]) < LogLikelihood(s[j])
    requires j < i ==> LogLikelihood(s[j - 1]) >= LogLikelihood(s[j + 1])
    ensures DescendingExcept(s[j - 1 := s[j]][j := s[j - 1]], i, j - 1)
    ensures 0 < j - 1 ==> LogLikelihood(s[j - 2]) >= LogLikelihood(s[j - 1])
  {
  }

  /** Exchanging two neighbours keeps the rows. */
  lemma SwapKeepsRows(s: seq<StatsRow>, j: nat)
    requires 0 < j < |s|
    ensures multiset(s[j - 1 := s[j]][j := s[j - 1]]) == multiset(s)
  {
  }

  /** Moves `s[i]` down into the descending prefix `s[..i]`. */
  method InsertAt(s0: seq<StatsRow>, i: nat) returns (s: seq<StatsRow>)
    requires i < |s0|
    requires DescendingExcept(s0, i, i)
    ensures |s| == |s0| && DescendingExcept(s, i, i + 1)
    ensures multiset(s) == multiset(s0)
  {
    s := s0;
    var j := i;
    while j > 0 && LogLikelihood(s[j - 1]) < LogLikelihood(s[j])
      invariant |s| == |s0| && 0 <= j <= i
      invariant DescendingExcept(s, i, j)
      invariant 0 < j < i ==> LogLikelihood(s[j - 1]) >= LogLikelihood(s[j + 1])
      invariant multiset(s) == multiset(s0)
    {
      SwapDown(s, i, j);
      SwapKeepsRows(s, j);
      s := s[j - 1 := s[j]][j := s[j - 1]];
      j := j - 1;
    }
  }

  /** The group selection loop: keeps a row when its key has not been seen yet. */
  method SelectFirstPerGroup(s: seq<StatsRow>) returns (selected: seq<StatsRow>)
    ensures selected == FirstPerGroup(s)
  {
    selected := [];
    var seen: set<GroupKey> := {};
    var i := 0;
    while i < |s|
      invariant 0 <= i <= |s|
      invariant selected == FirstPerGroup(s[..i])
      invariant seen == Keys(selected)
    {
      assert s[..i + 1][..i] == s[..i];
      if KeyOf(s[i]) !in seen {
        KeysAppend(selected, s[i]);
        selected := selected + [s[i]];
        seen := seen + {KeyOf(s[i])};
      }
      i := i + 1;
    }
    assert s[..i] == s;
  }

  /**
   * `collate`: with no fits, concatenating the stats tables fails. Otherwise the selected rows
   * are rows of the input, one per group, and each has the highest log-likelihood of its group.
   * Which of several tied rows is kept is not specified.
   */
  method Collate(rows: seq<StatsRow>) returns (r: Result<seq<StatsRow>, CollateError>)
    ensures r.Err? <==> rows == []
    ensures r.Err? ==> r.error == NoFits
    ensures r.Ok? ==> forall k :: 0 <= k < |r.value| ==> r.value[k] in rows
    ensures r.Ok? ==> DistinctKeys(r.value)
    ensures r.Ok? ==> Keys(r.value) == Keys(rows)
    ensures r.Ok? ==> forall k, i :: 0 <= k < |r.value| && 0 <= i < |rows| && KeyOf(rows[i]) == KeyOf(r.value[k]) ==>
      LogLikelihood(r.value[k]) >= LogLikelihood(rows[i])
  {
    if rows == [] {
      return Err(NoFits);
    }
    var sorted := SortByLogLikelihood(rows);
    var selected := SelectFirstPerGroup(sorted);
    FirstPerGroupSpec(sorted);
    SelectionOfSortedRows(rows, sorted);
    r := Ok(selected);
  }

  /** On any highest-first ordering of the rows, the group selection keeps one best row of the input per group. */
  lemma SelectionOfSortedRows(rows: seq<StatsRow>, sorted: seq<StatsRow>)
    requires multiset(sorted) == multiset(rows) && Descending(sorted)
    ensures forall k :: 0 <= k < |FirstPerGroup(sorted)| ==> FirstPerGroup(sorted)[k] in rows
    ensures Keys(FirstPerGroup(sorted)) == Keys(rows)
    ensures forall k, i :: 0 <= k < |FirstPerGroup(sorted)| && 0 <= i < |rows| && KeyOf(rows[i]) == KeyOf(FirstPerGroup(sorted)[k]) ==>
      LogLikelihood(FirstPerGroup(sorted)[k]) >= LogLikelihood(rows[i])
  {
    var selected := FirstPerGroup(sorted);
    FirstPerGroupSpec(sorted);
    FirstPerGroupIsBest(sorted);
    forall r | r in rows
      ensures r in sorted
    {
      assert r in multiset(rows);
    }
    forall r | r in sorted
      ensures r in rows
    {
      assert r in multiset(sorted);
    }
    forall k | 0 <= k < |selected|
      ensures selected[k] in rows
    {
      var i: nat :| FirstOfKey(sorted, i) && sorted[i] == selected[k];
      assert sorted[i] in sorted;
    }
    forall k | k in Keys(rows)
      ensures k in Keys(sorted)
    {
      var i :| 0 <= i < |rows| && KeyOf(rows[i]) == k;
      assert rows[i] in rows;
      var j :| 0 <= j < |sorted| && sorted[j] == rows[i];
    }
    forall k | k in Keys(sorted)
      ensures k in Keys(rows)
    {
      var i :| 0 <= i < |sorted| && KeyOf(sorted[i]) == k;
      assert sorted[i] in sorted;
      var j :| 0 <= j < |rows| && rows[j] == sorted[i];
    }
    forall k, i | 0 <= k < |selected| && 0 <= i < |rows| && KeyOf(rows[i]) == KeyOf(selected[k])
      ensures LogLikelihood(selected[k]) >= LogLikelihood(rows[i])
    {
      assert rows[i] in rows;
      var j :| 0 <= j < |sorted| && sorted[j] == rows[i];
    }
  }
}
