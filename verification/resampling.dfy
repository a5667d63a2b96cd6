/**
 * The numeric bookkeeping behind importance resampling in
 * lab8/particle_filter.py (lines 111-131): summing the weights, normalising
 * them, accumulating them into a cumulative distribution, and looking a
 * uniform draw up in it with Python's `bisect.bisect_left`.
 */
module Resampling {

  /** Python's `sum`: the weights added from left to right; all-zero weights sum to zero. */
  function Sum(ws: seq<real>): (r: real)
    ensures (forall i :: 0 <= i < |ws| ==> ws[i] == 0.0) ==> r == 0.0
    decreases |ws|
  {
    if ws == [] then 0.0 else Sum(ws[..|ws| - 1]) + ws[|ws| - 1]
  }

  /** All entries are non-negative. */
  predicate NonNegative(ws: seq<real>)
  {
    forall i :: 0 <= i < |ws| ==> ws[i] >= 0.0
  }

  /** `a` never decreases from left to right. */
  predicate Sorted(a: seq<real>)
  {
    forall i, j :: 0 <= i <= j < |a| ==> a[i] <= a[j]
  }

  /** Summing from the front gives the same total as summing from the back. */
  lemma {:induction false} SumCons(ws: seq<real>)
    requires ws != []
    ensures Sum(ws) == ws[0] + Sum(ws[1..])
    decreases |ws|
  {
    if |ws| > 1 {
      var init := ws[..|ws| - 1];
      SumCons(init);
      assert init[1..] == ws[1..][..|ws[1..]| - 1];
    }
  }

  /** A sum of non-negative weights is non-negative, and positive as soon as one weight is. */
  lemma {:induction false} SumNonNegative(ws: seq<real>)
    requires NonNegative(ws)
    ensures Sum(ws) >= 0.0
    ensures (exists i :: 0 <= i < |ws| && ws[i] > 0.0) ==> Sum(ws) > 0.0
    decreases |ws|
  {
    if ws != [] {
      var init := ws[..|ws| - 1];
      SumNonNegative(init);
      if exists i :: 0 <= i < |ws| && ws[i] > 0.0 {
        var i :| 0 <= i < |ws| && ws[i] > 0.0;
        if i < |ws| - 1 {
          assert init[i] > 0.0;
        }
      }
    }
  }

  /** Line 114: every weight divided by the total. */
  function Normalize(ws: seq<real>, total: real): (r: seq<real>)
    requires total != 0.0
    ensures |r| == |ws|
    ensures forall i :: 0 <= i < |ws| ==> r[i] == ws[i] / total
  {
    seq(|ws|, i requires 0 <= i < |ws| => ws[i] / total)
  }

  /** Dividing by the total term by term divides the sum by it. */
  lemma {:induction false} SumNormalize(ws: seq<real>, total: real)
    requires total != 0.0
    ensures Sum(Normalize(ws, total)) == Sum(ws) / total
    decreases |ws|
  {
    if ws != [] {
      var init := ws[..|ws| - 1];
      SumNormalize(init, total);
      assert Normalize(ws, total)[..|ws| - 1] == Normalize(init, total);
      DivAdd(Sum(init), ws[|ws| - 1], total);
    }
  }

  /** Line 114 normalises by the weights' own sum, so the normalised weights sum to 1. */
  lemma NormalizedSumIsOne(ws: seq<real>)
    requires Sum(ws) != 0.0
    ensures Sum(Normalize(ws, Sum(ws))) == 1.0
  {
    SumNormalize(ws, Sum(ws));
    DivSelf(Sum(ws));
  }

  /** Division by the total distributes over addition (the step of `SumNormalize`). */
  lemma DivAdd(a: real, b: real, c: real)
    requires c != 0.0
    ensures a / c + b / c == (a + b) / c
  {
  }

  /**
   * Lines 117-121: `accumulation` starts at `acc` and each weight is added
   * and appended in turn; entry `i` is `acc` plus the first `i + 1` weights.
   */
  function Cumulative(ws: seq<real>, acc: real): (r: seq<real>)
    ensures |r| == |ws|
    ensures forall i :: 0 <= i < |ws| ==> r[i] == acc + Sum(ws[..i + 1])
    ensures ws != [] ==> r[0] == acc + ws[0]
    decreases |ws|
  {
    if ws == [] then []
    else
      var rest := Cumulative(ws[1..], acc + ws[0]);
      var r := [acc + ws[0]] + rest;
      assert forall i :: 0 <= i < |ws| ==> r[i] == acc + Sum(ws[..i + 1]) by {
        forall i | 0 <= i < |ws| ensures r[i] == acc + Sum(ws[..i + 1]) {
          SumCons(ws[..i + 1]);
          if i > 0 {
            assert ws[..i + 1][1..] == ws[1..][..i];
          } else {
            assert ws[..1][1..] == [];
          }
        }
      }
      r
  }

  /** Each entry of the accumulation is the one before plus its own weight. */
  lemma {:induction false} CumulativeStep(ws: seq<real>, acc: real, i: nat)
    requires 0 < i < |ws|
    ensures Cumulative(ws, acc)[i] == Cumulative(ws, acc)[i - 1] + ws[i]
  {
    assert ws[..i + 1][..i] == ws[..i];
  }

  /** The accumulation from 0 ends on the total of the weights. */
  lemma {:induction false} CumulativeTotal(ws: seq<real>)
    requires ws != []
    ensures Cumulative(ws, 0.0)[|ws| - 1] == Sum(ws)
  {
    assert ws[..|ws|] == ws;
  }

  /** The accumulation of non-negative weights never decreases. */
  lemma CumulativeSorted(ws: seq<real>)
    requires NonNegative(ws)
    ensures Sorted(Cumulative(ws, 0.0))
  {
    var c := Cumulative(ws, 0.0);
    forall i, j | 0 <= i <= j < |c| ensures c[i] <= c[j] {
      assert c[i] == Sum(ws[..i + 1]);
      assert c[j] == Sum(ws[..j + 1]);
      SumPrefixGrows(ws, i + 1, j + 1);
    }
  }

  /** With non-negative weights, a longer prefix never sums to less. */
  lemma {:induction false} SumPrefixGrows(ws: seq<real>, i: nat, j: nat)
    requires NonNegative(ws) && i <= j <= |ws|
    ensures Sum(ws[..i]) <= Sum(ws[..j])
    decreases j - i
  {
    if i < j {
      SumPrefixGrows(ws, i, j - 1);
      assert ws[..j][..j - 1] == ws[..j - 1];
    }
  }

  /**
   * `bisect_left(a, x)` as the library writes it: halve `[lo, hi)` until it
   * is empty, moving `lo` past every entry below `x`.
   */
  function BisectFrom(a: seq<real>, x: real, lo: nat, hi: nat): (i: nat)
    requires Sorted(a) && lo <= hi <= |a|
    requires forall j :: 0 <= j < lo ==> a[j] < x
    requires forall j :: hi <= j < |a| ==> a[j] >= x
    ensures lo <= i <= hi
    ensures forall j :: 0 <= j < i ==> a[j] < x
    ensures forall j :: i <= j < |a| ==> a[j] >= x
    decreases hi - lo
  {
    if lo >= hi then lo
    else
      var mid := (lo + hi) / 2;
      if a[mid] < x then BisectFrom(a, x, mid + 1, hi) else BisectFrom(a, x, lo, mid)
  }

  /** The first position whose entry is at least `x` (`|a|` when there is none). */
  function BisectLeft(a: seq<real>, x: real): (i: nat)
    requires Sorted(a)
    ensures i <= |a|
    ensures forall j :: 0 <= j < i ==> a[j] < x
    ensures forall j :: i <= j < |a| ==> a[j] >= x
  {
    BisectFrom(a, x, 0, |a|)
  }

  /**
   * Inverse-CDF lookup: a draw `x` no larger than the last entry selects
   * position `k` exactly when `x` lies in `(a[k-1], a[k]]` (`(-inf, a[0]]`
   * for the first position), so the result is always a valid position.
   */
  lemma BisectSelects(a: seq<real>, x: real, k: nat)
    requires Sorted(a) && |a| > 0 && x <= a[|a| - 1] && k < |a|
    ensures BisectLeft(a, x) < |a|
    ensures BisectLeft(a, x) == k <==> (k == 0 || a[k - 1] < x) && x <= a[k]
  {
  }

  /** Normalising by a positive total keeps weights non-negative. */
  lemma NormalizeNonNegative(ws: seq<real>, total: real)
    requires NonNegative(ws) && total > 0.0
    ensures NonNegative(Normalize(ws, total))
  {
  }

  /**
   * Lines 111-121 end to end: the weights normalised by their sum and
   * accumulated. One entry per weight, the last of which is exactly 1.
   */
  function Distribution(ws: seq<real>): (d: seq<real>)
    requires NonNegative(ws) && (ws != [] ==> Sum(ws) > 0.0)
    ensures |d| == |ws|
    ensures ws != [] ==> d[|ws| - 1] == 1.0
  {
    if ws == [] then []
    else
      CumulativeTotal(Normalize(ws, Sum(ws)));
      SumNormalize(ws, Sum(ws));
      DivSelf(Sum(ws));
      Cumulative(Normalize(ws, Sum(ws)), 0.0)
  }

  /** The distribution never decreases, so `bisect_left` can search it. */
  lemma {:induction false} DistributionSorted(ws: seq<real>)
    requires NonNegative(ws) && (ws != [] ==> Sum(ws) > 0.0)
    ensures Sorted(Distribution(ws))
  {
    if ws != [] {
      NormalizeNonNegative(ws, Sum(ws));
      CumulativeSorted(Normalize(ws, Sum(ws)));
    }
  }

  /** A non-zero total divided by itself is 1 (for `Distribution` and `NormalizedSumIsOne`). */
  lemma DivSelf(x: real)
    requires x != 0.0
    ensures x / x == 1.0
  {
  }

  /** Entry `k` of the distribution adds the share of weight `k` in the total to the entry before it. */
  lemma {:induction false} DistributionStep(ws: seq<real>, k: nat)
    requires NonNegative(ws) && k < |ws| && Sum(ws) > 0.0
    ensures Distribution(ws)[k] == (if k == 0 then 0.0 else Distribution(ws)[k - 1]) + ws[k] / Sum(ws)
  {
    if k > 0 {
      CumulativeStep(Normalize(ws, Sum(ws)), 0.0, k);
    }
  }

  /** Entry `i` of the distribution is the share of the total carried by the first `i + 1` weights. */
  lemma {:induction false} DistributionShares(ws: seq<real>)
    requires NonNegative(ws) && (ws != [] ==> Sum(ws) > 0.0)
    ensures forall i :: 0 <= i < |ws| ==> Distribution(ws)[i] == Sum(ws[..i + 1]) / Sum(ws)
  {
    if ws != [] {
      ShareOfPrefixes(ws, Sum(ws));
    }
  }

  /** Accumulating normalised weights gives each prefix's share of the total. */
  lemma ShareOfPrefixes(ws: seq<real>, total: real)
    requires total != 0.0
    ensures forall i :: 0 <= i < |ws| ==>
      Cumulative(Normalize(ws, total), 0.0)[i] == Sum(ws[..i + 1]) / total
  {
    var n := Normalize(ws, total);
    forall i | 0 <= i < |ws| ensures Cumulative(n, 0.0)[i] == Sum(ws[..i + 1]) / total {
      assert n[..i + 1] == Normalize(ws[..i + 1], total);
      SumNormalize(ws[..i + 1], total);
    }
  }

  /**
   * A particle whose weight is zero is never drawn: its share adds nothing
   * to the running total, so no draw lands in its interval. The first
   * position is the exception for a draw of exactly 0, which `bisect_left`
   * sends to position 0 whatever its weight.
   */
  lemma {:induction false} ZeroWeightNeverSelected(ws: seq<real>, x: real, k: nat)
    requires NonNegative(ws) && Sum(ws) > 0.0
    requires k < |ws| && ws[k] == 0.0 && (k > 0 || x > 0.0)
    ensures Sorted(Distribution(ws)) && BisectLeft(Distribution(ws), x) != k
  {
    DistributionSorted(ws);
    ZeroShare(ws, k);
  }

  /**
   * `bisect_left` on the distribution picks, for a draw x <= 1, the position
   * k whose slice `(Sum(ws[..k]) / total, Sum(ws[..k + 1]) / total]` of the
   * cumulative weight share holds x (position 0 also takes every x <= 0).
   */
  lemma SelectedByShare(ws: seq<real>, x: real)
    requires NonNegative(ws) && Sum(ws) > 0.0 && x <= 1.0
    ensures Sorted(Distribution(ws))
    ensures var k := BisectLeft(Distribution(ws), x);
            && k < |ws|
            && (k == 0 || Sum(ws[..k]) / Sum(ws) < x)
            && x <= Sum(ws[..k + 1]) / Sum(ws)
  {
    DistributionSorted(ws);
    var d := Distribution(ws);
    var k := BisectLeft(d, x);
    assert k < |ws| && (k == 0 || d[k - 1] < x) && x <= d[k] by {
      BisectSelects(d, x, k);
    }
    assert d[k] == Sum(ws[..k + 1]) / Sum(ws) by {
      DistributionShares(ws);
    }
    if k > 0 {
      assert d[k - 1] == Sum(ws[..k]) / Sum(ws) by {
        DistributionShares(ws);
        assert ws[..k - 1 + 1] == ws[..k];
      }
    }
  }

  /** A zero weight leaves the cumulative share where the previous position left it. */
  lemma {:induction false} ZeroShare(ws: seq<real>, k: nat)
    requires NonNegative(ws) && Sum(ws) > 0.0
    requires k < |ws| && ws[k] == 0.0
    ensures k == 0 ==> Distribution(ws)[k] == 0.0
    ensures k > 0 ==> Distribution(ws)[k] == Distribution(ws)[k - 1]
  {
    var total := Sum(ws);
    assert ws[k] / total == 0.0;
    DistributionStep(ws, k);
  }
}
