/**
 * Reduction along one axis (`ReduceDim<N, M>`): the source view of rank N is walked in row-major
 * order and every element is folded into the destination element of rank M that it maps to,
 * `dst[j] = f(dst[j], src[c])`. The axis is chosen by `reduce_dim`: the walk skips the destination
 * index at the depth where the remaining source rank equals `reduce_dim`, and at the last axis once
 * the destination has no axis left.
 */
module AxisReduction {
  import opened Views
  import opened Dims
  import opened Dispatch
  import opened Walk
  import opened Reduction

  /** A source and destination pair the recursion can reach: equal ranks, or one axis fewer in `d`. */
  predicate Paired(s: View, d: View) {
    s.Wf() && d.Wf() && (d.Rank() == s.Rank() || d.Rank() + 1 == s.Rank())
  }

  /** At this depth the source axis is folded into the same destination (`dst` is passed down whole). */
  predicate Reducing(s: View, d: View, rd: nat)
    requires Paired(s, d)
  {
    d.Rank() < s.Rank() && (rd == s.Rank() || d.Rank() == 0)
  }

  /** The steps `dst := f(dst, src)` of the walk, in order. */
  function ReduceSteps(s: View, d: View, rd: nat): seq<Step>
    requires Paired(s, d)
    decreases s.Rank(), 1, 0
  {
    if s.Rank() == 0 then [Step(d.Base(), d.Base(), s.Base())] else ReduceRows(s, d, rd, s.shape[0])
  }

  function ReduceRows(s: View, d: View, rd: nat, k: nat): seq<Step>
    requires Paired(s, d) && s.Rank() > 0
    decreases s.Rank(), 0, k
  {
    if k == 0 then [] else ReduceRows(s, d, rd, k - 1) + ReduceRow(s, d, rd, k - 1)
  }

  function ReduceRow(s: View, d: View, rd: nat, i: nat): seq<Step>
    requires Paired(s, d) && s.Rank() > 0
    decreases s.Rank(), 0, 0
  {
    if Reducing(s, d, rd) then ReduceSteps(Sub(s, i), d, rd) else ReduceSteps(Sub(s, i), Sub(d, i), rd)
  }

  lemma {:induction false} ReduceRowsFit(s: View, d: View, rd: nat, k: nat, n: nat, m: nat)
    requires Paired(s, d) && s.Rank() > 0 && k < n
    requires StepsFit(ReduceRows(s, d, rd, n), m)
    ensures StepsFit(ReduceRows(s, d, rd, k + 1), m)
    decreases n
  {
    StepsFitConcat(ReduceRows(s, d, rd, n - 1), ReduceRow(s, d, rd, n - 1), m);
    if k + 1 < n {
      ReduceRowsFit(s, d, rd, k, n - 1, m);
    }
  }

  /** Running the first `i + 1` passes is running the first `i` and then pass `i`. */
  lemma ReduceRowsNext<T>(m: seq<T>, f: (T, T) -> T, s: View, d: View, rd: nat, i: nat)
    requires Paired(s, d) && s.Rank() > 0 && i < s.shape[0]
    requires StepsFit(ReduceRows(s, d, rd, s.shape[0]), |m|)
    ensures StepsFit(ReduceRows(s, d, rd, i + 1), |m|)
    ensures StepsFit(ReduceRows(s, d, rd, i), |m|) && StepsFit(ReduceRow(s, d, rd, i), |m|)
    ensures Run(m, f, ReduceRows(s, d, rd, i + 1)) == Run(Run(m, f, ReduceRows(s, d, rd, i)), f, ReduceRow(s, d, rd, i))
  {
    ReduceRowsFit(s, d, rd, i, s.shape[0], |m|);
    RunConcat(m, f, ReduceRows(s, d, rd, i), ReduceRow(s, d, rd, i));
  }

  /** The destination coordinate a source coordinate folds into, following the recursion. */
  function Target(c: seq<nat>, sRank: nat, dRank: nat, rd: nat): (r: seq<nat>)
    requires |c| == sRank && (dRank == sRank || dRank + 1 == sRank)
    ensures |r| == dRank
    decreases sRank
  {
    if sRank == 0 then []
    else if dRank < sRank && (rd == sRank || dRank == 0) then Target(c[1..], sRank - 1, dRank, rd)
    else [c[0]] + Target(c[1..], sRank - 1, dRank - 1, rd)
  }

  /** The axis `reduce_dim` selects in a source of rank `n`: `n - reduce_dim`, or the last axis when out of range. */
  function ReducedAxis(n: nat, rd: nat): (r: nat)
    requires n > 0
    ensures r < n
  {
    if 1 <= rd <= n then n - rd else n - 1
  }

  /** The coordinate without axis `a`. */
  function Remove(c: seq<nat>, a: nat): seq<nat>
    requires a < |c|
  {
    c[..a] + c[a + 1..]
  }

  /** Once the ranks are equal the destination coordinate is the source coordinate. */
  lemma {:induction false} TargetEqualRanks(c: seq<nat>, rd: nat)
    ensures Target(c, |c|, |c|, rd) == c
    decreases |c|
  {
    if c != [] {
      TargetEqualRanks(c[1..], rd);
    }
  }

  /** With one axis fewer in the destination, exactly the selected axis is dropped. */
  lemma {:induction false} TargetDropsAxis(c: seq<nat>, n: nat, rd: nat)
    requires |c| == n > 0
    ensures Target(c, n, n - 1, rd) == Remove(c, ReducedAxis(n, rd))
    decreases n
  {
    if rd == n || n == 1 {
      TargetEqualRanks(c[1..], rd);
      assert Remove(c, ReducedAxis(n, rd)) == c[1..];
    } else {
      TargetDropsAxis(c[1..], n - 1, rd);
      var a := ReducedAxis(n, rd);
      assert ReducedAxis(n - 1, rd) == a - 1;
      assert c[1..][..a - 1] == c[1..a] && c[1..][a - 1 + 1..] == c[a + 1..];
      assert [c[0]] + c[1..a] == c[..a];
    }
  }

  // ----- Row-major order -----

  lemma {:induction false} ReduceStepsLength(s: View, d: View, rd: nat)
    requires Paired(s, d)
    ensures |ReduceSteps(s, d, rd)| == NumElements(s)
    decreases s.Rank(), 1
  {
    if s.Rank() > 0 {
      ReduceRowsLength(s, d, rd, s.shape[0]);
    }
  }

  lemma {:induction false} ReduceRowsLength(s: View, d: View, rd: nat, k: nat)
    requires Paired(s, d) && s.Rank() > 0
    ensures |ReduceRows(s, d, rd, k)| == k * Product(s.shape[1..])
    decreases s.Rank(), 0, k
  {
    if k > 0 {
      ReduceRowsLength(s, d, rd, k - 1);
      if Reducing(s, d, rd) {
        ReduceStepsLength(Sub(s, k - 1), d, rd);
      } else {
        ReduceStepsLength(Sub(s, k - 1), Sub(d, k - 1), rd);
      }
      MulSucc(k - 1, Product(s.shape[1..]));
    }
  }

  lemma {:induction false} ReduceRowsIndex(s: View, d: View, rd: nat, k: nat, i: nat, r: nat, j: nat)
    requires Paired(s, d) && s.Rank() > 0 && i < k && r < Product(s.shape[1..])
    requires j == i * Product(s.shape[1..]) + r
    ensures |ReduceRows(s, d, rd, k)| == k * Product(s.shape[1..])
    ensures j < |ReduceRows(s, d, rd, k)| && |ReduceRow(s, d, rd, i)| == Product(s.shape[1..])
    ensures ReduceRows(s, d, rd, k)[j] == ReduceRow(s, d, rd, i)[r]
    decreases k
  {
    var P := Product(s.shape[1..]);
    var x, y := ReduceRows(s, d, rd, k - 1), ReduceRow(s, d, rd, k - 1);
    assert ReduceRows(s, d, rd, k) == x + y;
    ReduceRowsLength(s, d, rd, k);
    ReduceRowsLength(s, d, rd, k - 1);
    MulBelow(i, k, P, r);
    if Reducing(s, d, rd) {
      ReduceStepsLength(Sub(s, i), d, rd);
    } else {
      ReduceStepsLength(Sub(s, i), Sub(d, i), rd);
    }
    if i < k - 1 {
      MulBelow(i, k - 1, P, r);
      ReduceRowsIndex(s, d, rd, k - 1, i, r, j);
      assert (x + y)[j] == x[j];
    } else {
      assert (x + y)[j] == y[j - |x|];
    }
  }

  /**
   * The walk visits the source in row-major order and folds the element at `c` into the destination
   * element at `Target(c)`.
   */
  lemma {:induction false} ReduceStepsAt(s: View, d: View, rd: nat, c: seq<nat>)
    requires Paired(s, d) && s.Live() && d.Live() && InBounds(c, s.shape)
    ensures |ReduceSteps(s, d, rd)| == NumElements(s) && RowIndex(c, s.shape) < NumElements(s)
    ensures var o := ElementOffset(d, Target(c, s.Rank(), d.Rank(), rd));
            ReduceSteps(s, d, rd)[RowIndex(c, s.shape)] == Step(o, o, ElementOffset(s, c))
    decreases s.Rank()
  {
    ReduceStepsLength(s, d, rd);
    RowIndexBound(c, s.shape);
    if s.Rank() == 0 {
      assert c == [];
    } else {
      var i, c' := c[0], c[1..];
      var s' := Sub(s, i);
      var j, j' := RowIndex(c, s.shape), RowIndex(c', s'.shape);
      assert InBounds(c', s'.shape);
      RowIndexBound(c', s'.shape);
      RowIndexSplit(c, s.shape);
      ReduceRowsIndex(s, d, rd, s.shape[0], i, j', j);
      assert [i] + c' == c;
      SubViewElement(s, [i], c');
      SubBase(s, i);
      if Reducing(s, d, rd) {
        ReduceStepsAt(s', d, rd, c');
      } else {
        SubBase(d, i);
        ReduceStepsAt(s', Sub(d, i), rd, c');
        var t' := Target(c', s'.Rank(), d.Rank() - 1, rd);
        SubViewElement(d, [i], t');
      }
    }
  }

  /**
   * The axis reduction with `reduce_dim` on a source of rank n and a destination of rank n - 1: the
   * element at source coordinate `c` is folded into the destination element at `c` without the
   * selected axis, at `c`'s row-major position.
   */
  lemma ReduceDimAt(s: View, d: View, rd: nat, c: seq<nat>)
    requires s.Live() && d.Live() && d.Rank() + 1 == s.Rank() && InBounds(c, s.shape)
    ensures |ReduceSteps(s, d, rd)| == NumElements(s) && RowIndex(c, s.shape) < NumElements(s)
    ensures var o := ElementOffset(d, Remove(c, ReducedAxis(s.Rank(), rd)));
            ReduceSteps(s, d, rd)[RowIndex(c, s.shape)] == Step(o, o, ElementOffset(s, c))
  {
    ReduceStepsAt(s, d, rd, c);
    TargetDropsAxis(c, s.Rank(), rd);
  }
}
