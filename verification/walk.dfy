/**
 * What an element-wise walk leaves in memory: when no element of the destination is written before
 * a later step reads or rewrites it, each destination element ends up holding `f` of the operand
 * elements at its (broadcast) coordinate, and nothing outside the destination changes.
 */
module Walk {
  import opened Views
  import opened Dims
  import opened Dispatch

  lemma DivBelow(k: nat, n: nat, P: nat)
    requires k < n * P
    ensures P > 0 && k / P < n && k % P < P && (k / P) * P + k % P == k
  {
    if k / P >= n {
      MulMono(n, k / P, P);
    }
  }

  /** The coordinate at row-major position `k`: the inverse of `RowIndex`. */
  function Unrank(k: nat, shape: seq<nat>): (c: seq<nat>)
    requires k < Product(shape)
    ensures InBounds(c, shape) && RowIndex(c, shape) == k
    decreases |shape|
  {
    if shape == [] then []
    else
      var P := Product(shape[1..]);
      DivBelow(k, shape[0], P);
      var rest := Unrank(k % P, shape[1..]);
      var c := [k / P] + rest;
      RowIndexSplit(c, shape);
      assert c[1..] == rest;
      c
  }

  /** Coordinates in bounds have distinct row-major positions. */
  lemma RowIndexInjective(c: seq<nat>, c': seq<nat>, shape: seq<nat>)
    requires InBounds(c, shape) && InBounds(c', shape) && RowIndex(c, shape) == RowIndex(c', shape)
    ensures c == c'
    decreases |shape|
  {
    if shape != [] {
      var P := Product(shape[1..]);
      RowIndexSplit(c, shape);
      RowIndexSplit(c', shape);
      RowIndexBound(c[1..], shape[1..]);
      RowIndexBound(c'[1..], shape[1..]);
      DivUnique(c[0], RowIndex(c[1..], shape[1..]), c'[0], RowIndex(c'[1..], shape[1..]), P);
      assert InBounds(c[1..], shape[1..]) && InBounds(c'[1..], shape[1..]);
      RowIndexInjective(c[1..], c'[1..], shape[1..]);
      assert c == [c[0]] + c[1..] && c' == [c'[0]] + c'[1..];
    }
  }

  lemma RowIndexBound(c: seq<nat>, shape: seq<nat>)
    requires InBounds(c, shape)
    ensures RowIndex(c, shape) < Product(shape)
    decreases |shape|
  {
    if shape != [] {
      RowIndexSplit(c, shape);
      assert InBounds(c[1..], shape[1..]);
      RowIndexBound(c[1..], shape[1..]);
      MulBelow(c[0], shape[0], Product(shape[1..]), RowIndex(c[1..], shape[1..]));
    }
  }

  lemma DivUnique(i: nat, r: nat, i': nat, r': nat, P: nat)
    requires r < P && r' < P && i * P + r == i' * P + r'
    ensures i == i' && r == r'
  {
    if i < i' {
      MulMono(i + 1, i', P);
      MulSucc(i, P);
    } else if i' < i {
      MulMono(i' + 1, i, P);
      MulSucc(i', P);
    }
  }

  /**
   * No read-after-write hazard: no destination element written earlier in row-major order is the
   * destination, or one of the operand elements, of a later coordinate.
   */
  ghost predicate NoHazard(a: View, b: View, d: View)
    requires Shaped(a, b, d)
  {
    forall c, c' :: InBounds(c, d.shape) && InBounds(c', d.shape) && RowIndex(c', d.shape) < RowIndex(c, d.shape) ==>
      ElementOffset(d, c') != ElementOffset(d, c) &&
      ElementOffset(d, c') != ElementOffset(a, Clamp(c, a.shape)) &&
      ElementOffset(d, c') != ElementOffset(b, Clamp(c, b.shape))
  }

  lemma NoHazardIndependent(a: View, b: View, d: View)
    requires AllLive(a, b, d) && NoHazard(a, b, d)
    ensures Independent(Steps(a, b, d, 0))
  {
    var steps := Steps(a, b, d, 0);
    StepsLength(a, b, d);
    forall k, k' | 0 <= k' < k < |steps|
      ensures steps[k'].dst != steps[k].dst && steps[k'].dst != steps[k].lhs && steps[k'].dst != steps[k].rhs
    {
      var c, c' := Unrank(k, d.shape), Unrank(k', d.shape);
      StepsAt(a, b, d, c);
      StepsAt(a, b, d, c');
    }
  }

  /**
   * The result of a walk, element by element: with trivial dimension `t` agreeing with the layouts
   * and no hazard, the destination element at `c` holds `f` of the operands read at `c` clamped to
   * their shapes, computed from the memory before the walk.
   */
  lemma WalkResult<T>(m: seq<T>, f: (T, T) -> T, a: View, b: View, d: View, t: nat, c: seq<nat>)
    requires AllLive(a, b, d) && TrivialAt(a, b, t) && TrivialAt(a, d, t) && NoHazard(a, b, d)
    requires StepsFit(Steps(a, b, d, t), |m|) && InBounds(c, d.shape)
    ensures ElementOffset(d, c) < |m|
    ensures ElementOffset(a, Clamp(c, a.shape)) < |m| && ElementOffset(b, Clamp(c, b.shape)) < |m|
    ensures Run(m, f, Steps(a, b, d, t))[ElementOffset(d, c)] ==
            f(m[ElementOffset(a, Clamp(c, a.shape))], m[ElementOffset(b, Clamp(c, b.shape))])
  {
    FastPathAgrees(a, b, d, t);
    NoHazardIndependent(a, b, d);
    StepsAt(a, b, d, c);
    RunIndependent(m, f, Steps(a, b, d, 0), RowIndex(c, d.shape));
  }

  /** A walk changes no address outside the destination. */
  lemma WalkUntouched<T>(m: seq<T>, f: (T, T) -> T, a: View, b: View, d: View, t: nat, o: nat)
    requires AllLive(a, b, d) && TrivialAt(a, b, t) && TrivialAt(a, d, t)
    requires StepsFit(Steps(a, b, d, t), |m|) && o < |m|
    requires forall c :: InBounds(c, d.shape) ==> ElementOffset(d, c) != o
    ensures Run(m, f, Steps(a, b, d, t))[o] == m[o]
  {
    FastPathAgrees(a, b, d, t);
    var steps := Steps(a, b, d, 0);
    StepsLength(a, b, d);
    forall k | 0 <= k < |steps|
      ensures steps[k].dst != o
    {
      StepsAt(a, b, d, Unrank(k, d.shape));
    }
    RunUntouched(m, f, steps, o);
  }

  // ----- Sufficient conditions for the absence of hazards -----

  /** Distinct coordinates of the view designate distinct elements. */
  ghost predicate Injective(v: View)
    requires v.Wf()
  {
    forall c, c' :: InBounds(c, v.shape) && InBounds(c', v.shape) && ElementOffset(v, c) == ElementOffset(v, c') ==> c == c'
  }

  /** Clamping an in-bounds coordinate changes nothing. */
  lemma {:induction false} ClampInBounds(c: seq<nat>, shape: seq<nat>)
    requires InBounds(c, shape)
    ensures Clamp(c, shape) == c
    decreases |c|
  {
    if c != [] {
      assert InBounds(c[1..], shape[1..]);
      ClampInBounds(c[1..], shape[1..]);
    }
  }

  /** A contiguous view designates its elements at `Base + RowIndex`, hence injectively. */
  lemma ContiguousInjective(v: View)
    requires v.Live() && Contiguous(v)
    ensures Injective(v)
    ensures forall c :: InBounds(c, v.shape) ==> ElementOffset(v, c) == v.Base() + RowIndex(c, v.shape)
  {
    forall c, c' | InBounds(c, v.shape) && InBounds(c', v.shape) && ElementOffset(v, c) == ElementOffset(v, c')
      ensures c == c'
    {
      RowIndexInjective(c, c', v.shape);
    }
  }

  /**
   * Writing in place (`dst` is the first operand) is hazard-free when the destination is injective and
   * the second operand reads no destination element.
   */
  lemma InPlaceNoHazard(d: View, b: View)
    requires d.Wf() && b.Wf() && b.Rank() == d.Rank() && Injective(d)
    requires forall c, c' :: InBounds(c, d.shape) && InBounds(c', d.shape) ==> ElementOffset(d, c') != ElementOffset(b, Clamp(c, b.shape))
    ensures NoHazard(d, b, d)
  {
    forall c, c' | InBounds(c, d.shape) && InBounds(c', d.shape) && RowIndex(c', d.shape) < RowIndex(c, d.shape)
      ensures ElementOffset(d, c') != ElementOffset(d, c) && ElementOffset(d, c') != ElementOffset(d, Clamp(c, d.shape))
    {
      ClampInBounds(c, d.shape);
    }
  }

  /** A unary walk in place over an injective view is hazard-free. */
  lemma UnaryInPlaceNoHazard(v: View)
    requires v.Wf() && Injective(v)
    ensures NoHazard(v, v, v)
  {
    forall c, c' | InBounds(c, v.shape) && InBounds(c', v.shape) && RowIndex(c', v.shape) < RowIndex(c, v.shape)
      ensures ElementOffset(v, c') != ElementOffset(v, c) && ElementOffset(v, c') != ElementOffset(v, Clamp(c, v.shape))
    {
      ClampInBounds(c, v.shape);
    }
  }
}
