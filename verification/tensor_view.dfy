/**
 * The newer `TensorView`: construction, element and sub-view access, contiguity, permutation,
 * reshaping, whole-view and axis reductions and the in-place operators. A view never changes its
 * own pointer, shape or strides after construction (they are values here); its operations read and
 * write the shared memory through the pointer.
 */
module TensorViews {
  import opened Views
  import opened Dims
  import opened Dispatch
  import opened Walk
  import opened Reduction
  import opened AxisReduction
  import opened AxisFolds
  import opened Operations

  // ----- Construction -----

  /** `TensorView()`: the null view; only its emptiness is observable (shape and strides are indeterminate). */
  function DefaultView(n: nat): (v: View)
    ensures v.Wf() && v.Rank() == n && v.Empty()
  {
    View(Null, Fill(n, 0), Fill(n, 0), Implicit)
  }

  /** `TensorView(data_ptr, shape)`: the shape is copied and the strides computed canonically. */
  method FromShape(p: Ptr, shape: seq<nat>, policy: Policy) returns (v: View)
    ensures v.Wf() && v.data == p && v.shape == shape && v.policy == policy
    ensures Contiguous(v)
  {
    var strides := new nat[|shape|];
    CalculateStrides(shape, strides);
    v := View(p, shape, strides[..], policy);
  }

  /** `make_view(data, {extents...})`: each extent cast to `size_t`, then the shape-only constructor. */
  method MakeView(p: Ptr, shape: seq<int>) returns (v: View)
    requires forall i :: 0 <= i < |shape| ==> shape[i] >= 0
    ensures v.Wf() && v.data == p && v.policy == Implicit && v.Rank() == |shape|
    ensures forall i :: 0 <= i < |shape| ==> v.shape[i] == shape[i]
    ensures Contiguous(v) && (p.Addr? ==> !v.Empty())
  {
    var extents := new nat[|shape|];
    var i := 0;
    while i < |shape|
      invariant 0 <= i <= |shape|
      invariant forall j :: 0 <= j < i ==> extents[j] == shape[j]
    {
      extents[i] := shape[i];
      i := i + 1;
    }
    v := FromShape(p, extents[..], Implicit);
  }

  // ----- Access -----

  /** `at(i...)` with one index per axis: the element `data_ptr_[offset]`, given by its address. */
  function At(v: View, idx: seq<nat>): (o: nat)
    requires v.Live() && |idx| == v.Rank() >= 1
    ensures o == ElementOffset(v, idx)
  {
    assert v.stride[0..] == v.stride;
    v.Base() + CalculateOffset(0, v.stride, idx, 0)
  }

  /** `at(i...)` with fewer indices than axes: the view of the remaining axes at the advanced pointer. */
  function AtView(v: View, idx: seq<nat>): (r: View)
    requires v.Wf() && 1 <= |idx| < v.Rank()
    ensures r.Wf() && r.Rank() == v.Rank() - |idx| && r.policy == v.policy
    ensures r.shape == v.shape[|idx|..] && r.stride == v.stride[|idx|..]
    ensures r.data == Advance(v.data, Dot(v.stride, idx))
    ensures v.Live() ==> forall b :: |b| == r.Rank() ==> ElementOffset(r, b) == ElementOffset(v, idx + b)
  {
    assert v.stride[0..] == v.stride;
    SubViewElements(v, idx);
    View(Advance(v.data, CalculateOffset(0, v.stride, idx, 0)), v.shape[|idx|..], v.stride[|idx|..], v.policy)
  }

  lemma SubViewElements(v: View, a: seq<nat>)
    requires v.Live() ==> |a| <= v.Rank()
    requires v.Wf() && |a| <= v.Rank()
    ensures v.Live() ==> forall b :: |b| == v.Rank() - |a| ==> ElementOffset(SubView(v, a), b) == ElementOffset(v, a + b)
  {
    if v.Live() {
      forall b | |b| == v.Rank() - |a|
        ensures ElementOffset(SubView(v, a), b) == ElementOffset(v, a + b)
      {
        SubViewElement(v, a, b);
      }
    }
  }

  /** The views the tests build over the memory 0, 1, ..., 11, and the elements they read. */
  lemma AccessExamples(v: View, w: View)
    requires v == View(Addr(0), [3, 2, 2], [4, 2, 1], Implicit) && w == View(Addr(0), [3, 2], [4, 2], Implicit)
    ensures At(v, [1, 1, 1]) == 7 && At(w, [1, 1]) == 6
    ensures AtView(v, [1]).shape == [2, 2] && AtView(AtView(v, [1]), [1]).shape == [2]
    ensures At(AtView(AtView(v, [1]), [1]), [1]) == 7 && At(AtView(v, [1, 1]), [1]) == 7
  {
    assert Dot([4, 2, 1], [1]) == 4;
    assert Dot([4, 2, 1], [1, 1]) == 6;
    assert Dot([2, 1], [1]) == 2;
  }

  // ----- Queries -----

  /** `is_contiguous()`: scanning from the last axis, each stride must equal the product of the later extents. */
  method IsContiguous(v: View) returns (b: bool)
    requires v.Wf()
    ensures b == Contiguous(v)
  {
    var prod := 1;
    var i := v.Rank();
    while i > 0
      invariant 0 <= i <= v.Rank()
      invariant prod == Product(v.shape[i..])
      invariant v.stride[i..] == Canonical(v.shape)[i..]
    {
      i := i - 1;
      CanonicalAt(v.shape, i);
      if v.stride[i] != prod {
        return false;
      }
      assert v.stride[i..] == [v.stride[i]] + v.stride[i + 1..];
      assert Canonical(v.shape)[i..] == [Canonical(v.shape)[i]] + Canonical(v.shape)[i + 1..];
      ProductFrom(v.shape, i);
      prod := prod * v.shape[i];
    }
    assert v.stride[0..] == v.stride && Canonical(v.shape)[0..] == Canonical(v.shape);
    return true;
  }

  /**
   * `num_elements()` counts the coordinates of the view: row-major positions below it and in-bounds
   * coordinates correspond one to one.
   */
  lemma NumElementsCounts(v: View)
    requires v.Wf()
    ensures forall c :: InBounds(c, v.shape) ==> RowIndex(c, v.shape) < NumElements(v)
    ensures forall k :: 0 <= k < NumElements(v) ==> InBounds(Unrank(k, v.shape), v.shape) && RowIndex(Unrank(k, v.shape), v.shape) == k
    ensures forall c, c' :: InBounds(c, v.shape) && InBounds(c', v.shape) && RowIndex(c, v.shape) == RowIndex(c', v.shape) ==> c == c'
  {
    forall c | InBounds(c, v.shape)
      ensures RowIndex(c, v.shape) < NumElements(v)
    {
      RowIndexBound(c, v.shape);
    }
    forall c, c' | InBounds(c, v.shape) && InBounds(c', v.shape) && RowIndex(c, v.shape) == RowIndex(c', v.shape)
      ensures c == c'
    {
      RowIndexInjective(c, c', v.shape);
    }
  }

  // ----- Permutation -----

  /** Every index names an axis. */
  predicate Axes(p: seq<nat>) {
    forall i :: 0 <= i < |p| ==> p[i] < |p|
  }

  /** `q` undoes `p`: together they show `p` is a permutation of the axes. */
  predicate Inverse(p: seq<nat>, q: seq<nat>) {
    |p| == |q| && Axes(p) && Axes(q) &&
    (forall i :: 0 <= i < |p| ==> q[p[i]] == i) && (forall j :: 0 <= j < |q| ==> p[q[j]] == j)
  }

  /** Axis `i` of the result is axis `p[i]` of `v`. */
  function Permuted(v: View, p: seq<nat>): (r: View)
    requires v.Wf() && |p| == v.Rank() && Axes(p)
    ensures r.Wf() && r.Rank() == v.Rank()
  {
    View(v.data, seq(|p|, i requires 0 <= i < |p| => v.shape[p[i]]), seq(|p|, i requires 0 <= i < |p| => v.stride[p[i]]), v.policy)
  }

  /** `permute(ts...)`: shape and stride re-indexed by the arguments, the pointer unchanged. */
  method Permute(v: View, p: seq<nat>) returns (r: View)
    requires v.Wf() && |p| == v.Rank() && Axes(p)
    ensures r == Permuted(v, p)
  {
    var shape := new nat[|p|];
    var strides := new nat[|p|];
    var i := 0;
    while i < |p|
      invariant 0 <= i <= |p|
      invariant forall j :: 0 <= j < i ==> shape[j] == v.shape[p[j]] && strides[j] == v.stride[p[j]]
    {
      shape[i] := v.shape[p[i]];
      strides[i] := v.stride[p[i]];
      i := i + 1;
    }
    r := View(v.data, shape[..], strides[..], v.policy);
  }

  /** Permuting twice permutes by the composition. */
  lemma PermuteCompose(v: View, p: seq<nat>, q: seq<nat>)
    requires v.Wf() && |p| == |q| == v.Rank() && Axes(p) && Axes(q)
    ensures Axes(seq(|q|, i requires 0 <= i < |q| => p[q[i]]))
    ensures Permuted(Permuted(v, p), q) == Permuted(v, seq(|q|, i requires 0 <= i < |q| => p[q[i]]))
  {
  }

  /** Permuting by a permutation and then by its inverse gives the view back. */
  lemma PermuteInverse(v: View, p: seq<nat>, q: seq<nat>)
    requires v.Wf() && |p| == v.Rank() && Inverse(p, q)
    ensures Permuted(Permuted(v, p), q) == v
  {
    PermuteCompose(v, p, q);
    var pq := seq(|q|, i requires 0 <= i < |q| => p[q[i]]);
    assert Permuted(Permuted(v, p), q).shape == v.shape;
    assert Permuted(Permuted(v, p), q).stride == v.stride;
  }

  /**
   * The tests' permutations of the contiguous [3, 2, 2] view: `permute(1, 2, 0)` is the [2, 2, 3]
   * view with strides [2, 1, 4], not contiguous, whose element (1, 1, 1) is at 7; permuting it by
   * (2, 0, 1) restores the contiguous view.
   */
  lemma PermuteExamples(v: View)
    requires v == View(Addr(0), [3, 2, 2], [4, 2, 1], Implicit)
    ensures Contiguous(v)
    ensures Permuted(v, [1, 2, 0]) == View(Addr(0), [2, 2, 3], [2, 1, 4], Implicit)
    ensures !Contiguous(Permuted(v, [1, 2, 0]))
    ensures ElementOffset(Permuted(v, [1, 2, 0]), [1, 1, 1]) == 7
    ensures Permuted(Permuted(v, [1, 2, 0]), [2, 0, 1]) == v
  {
    CanonicalExamples();
    assert Canonical([2, 2, 3])[0] == 6 by {
      CanonicalAt([2, 2, 3], 0);
      assert [2, 2, 3][1..] == [2, 3];
      assert [2, 3][1..] == [3];
    }
    PermuteInverse(v, [1, 2, 0], [2, 0, 1]);
  }

  // ----- A permuted view designates the same elements -----

  function Sum(xs: seq<int>): int
    decreases |xs|
  {
    if xs == [] then 0 else Sum(xs[..|xs| - 1]) + xs[|xs| - 1]
  }

  lemma {:induction false} SumFront(xs: seq<int>)
    requires xs != []
    ensures Sum(xs) == xs[0] + Sum(xs[1..])
    decreases |xs|
  {
    if |xs| > 1 {
      SumFront(xs[..|xs| - 1]);
      assert xs[..|xs| - 1][1..] == xs[1..][..|xs[1..]| - 1];
    }
  }

  lemma {:induction false} SumUpdate(xs: seq<int>, j: nat, x: int)
    requires j < |xs|
    ensures Sum(xs[j := x]) == Sum(xs) - xs[j] + x
    decreases |xs|
  {
    var n := |xs|;
    if j < n - 1 {
      SumUpdate(xs[..n - 1], j, x);
      assert xs[j := x][..n - 1] == xs[..n - 1][j := x];
    } else {
      assert xs[j := x][..n - 1] == xs[..n - 1];
    }
  }

  /** Taking the last position out of a permutation: the position that mapped to it takes its image. */
  lemma InverseRemoveLast(p: seq<nat>, q: seq<nat>) returns (p': seq<nat>, q': seq<nat>)
    requires Inverse(p, q) && |p| > 0
    ensures Inverse(p', q') && |q'| == |q| - 1
    ensures forall j :: 0 <= j < |q'| ==> q'[j] == if j == p[|p| - 1] then q[|q| - 1] else q[j]
  {
    var n := |p|;
    var j0 := p[n - 1];
    q' := seq(n - 1, j requires 0 <= j < n - 1 => if j == j0 then q[n - 1] else q[j]);
    p' := seq(n - 1, i requires 0 <= i < n - 1 => if p[i] == n - 1 then j0 else p[i]);
    forall i | 0 <= i < n - 1
      ensures p'[i] < n - 1 && q'[p'[i]] == i
    {
      assert q[p[i]] == i && q[j0] == n - 1;
    }
    forall j | 0 <= j < n - 1
      ensures q'[j] < n - 1 && p'[q'[j]] == j
    {
      assert p[q[j]] == j && q[j0] == n - 1;
      if j == j0 {
        assert p[q[n - 1]] == n - 1;
      }
    }
  }

  /** Reordering the terms by a permutation leaves the sum unchanged. */
  lemma {:induction false} SumReindex(xs: seq<int>, p: seq<nat>, q: seq<nat>)
    requires Inverse(p, q) && |xs| == |p|
    ensures Sum(seq(|xs|, j requires 0 <= j < |xs| => xs[q[j]])) == Sum(xs)
    decreases |xs|
  {
    var n := |xs|;
    if n > 0 {
      var ys := seq(n, j requires 0 <= j < n => xs[q[j]]);
      var j0 := p[n - 1];
      var p', q' := InverseRemoveLast(p, q);
      var xs' := xs[..n - 1];
      SumReindex(xs', p', q');
      var zs := seq(n - 1, j requires 0 <= j < n - 1 => xs'[q'[j]]);
      assert q[j0] == n - 1;
      assert zs == ys[j0 := ys[n - 1]][..n - 1];
      SumMoveLast(ys, j0);
    }
  }

  /** Moving the last term into position `j` and dropping it removes the term that was at `j`. */
  lemma SumMoveLast(ys: seq<int>, j: nat)
    requires j < |ys|
    ensures Sum(ys[j := ys[|ys| - 1]][..|ys| - 1]) + ys[j] == Sum(ys)
  {
    var n := |ys|;
    if j == n - 1 {
      assert ys[j := ys[n - 1]][..n - 1] == ys[..n - 1];
    } else {
      assert ys[j := ys[n - 1]][..n - 1] == ys[..n - 1][j := ys[n - 1]];
      SumUpdate(ys[..n - 1], j, ys[n - 1]);
    }
  }

  /** The terms `stride[j] * c[j]` of a dot product. */
  function Terms(stride: seq<nat>, c: seq<nat>): (r: seq<int>)
    requires |c| == |stride|
    ensures |r| == |c|
  {
    seq(|c|, j requires 0 <= j < |c| => stride[j] * c[j])
  }

  lemma {:induction false} DotSum(stride: seq<nat>, c: seq<nat>)
    requires |c| == |stride|
    ensures Dot(stride, c) == Sum(Terms(stride, c))
    decreases |c|
  {
    if c != [] {
      DotSum(stride[1..], c[1..]);
      SumFront(Terms(stride, c));
      assert Terms(stride, c)[1..] == Terms(stride[1..], c[1..]);
    }
  }

  /** The coordinate of the original view that a coordinate of the permuted view designates. */
  function Scatter(c: seq<nat>, q: seq<nat>): (r: seq<nat>)
    requires |c| == |q| && Axes(q)
    ensures |r| == |c|
  {
    seq(|q|, j requires 0 <= j < |q| => c[q[j]])
  }

  /**
   * The permuted view reads at `c` the element the original reads at `c` re-indexed by the inverse
   * permutation, and in-bounds coordinates map to in-bounds coordinates.
   */
  lemma PermutedElement(v: View, p: seq<nat>, q: seq<nat>, c: seq<nat>)
    requires v.Wf() && |p| == v.Rank() && Inverse(p, q) && |c| == v.Rank()
    ensures ElementOffset(Permuted(v, p), c) == ElementOffset(v, Scatter(c, q))
    ensures InBounds(c, Permuted(v, p).shape) ==> InBounds(Scatter(c, q), v.shape)
  {
    var w := Permuted(v, p);
    var xs := Terms(w.stride, c);
    DotSum(w.stride, c);
    SumReindex(xs, p, q);
    DotSum(v.stride, Scatter(c, q));
    assert seq(|xs|, j requires 0 <= j < |xs| => xs[q[j]]) == Terms(v.stride, Scatter(c, q));
  }

  /** Permuting an injective view (a contiguous one, say) by a permutation keeps it injective. */
  lemma PermutedInjective(v: View, p: seq<nat>, q: seq<nat>)
    requires v.Wf() && |p| == v.Rank() && Inverse(p, q) && Injective(v)
    ensures Injective(Permuted(v, p))
  {
    var w := Permuted(v, p);
    forall c, c' | InBounds(c, w.shape) && InBounds(c', w.shape) && ElementOffset(w, c) == ElementOffset(w, c')
      ensures c == c'
    {
      PermutedElement(v, p, q, c);
      PermutedElement(v, p, q, c');
      assert Scatter(c, q) == Scatter(c', q);
      forall i | 0 <= i < |c|
        ensures c[i] == c'[i]
      {
        assert Scatter(c, q)[p[i]] == c[i] && Scatter(c', q)[p[i]] == c'[i];
      }
    }
  }

  /** Every element of `v` is an element of the permuted view, at the permuted coordinate. */
  lemma PermutedCovers(v: View, p: seq<nat>, q: seq<nat>, c: seq<nat>)
    requires v.Wf() && |p| == v.Rank() && Inverse(p, q) && InBounds(c, v.shape)
    ensures Axes(p) && InBounds(Scatter(c, p), Permuted(v, p).shape)
    ensures ElementOffset(Permuted(v, p), Scatter(c, p)) == ElementOffset(v, c)
  {
    PermutedElement(v, p, q, Scatter(c, p));
    assert Scatter(Scatter(c, p), q) == c;
  }

  // ----- Reshaping -----

  /** Requested extents: each is an extent or the placeholder `-1`. */
  predicate Requested(dims: seq<int>) {
    forall i :: 0 <= i < |dims| ==> dims[i] >= -1
  }

  /** The number of `-1` placeholders among the requested extents. */
  function Placeholders(dims: seq<int>): nat
    decreases |dims|
  {
    if dims == [] then 0 else Placeholders(dims[..|dims| - 1]) + (if dims[|dims| - 1] == -1 then 1 else 0)
  }

  /** The product of the requested extents other than the placeholders. */
  function KnownProduct(dims: seq<int>): nat
    requires Requested(dims)
    decreases |dims|
  {
    if dims == [] then 1
    else KnownProduct(dims[..|dims| - 1]) * (if dims[|dims| - 1] == -1 then 1 else dims[|dims| - 1] as nat)
  }

  /** The shape `reshape` builds: the extents as requested, the placeholder filled with the quotient `q`. */
  function ReshapeShape(dims: seq<int>, q: nat): (r: seq<nat>)
    requires Requested(dims)
    ensures |r| == |dims|
  {
    seq(|dims|, i requires 0 <= i < |dims| => if dims[i] == -1 then q else dims[i] as nat)
  }

  /** The extent a placeholder receives: the element count divided by the known product. */
  function Quotient(dims: seq<int>, n: nat): nat
    requires Requested(dims) && (Placeholders(dims) == 1 ==> KnownProduct(dims) > 0)
  {
    if Placeholders(dims) == 1 then n / KnownProduct(dims) else 0
  }

  lemma {:induction false} PlaceholderCounted(dims: seq<int>, i: nat)
    requires i < |dims| && dims[i] == -1
    ensures Placeholders(dims) >= 1
    decreases |dims|
  {
    if i < |dims| - 1 {
      PlaceholderCounted(dims[..|dims| - 1], i);
    }
  }

  /**
   * `reshape(ts...)` as written: an error for a non-contiguous view, for a second placeholder, and
   * (in debug builds) when, without a placeholder, the requested extents do not multiply to the
   * number of elements; with a placeholder the debug comparison is between equal numbers.
   * Otherwise a contiguous view of the requested shape at the same pointer.
   */
  function Reshaped(v: View, dims: seq<int>, debug: bool): Result<View>
    requires v.Wf() && Requested(dims)
    requires Contiguous(v) && Placeholders(dims) == 1 ==> KnownProduct(dims) > 0
  {
    if !Contiguous(v) then Err(NonContiguousReshape)
    else if Placeholders(dims) > 1 then Err(TooManyPlaceholders)
    else if debug && Placeholders(dims) == 0 && KnownProduct(dims) != NumElements(v) then Err(InvalidReshapeShape)
    else
      var shape := ReshapeShape(dims, Quotient(dims, NumElements(v)));
      Ok(View(v.data, shape, Canonical(shape), v.policy))
  }

  lemma {:induction false} PlaceholdersPrefix(dims: seq<int>, k: nat)
    requires k <= |dims|
    ensures Placeholders(dims[..k]) <= Placeholders(dims)
    decreases |dims|
  {
    if k < |dims| {
      assert dims[..|dims| - 1][..k] == dims[..k];
      PlaceholdersPrefix(dims[..|dims| - 1], k);
    } else {
      assert dims[..k] == dims;
    }
  }

  /**
   * The loop of `reshape`: counts the known product and remembers the placeholder's index, failing
   * at the second placeholder, then divides the element count by the known product.
   */
  method Reshape(v: View, dims: seq<int>, debug: bool) returns (r: Result<View>)
    requires v.Wf() && Requested(dims)
    requires Contiguous(v) && Placeholders(dims) == 1 ==> KnownProduct(dims) > 0
    ensures r == Reshaped(v, dims, debug)
  {
    var contiguous := IsContiguous(v);
    if !contiguous {
      return Err(NonContiguousReshape);
    }
    var total := NumElements(v);
    var post := new nat[|dims|];
    var placeholder, known, single := ScanDims(dims, post);
    if !single {
      return Err(TooManyPlaceholders);
    }
    if placeholder != -1 {
      post[placeholder] := total / known;
      known := total;
    }
    if debug && total != known {
      return Err(InvalidReshapeShape);
    }
    assert post[..] == ReshapeShape(dims, Quotient(dims, total));
    var w := FromShape(v.data, post[..], v.policy);
    return Ok(w);
  }

  /** The scan over the requested extents: copies the known ones and stops at a second placeholder. */
  method ScanDims(dims: seq<int>, post: array<nat>) returns (placeholder: int, known: nat, single: bool)
    requires Requested(dims) && post.Length == |dims|
    modifies post
    ensures single <==> Placeholders(dims) <= 1
    ensures single ==> known == KnownProduct(dims)
    ensures single ==> (placeholder == -1 <==> Placeholders(dims) == 0)
    ensures single && placeholder != -1 ==> 0 <= placeholder < |dims| && dims[placeholder] == -1
    ensures single ==> forall j :: 0 <= j < |dims| && dims[j] != -1 ==> post[j] == dims[j]
    ensures single ==> forall j :: 0 <= j < |dims| && dims[j] == -1 ==> j == placeholder
  {
    placeholder := -1;
    known := 1;
    var i := 0;
    while i < |dims|
      invariant 0 <= i <= |dims|
      invariant known == KnownProduct(dims[..i]) && Placeholders(dims[..i]) <= 1
      invariant placeholder == -1 <==> Placeholders(dims[..i]) == 0
      invariant placeholder != -1 ==> 0 <= placeholder < i && dims[placeholder] == -1
      invariant forall j :: 0 <= j < i && dims[j] != -1 ==> post[j] == dims[j]
      invariant forall j :: 0 <= j < i && dims[j] == -1 ==> j == placeholder
    {
      assert dims[..i + 1][..i] == dims[..i];
      if dims[i] == -1 {
        if placeholder != -1 {
          PlaceholdersPrefix(dims, i + 1);
          return placeholder, known, false;
        }
        placeholder := i;
      } else {
        known := known * dims[i];
        post[i] := dims[i];
      }
      i := i + 1;
    }
    assert dims[..i] == dims;
    single := true;
  }

  /** Known extents are kept, a placeholder receives the quotient, and the result is contiguous over the same data. */
  lemma ReshapedShape(v: View, dims: seq<int>, debug: bool)
    requires v.Wf() && Requested(dims)
    requires Contiguous(v) && Placeholders(dims) == 1 ==> KnownProduct(dims) > 0
    ensures Reshaped(v, dims, debug).Ok? <==>
              Contiguous(v) && Placeholders(dims) <= 1 && (debug && Placeholders(dims) == 0 ==> KnownProduct(dims) == NumElements(v))
    ensures var r := Reshaped(v, dims, debug);
            r.Ok? ==> r.value.Wf() && r.value.data == v.data && r.value.policy == v.policy && Contiguous(r.value) &&
                      r.value.Rank() == |dims| &&
                      (forall i :: 0 <= i < |dims| && dims[i] != -1 ==> r.value.shape[i] == dims[i])
    ensures var r := Reshaped(v, dims, debug);
            r.Ok? && Placeholders(dims) == 1 ==>
              forall i :: 0 <= i < |dims| && dims[i] == -1 ==> r.value.shape[i] == NumElements(v) / KnownProduct(dims)
  {
  }

  /** `KnownProduct` is the product of the shape when there is no placeholder. */
  lemma {:induction false} KnownProductIsProduct(dims: seq<int>, shape: seq<nat>)
    requires Requested(dims) && Placeholders(dims) == 0 && |shape| == |dims|
    requires forall i :: 0 <= i < |dims| ==> shape[i] == dims[i]
    ensures KnownProduct(dims) == Product(shape)
    decreases |dims|
  {
    if dims != [] {
      var n := |dims| - 1;
      KnownProductIsProduct(dims[..n], shape[..n]);
      ProductAppend(shape[..n], [shape[n]]);
      assert shape[..n] + [shape[n]] == shape;
    }
  }

  /** Without a placeholder, a debug-build reshape that succeeds keeps the number of elements. */
  lemma ReshapeKeepsSize(v: View, dims: seq<int>)
    requires v.Wf() && Requested(dims) && Placeholders(dims) == 0
    ensures Reshaped(v, dims, true).Ok? ==> NumElements(Reshaped(v, dims, true).value) == NumElements(v)
  {
    if Reshaped(v, dims, true).Ok? {
      forall i | 0 <= i < |dims|
        ensures dims[i] != -1
      {
        if dims[i] == -1 {
          PlaceholderCounted(dims, i);
        }
      }
      KnownProductIsProduct(dims, Reshaped(v, dims, true).value.shape);
    }
  }

  /** The test's `reshape(4, 3)` of the contiguous [3, 2, 2] view: contiguous, shape [4, 3], the same data. */
  lemma ReshapeExample(v: View)
    requires v == View(Addr(0), [3, 2, 2], [4, 2, 1], Implicit)
    ensures Reshaped(v, [4, 3], true) == Ok(View(Addr(0), [4, 3], [3, 1], Implicit))
  {
    CanonicalExamples();
    assert [4, 3][..1] == [4];
    assert Placeholders([4, 3]) == 0 && KnownProduct([4, 3]) == 12;
    assert Product([3, 2, 2]) == 12 by {
      assert [3, 2, 2][1..] == [2, 2] && [2, 2][1..] == [2];
    }
    assert ReshapeShape([4, 3], 0) == [4, 3];
    assert Canonical([4, 3]) == [3, 1] by {
      CanonicalAt([4, 3], 0);
      CanonicalAt([4, 3], 1);
    }
  }

  /**
   * With a placeholder, the debug size check compares the element count with itself: the 12-element
   * view reshaped to (5, -1) in a debug build succeeds with shape [5, 2], 10 elements.
   */
  lemma ReshapeVacuousCheck(v: View)
    requires v == View(Addr(0), [12], [1], Implicit)
    ensures Reshaped(v, [5, -1], true).Ok?
    ensures Reshaped(v, [5, -1], true).value.shape == [5, 2]
    ensures NumElements(Reshaped(v, [5, -1], true).value) == 10 != NumElements(v)
  {
    assert [5, -1][..1] == [5];
    assert Placeholders([5, -1]) == 1 && KnownProduct([5, -1]) == 5;
    assert Canonical([12]) == [1] by {
      CanonicalAt([12], 0);
    }
    assert [5, 2][1..] == [2];
  }

  /**
   * `reshape` with the debug check as intended: the element count is compared with the product of
   * the shape actually built, so an inexact placeholder division is rejected too.
   */
  function ReshapedChecked(v: View, dims: seq<int>, debug: bool): (r: Result<View>)
    requires v.Wf() && Requested(dims)
    requires Contiguous(v) && Placeholders(dims) == 1 ==> KnownProduct(dims) > 0
    ensures r.Ok? ==> r.value.Wf() && r.value.data == v.data && Contiguous(r.value) && r.value.Rank() == |dims|
    ensures r.Ok? && debug ==> NumElements(r.value) == NumElements(v)
    ensures r.Err? <==> Reshaped(v, dims, debug).Err? ||
                         (debug && NumElements(Reshaped(v, dims, debug).value) != NumElements(v))
  {
    match Reshaped(v, dims, debug)
    case Err(e) => Err(e)
    case Ok(w) => if debug && NumElements(w) != NumElements(v) then Err(InvalidReshapeShape) else Ok(w)
  }

  /** The corrected check rejects the (5, -1) reshape of 12 elements and still accepts (4, -1). */
  lemma ReshapeCheckedExample(v: View)
    requires v == View(Addr(0), [12], [1], Implicit)
    ensures ReshapedChecked(v, [5, -1], true) == Err(InvalidReshapeShape)
    ensures ReshapedChecked(v, [4, -1], true).Ok? && ReshapedChecked(v, [4, -1], true).value.shape == [4, 3]
  {
    ReshapeVacuousCheck(v);
    assert [4, -1][..1] == [4];
    assert Placeholders([4, -1]) == 1 && KnownProduct([4, -1]) == 4;
    assert Canonical([12]) == [1] by {
      CanonicalAt([12], 0);
    }
    assert [4, 3][1..] == [3];
  }

  // ----- Whole-view reduction -----

  /**
   * `reduce(f, initial_value)`: the trivial dimension of the view alone, then the all-reduce walk
   * started with the accumulator at `initial_value`.
   */
  method Reduce<T, R>(f: (R, T) -> R, v: View, init: R, mem: array<T>) returns (r: R)
    requires v.Live() && v.Rank() >= 1 && Within(Offsets(v), mem.Length)
    ensures OpsFit(Plan(v, FindFirstTrivialDimOf(v)), mem.Length)
    ensures r == Exec(mem[..], f, init, init, Plan(v, FindFirstTrivialDimOf(v)))
  {
    var t := FindFirstTrivialDimOf(v);
    ExpandPlan(v, t);
    r := AllReduceImpl(f, v, init, t, init, mem);
  }

  /**
   * What `reduce` returns: the fold of all elements in row-major order when the view is contiguous
   * or has no contiguous trailing part at all; otherwise only the fold of the last contiguous block.
   */
  lemma ReduceOutcome<T, R>(m: seq<T>, f: (R, T) -> R, init: R, v: View)
    requires v.Live() && v.Rank() >= 1 && Within(Offsets(v), |m|)
    ensures OpsFit(Plan(v, FindFirstTrivialDimOf(v)), |m|)
    ensures var t := FindFirstTrivialDimOf(v);
            (t == 0 || Contiguous(v)) ==> Exec(m, f, init, init, Plan(v, t)) == FoldLeft(f, init, Values(m, v))
    ensures var t, ops := FindFirstTrivialDimOf(v), Plan(v, FindFirstTrivialDimOf(v));
            0 < t < v.Rank() && |ops| > 0 ==>
              ops[|ops| - 1].Block? && Within(Head(ops[|ops| - 1]), |m|) &&
              Exec(m, f, init, init, ops) == FoldLeft(f, init, Gather(m, Head(ops[|ops| - 1])))
  {
    var t := FindFirstTrivialDimOf(v);
    ExpandPlan(v, t);
    FindFirstTrivialDimFull(v, v);
    if t == 0 || t == v.Rank() {
      ReduceExact(m, f, init, v, t);
    } else if |Plan(v, t)| > 0 {
      ReducePartialKeepsLastBlock(m, f, init, v, t);
    }
  }

  /** The reduction as intended: every contiguous block continues from the running accumulator. */
  method ReduceAccumulating<T, R>(f: (R, T) -> R, v: View, init: R, mem: array<T>) returns (r: R)
    requires v.Live() && v.Rank() >= 1 && Within(Offsets(v), mem.Length)
    ensures r == FoldLeft(f, init, Values(mem[..], v))
  {
    var t := FindFirstTrivialDimOf(v);
    ReduceFoldsAll(mem[..], f, init, v, t);
    r := AllReduceAccumulating(f, v, init, t, mem);
  }

  // ----- Maximum -----

  /** `std::max`: the first argument unless it is less than the second. */
  function MaxOf(a: int, b: int): int {
    if a < b then b else a
  }

  /** A fold of `std::max` is at least the seed and every element, and is the seed or an element. */
  lemma {:induction false} FoldMaxBounds(seed: int, xs: seq<int>)
    ensures FoldLeft(MaxOf, seed, xs) >= seed
    ensures forall i :: 0 <= i < |xs| ==> FoldLeft(MaxOf, seed, xs) >= xs[i]
    ensures FoldLeft(MaxOf, seed, xs) == seed || FoldLeft(MaxOf, seed, xs) in xs
    decreases |xs|
  {
    if xs != [] {
      FoldMaxBounds(MaxOf(seed, xs[0]), xs[1..]);
      forall i | 1 <= i < |xs|
        ensures FoldLeft(MaxOf, seed, xs) >= xs[i]
      {
        assert xs[i] == xs[1..][i - 1];
      }
    }
  }

  /** `max()`: `reduce(std::max)` with the initial value `ValueType{}`, which is 0. */
  method MaxElement(v: View, mem: array<int>) returns (r: int)
    requires v.Live() && v.Rank() >= 1 && Within(Offsets(v), mem.Length)
    ensures OpsFit(Plan(v, FindFirstTrivialDimOf(v)), mem.Length)
    ensures r == Exec(mem[..], MaxOf, 0, 0, Plan(v, FindFirstTrivialDimOf(v)))
  {
    r := Reduce(MaxOf, v, 0, mem);
  }

  /**
   * For a contiguous view (or one with no contiguous trailing part) `max()` is the largest of 0 and
   * the elements: at least every element, and 0 or one of them.
   */
  lemma MaxElementBounds(m: seq<int>, v: View)
    requires v.Live() && v.Rank() >= 1 && Within(Offsets(v), |m|)
    requires FindFirstTrivialDimOf(v) == 0 || Contiguous(v)
    ensures OpsFit(Plan(v, FindFirstTrivialDimOf(v)), |m|)
    ensures var r := Exec(m, MaxOf, 0, 0, Plan(v, FindFirstTrivialDimOf(v)));
            r >= 0 && (forall x :: x in Values(m, v) ==> x <= r) && (r == 0 || r in Values(m, v))
  {
    ReduceOutcome(m, MaxOf, 0, v);
    FoldMaxBounds(0, Values(m, v));
  }

  /** The memory 0, 1, ..., n - 1. */
  predicate Iota(m: seq<int>, n: nat) {
    |m| == n && forall i :: 0 <= i < n ==> m[i] == i
  }

  /** A contiguous view's elements are a slice of the memory. */
  lemma ContiguousValues<T>(m: seq<T>, v: View)
    requires v.Live() && Contiguous(v) && v.Base() + NumElements(v) <= |m|
    ensures Within(Offsets(v), |m|) && Values(m, v) == m[v.Base()..v.Base() + NumElements(v)]
  {
    OffsetsContiguous(v);
  }

  /**
   * `max()` of a non-empty contiguous view over the memory 0, 1, ..., n - 1 is the offset of its
   * last element.
   */
  lemma MaxIota(m: seq<int>, n: nat, v: View)
    requires Iota(m, n) && v.Live() && Contiguous(v) && v.Rank() >= 1 && NumElements(v) > 0
    requires v.Base() + NumElements(v) <= n
    ensures Within(Offsets(v), |m|) && OpsFit(Plan(v, FindFirstTrivialDimOf(v)), |m|)
    ensures Exec(m, MaxOf, 0, 0, Plan(v, FindFirstTrivialDimOf(v))) == v.Base() + NumElements(v) - 1
  {
    var b, k := v.Base(), NumElements(v);
    ContiguousValues(m, v);
    MaxElementBounds(m, v);
    var vals := Values(m, v);
    var r := Exec(m, MaxOf, 0, 0, Plan(v, FindFirstTrivialDimOf(v)));
    assert vals[k - 1] == m[b + k - 1] == b + k - 1 && vals[k - 1] in vals;
    assert r >= b + k - 1;
    if r != 0 {
      var i :| 0 <= i < |vals| && vals[i] == r;
      assert vals[i] == m[b + i] == b + i;
    }
  }

  /** The [3, 2, 2] and [2, 2, 3] blocks hold 12 elements each. */
  lemma TwelveElements()
    ensures Product([3, 2, 2]) == 12 && Product([2, 2, 3]) == 12
  {
    assert [3, 2, 2][1..] == [2, 2] && [2, 2][1..] == [2] && [2][1..] == [];
    assert [2, 2, 3][1..] == [2, 3] && [2, 3][1..] == [3] && [3][1..] == [];
  }

  /** The tests' `max()` over the [3, 2, 2] view of 0, 1, ..., 11 is 11. */
  lemma MaxExamples(m: seq<int>, v: View)
    requires Iota(m, 12) && v.Live() && v.Base() == 0 && v.shape == [3, 2, 2] && Contiguous(v)
    ensures Within(Offsets(v), |m|) && OpsFit(Plan(v, FindFirstTrivialDimOf(v)), |m|)
    ensures Exec(m, MaxOf, 0, 0, Plan(v, FindFirstTrivialDimOf(v))) == 11
  {
    TwelveElements();
    MaxIota(m, 12, v);
  }

  /** The tests' `max()` over `view(0)` of that view (the elements 0 to 3) is 3. */
  lemma MaxSubExample(m: seq<int>, v: View)
    requires Iota(m, 12) && v.Live() && v.Base() == 0 && v.shape == [3, 2, 2] && Contiguous(v)
    ensures Within(Offsets(Sub(v, 0)), |m|) && OpsFit(Plan(Sub(v, 0), FindFirstTrivialDimOf(Sub(v, 0))), |m|)
    ensures Exec(m, MaxOf, 0, 0, Plan(Sub(v, 0), FindFirstTrivialDimOf(Sub(v, 0)))) == 3
  {
    FirstRowOfBlock(v);
    MaxIota(m, 12, Sub(v, 0));
  }

  /** `view(0)` of the contiguous [3, 2, 2] view at 0 is the contiguous block of its first 4 elements. */
  lemma FirstRowOfBlock(v: View)
    requires v.Live() && v.Base() == 0 && v.shape == [3, 2, 2] && Contiguous(v)
    ensures Sub(v, 0).Live() && Contiguous(Sub(v, 0)) && Sub(v, 0).Rank() >= 1
    ensures Sub(v, 0).Base() == 0 && NumElements(Sub(v, 0)) == 4
  {
    SubContiguous(v, 0);
    assert v.shape[1..] == [2, 2] && [2, 2][1..] == [2] && [2][1..] == [];
  }

  /** The view `permute(1, 2, 0).at(0)` of the tests holds the offsets 0 to 9, the last one 9. */
  lemma PermutedSubOffsets(w: View)
    requires w.Live() && w.Base() == 0 && w.shape == [2, 3] && w.stride == [1, 4]
    ensures |Offsets(w)| == 6 && Offsets(w)[5] == 9
    ensures forall k :: 0 <= k < |Offsets(w)| ==> Offsets(w)[k] <= 9
  {
    assert [2, 3][1..] == [3] && [3][1..] == [];
    assert w.stride[1..] == [4] && w.stride[1..][1..] == [];
    forall k | 0 <= k < |Offsets(w)|
      ensures Offsets(w)[k] <= 9
    {
      OffsetsAt(w, [0, 0]);
      var c := Unrank(k, w.shape);
      OffsetsAt(w, c);
      assert c[1..] == [c[1]] && c[1..][1..] == [];
      assert Dot(w.stride[1..], c[1..]) == 4 * c[1] + Dot(w.stride[1..][1..], c[1..][1..]);
    }
    var top := [1, 2];
    assert InBounds(top, w.shape);
    OffsetsAt(w, top);
    assert [1, 2][1..] == [2] && [2][1..] == [];
    assert RowIndex(top, w.shape) == 5;
    assert Dot(w.stride, top) == 1 + Dot(w.stride[1..], top[1..]) == 1 + 8 + Dot(w.stride[1..][1..], top[1..][1..]);
  }

  /** That view has no contiguous trailing part. */
  lemma PermutedSubTrivialDim(w: View)
    requires w.Live() && w.shape == [2, 3] && w.stride == [1, 4]
    ensures FindFirstTrivialDimOf(w) == 0
  {
    assert Canonical([3]) == [1] && Canonical([2, 3]) == [3, 1];
    assert Tail(w, 1).stride == [4] && Tail(w, 1).shape == [3];
    assert !TrivialAt(w, w, 1) && !TrivialAt(w, w, 2);
  }

  /**
   * The tests' `max()` of `permute(1, 2, 0).at(0)` over 0, 1, ..., 11: that view (shape [2, 3] and
   * strides [1, 4] at the start of the memory) has no contiguous trailing part, so the walk is exact,
   * and its largest element is 9.
   */
  lemma MaxPermutedExample(m: seq<int>, w: View)
    requires Iota(m, 12) && w.Live() && w.Base() == 0 && w.shape == [2, 3] && w.stride == [1, 4]
    ensures FindFirstTrivialDimOf(w) == 0 && Within(Offsets(w), |m|) && OpsFit(Plan(w, 0), |m|)
    ensures Exec(m, MaxOf, 0, 0, Plan(w, 0)) == 9
  {
    PermutedSubTrivialDim(w);
    PermutedSubOffsets(w);
    MaxElementBounds(m, w);
    var vals := Values(m, w);
    var r := Exec(m, MaxOf, 0, 0, Plan(w, 0));
    assert vals[5] == 9 && vals[5] in vals;
    if r != 0 {
      var i :| 0 <= i < |vals| && vals[i] == r;
      assert vals[i] == m[Offsets(w)[i]];
    }
  }

  /**
   * `max()` of a view whose elements are all negative is 0, which is none of its elements: a
   * contiguous view of the two elements -3, -1. Seeded with its first element the fold gives -1.
   */
  lemma MaxNegativeExample(m: seq<int>, v: View)
    requires m == [-3, -1] && v.Live() && Contiguous(v) && v.Rank() >= 1 && v.Base() == 0 && NumElements(v) == 2
    ensures Within(Offsets(v), |m|) && OpsFit(Plan(v, FindFirstTrivialDimOf(v)), |m|)
    ensures Values(m, v) == [-3, -1]
    ensures Exec(m, MaxOf, 0, 0, Plan(v, FindFirstTrivialDimOf(v))) == 0
    ensures FoldLeft(MaxOf, m[0], Values(m, v)) == -1
  {
    ContiguousValues(m, v);
    assert m[0..2] == m;
    MaxElementBounds(m, v);
    assert m[1..] == [-1] && m[1..][1..] == [];
    assert FoldLeft(MaxOf, -3, m) == FoldLeft(MaxOf, -3, [-1]) == FoldLeft(MaxOf, -1, []);
  }

  /**
   * `max()` as intended: seeded with the first element in row-major order and folded over every
   * element, so the result is an element of the view and no element exceeds it; a view without
   * elements keeps the value-initialised 0.
   */
  method MaxElementSeeded(v: View, mem: array<int>) returns (r: int)
    requires v.Live() && v.Rank() >= 1 && Within(Offsets(v), mem.Length)
    ensures NumElements(v) == 0 ==> r == 0
    ensures NumElements(v) > 0 ==> r in Values(mem[..], v) && forall x :: x in Values(mem[..], v) ==> x <= r
  {
    if NumElements(v) == 0 {
      return 0;
    }
    OffsetsAt(v, Unrank(0, v.shape));
    var first := mem[Offsets(v)[0]];
    r := ReduceAccumulating(MaxOf, v, first, mem);
    FoldMaxBounds(first, Values(mem[..], v));
    assert Values(mem[..], v)[0] == first;
  }

  // ----- Axis reduction -----

  /** `size_t` values lie below 2^64. */
  const SizeLimit: nat := 0x1_0000_0000_0000_0000

  /** `ndim - axis` computed in `size_t`: an axis past the rank wraps around to a huge value. */
  function ReduceDimOf(n: nat, axis: nat): nat
    requires n < SizeLimit && axis < SizeLimit
  {
    (n - axis) % SizeLimit
  }

  /** The walk folds axis `axis` when it names one; an axis at or past the rank folds the last axis. */
  lemma AxisSelected(n: nat, axis: nat)
    requires 0 < n < SizeLimit && axis < SizeLimit
    ensures ReducedAxis(n, ReduceDimOf(n, axis)) == if axis < n then axis else n - 1
  {
    if axis > n {
      assert (n - axis) % SizeLimit == n - axis + SizeLimit;
    }
  }

  /**
   * `reduce(f, dst, axis, initial_value)`: the axis walk with `reduce_dim = ndim - axis`. The initial
   * value is not used: each destination element is folded on from its current contents.
   */
  method ReduceAxis<T>(f: (T, T) -> T, src: View, dst: View, axis: nat, init: T, mem: array<T>)
    requires src.Wf() && dst.Wf() && dst.Rank() + 1 == src.Rank() < SizeLimit && axis < SizeLimit
    requires StepsFit(ReduceSteps(src, dst, ReduceDimOf(src.Rank(), axis)), mem.Length)
    modifies mem
    ensures mem[..] == Run(old(mem[..]), f, ReduceSteps(src, dst, ReduceDimOf(src.Rank(), axis)))
  {
    ReduceDim(f, src, dst, ReduceDimOf(src.Rank(), axis), mem);
  }

  /**
   * What the axis reduction leaves in an element of `dst` (of the source's shape without `axis`,
   * not overlapping the source): the fold, from the element's previous value, of the source elements
   * along `axis` at that coordinate.
   */
  lemma ReduceAxisResult<T>(m: seq<T>, f: (T, T) -> T, s: View, d: View, axis: nat, e: seq<nat>)
    requires s.Live() && d.Live() && d.Rank() + 1 == s.Rank() < SizeLimit && axis < s.Rank()
    requires d.shape == Remove(s.shape, axis) && Injective(d) && Separate(s, d)
    requires StepsFit(ReduceSteps(s, d, ReduceDimOf(s.Rank(), axis)), |m|)
    requires InBounds(e, d.shape) && ElementOffset(d, e) < |m|
    ensures Within(FibreOffsets(s, axis, e), |m|)
    ensures Run(m, f, ReduceSteps(s, d, ReduceDimOf(s.Rank(), axis)))[ElementOffset(d, e)] ==
            FoldLeft(f, m[ElementOffset(d, e)], Gather(m, FibreOffsets(s, axis, e)))
  {
    AxisSelected(s.Rank(), axis);
    ReduceDimResult(m, f, s, d, ReduceDimOf(s.Rank(), axis), e);
  }

  /** The addresses a view's elements occupy all lie in memory: the writes of a fill fit. */
  lemma FillFits(d: View, n: nat)
    requires d.Live() && Within(Offsets(d), n)
    ensures forall e :: InBounds(e, d.shape) ==> ElementOffset(d, e) < n
    ensures d.Rank() >= 1 ==> StepsFit(Steps(d, d, d, 0), n)
  {
    forall e | InBounds(e, d.shape)
      ensures ElementOffset(d, e) < n
    {
      OffsetsAt(d, e);
    }
    if d.Rank() >= 1 {
      StepsLength(d, d, d);
      forall k | 0 <= k < |Steps(d, d, d, 0)|
        ensures Steps(d, d, d, 0)[k].dst < n && Steps(d, d, d, 0)[k].lhs < n && Steps(d, d, d, 0)[k].rhs < n
      {
        var c := Unrank(k, d.shape);
        StepsAt(d, d, d, c);
        ClampInBounds(c, d.shape);
        OffsetsAt(d, c);
      }
    }
  }

  /** The function that ignores its argument. */
  function Const<T>(x: T): T -> T {
    _ => x
  }

  /** The memory after every element of `d` is set to `init`. */
  function Seeded<T>(m: seq<T>, d: View, init: T): (r: seq<T>)
    requires d.Live() && Within(Offsets(d), |m|)
    ensures |r| == |m|
  {
    if d.Rank() == 0 then
      assert Offsets(d)[0] == d.Base();
      m[d.Base() := init]
    else
      FillFits(d, |m|);
      Run(m, Lift(Const(init)), Steps(d, d, d, 0))
  }

  /** Seeding sets exactly the elements of an injective `d` to `init`. */
  lemma SeededAt<T>(m: seq<T>, d: View, init: T, o: nat)
    requires d.Live() && Within(Offsets(d), |m|) && Injective(d) && o < |m|
    ensures forall e :: InBounds(e, d.shape) && ElementOffset(d, e) == o ==> Seeded(m, d, init)[o] == init
    ensures (forall e :: InBounds(e, d.shape) ==> ElementOffset(d, e) != o) ==> Seeded(m, d, init)[o] == m[o]
  {
    if d.Rank() == 0 {
      assert Offsets(d)[0] == d.Base();
      assert InBounds([], d.shape) && ElementOffset(d, []) == d.Base();
    } else {
      FillFits(d, |m|);
      UnaryInplaceResult(m, Const(init), d, o);
    }
  }

  /**
   * The axis reduction as intended: `dst` is first filled with `initial_value`, then the axis walk
   * folds the source into it.
   */
  method ReduceAxisSeeded<T>(f: (T, T) -> T, src: View, dst: View, axis: nat, init: T, mem: array<T>)
    requires src.Live() && dst.Live() && dst.Rank() + 1 == src.Rank() < SizeLimit && axis < SizeLimit
    requires Within(Offsets(dst), mem.Length)
    requires StepsFit(ReduceSteps(src, dst, ReduceDimOf(src.Rank(), axis)), mem.Length)
    modifies mem
    ensures mem[..] == Run(Seeded(old(mem[..]), dst, init), f, ReduceSteps(src, dst, ReduceDimOf(src.Rank(), axis)))
  {
    if dst.Rank() == 0 {
      assert Offsets(dst)[0] == dst.Base();
      mem[dst.Base()] := init;
    } else {
      FillFits(dst, mem.Length);
      UnaryInplaceOp(Const(init), dst, mem);
    }
    ReduceDim(f, src, dst, ReduceDimOf(src.Rank(), axis), mem);
  }

  /**
   * After the seeded reduction each element of `dst` is the fold, from `initial_value`, of the source
   * elements along `axis` at its coordinate, whatever `dst` held before.
   */
  lemma ReduceAxisSeededResult<T>(m: seq<T>, f: (T, T) -> T, init: T, s: View, d: View, axis: nat, e: seq<nat>)
    requires s.Live() && d.Live() && d.Rank() + 1 == s.Rank() < SizeLimit && axis < s.Rank()
    requires d.shape == Remove(s.shape, axis) && Injective(d) && Separate(s, d)
    requires Within(Offsets(d), |m|) && StepsFit(ReduceSteps(s, d, ReduceDimOf(s.Rank(), axis)), |m|)
    requires InBounds(e, d.shape)
    ensures Within(FibreOffsets(s, axis, e), |m|) && ElementOffset(d, e) < |m|
    ensures Run(Seeded(m, d, init), f, ReduceSteps(s, d, ReduceDimOf(s.Rank(), axis)))[ElementOffset(d, e)] ==
            FoldLeft(f, init, Gather(m, FibreOffsets(s, axis, e)))
  {
    var rd := ReduceDimOf(s.Rank(), axis);
    AxisSelected(s.Rank(), axis);
    FillFits(d, |m|);
    var m1 := Seeded(m, d, init);
    SeededAt(m, d, init, ElementOffset(d, e));
    ReduceDimResult(m1, f, s, d, rd, e);
    var fibre := FibreOffsets(s, axis, e);
    forall j | 0 <= j < |fibre|
      ensures m1[fibre[j]] == m[fibre[j]]
    {
      InsertInBounds(e, s.shape, axis, j);
      SeededAt(m, d, init, fibre[j]);
    }
    assert Gather(m1, fibre) == Gather(m, fibre);
  }

  // ----- Operators -----

  /** The function `assign_` applies: it keeps the right-hand element. */
  function Second<T>(a: T, b: T): T {
    b
  }

  /** `assign_(rhs)`: `this := rhs` element by element, `rhs` broadcast to the rank of `this`. */
  method Assign<T>(v: View, rhs: View, mem: array<T>) returns (o: Outcome)
    requires v.Wf() && rhs.Wf() && rhs.Rank() <= v.Rank() && v.Rank() >= 1
    requires CheckShapes(v, rhs) ==>
               v.Live() && rhs.Live() && StepsFit(Steps(v, Padded(rhs, v.Rank()), v, 0), mem.Length)
    modifies mem
    ensures o.Fail? <==> !CheckShapes(v, rhs)
    ensures o.Fail? ==> o.error == ShapeMismatch && mem[..] == old(mem[..])
    ensures o.Pass? ==> mem[..] == Run(old(mem[..]), Second, Steps(v, Padded(rhs, v.Rank()), v, 0))
  {
    o := ElementWiseInplaceOp(Second, v, rhs, mem);
  }

  /**
   * Assigning a permuted view: when `v` (injective) has the shape of `src` permuted by `p`, and no
   * element of `v` is an element of `src`, the element of `v` at `c` receives the element of `src` at
   * `c` scattered back through the inverse permutation `q`, and no address outside `v` changes.
   */
  lemma AssignPermuted<T>(m: seq<T>, v: View, src: View, p: seq<nat>, q: seq<nat>, c: seq<nat>)
    requires v.Live() && src.Live() && |p| == src.Rank() == v.Rank() >= 1 && Inverse(p, q) && Injective(v)
    requires Permuted(src, p).shape == v.shape
    requires forall x, y :: InBounds(x, v.shape) && InBounds(y, src.shape) ==> ElementOffset(v, x) != ElementOffset(src, y)
    requires StepsFit(Steps(v, Padded(Permuted(src, p), v.Rank()), v, 0), |m|)
    requires InBounds(c, v.shape)
    ensures InBounds(Scatter(c, q), src.shape) && ElementOffset(v, c) < |m| && ElementOffset(src, Scatter(c, q)) < |m|
    ensures Run(m, Second, Steps(v, Padded(Permuted(src, p), v.Rank()), v, 0))[ElementOffset(v, c)] == m[ElementOffset(src, Scatter(c, q))]
  {
    var r := Permuted(src, p);
    forall x, x' | InBounds(x, v.shape) && InBounds(x', v.shape)
      ensures ElementOffset(v, x') != ElementOffset(r, Clamp(x[v.Rank() - r.Rank()..], r.shape))
    {
      assert x[0..] == x;
      ClampInBounds(x, r.shape);
      PermutedElement(src, p, q, x);
    }
    InplaceResult(m, Second, v, r, c);
    assert c[0..] == c;
    ClampInBounds(c, r.shape);
    PermutedElement(src, p, q, c);
  }

  /** Scattered back through (2, 0, 1), coordinate `c` of the permuted [3, 2, 2] view is at `4 * c[2] + 2 * c[0] + c[1]`. */
  lemma PermutedSourceOffset(src: View, c: seq<nat>)
    requires src.Live() && src.Base() == 0 && src.shape == [3, 2, 2] && Contiguous(src) && |c| == 3
    ensures Axes([2, 0, 1]) && ElementOffset(src, Scatter(c, [2, 0, 1])) == 4 * c[2] + 2 * c[0] + c[1]
  {
    var x := Scatter(c, [2, 0, 1]);
    assert x == [c[2], c[0], c[1]];
    assert src.stride == [4, 2, 1] by {
      assert [3, 2, 2][1..] == [2, 2] && [2, 2][1..] == [2] && [2][1..] == [];
    }
    assert x[1..] == [c[0], c[1]] && x[1..][1..] == [c[1]] && x[1..][1..][1..] == [];
    assert src.stride[1..] == [2, 1] && src.stride[1..][1..] == [1] && src.stride[1..][1..][1..] == [];
    assert Dot(src.stride[1..][1..], x[1..][1..]) == c[1];
    assert Dot(src.stride[1..], x[1..]) == 2 * c[0] + c[1];
    assert Dot(src.stride, x) == 4 * c[2] + 2 * c[0] + c[1];
  }

  /**
   * The tests' `assign_` of `permute(1, 2, 0)` of the contiguous [3, 2, 2] view over 0, 1, ..., 11
   * into a separate [2, 2, 3] view: the element at `c` becomes `4 * c[2] + 2 * c[0] + c[1]`, which in
   * row-major order is 0, 4, 8, 1, 5, 9, 2, 6, 10, 3, 7, 11.
   */
  lemma AssignPermutedExample(m: seq<int>, v: View, src: View, c: seq<nat>)
    requires src.Live() && src.Base() == 0 && src.shape == [3, 2, 2] && Contiguous(src)
    requires |m| >= 12 && forall i :: 0 <= i < 12 ==> m[i] == i
    requires v.Live() && v.shape == [2, 2, 3] && Injective(v)
    requires forall x, y :: InBounds(x, v.shape) && InBounds(y, src.shape) ==> ElementOffset(v, x) != ElementOffset(src, y)
    requires StepsFit(Steps(v, Padded(Permuted(src, [1, 2, 0]), 3), v, 0), |m|)
    requires InBounds(c, v.shape)
    ensures ElementOffset(v, c) < |m|
    ensures Run(m, Second, Steps(v, Padded(Permuted(src, [1, 2, 0]), 3), v, 0))[ElementOffset(v, c)] == 4 * c[2] + 2 * c[0] + c[1]
  {
    var p, q := [1, 2, 0], [2, 0, 1];
    PermutedBlockShape(src);
    AssignPermuted(m, v, src, p, q, c);
    PermutedSourceOffset(src, c);
    assert 4 * c[2] + 2 * c[0] + c[1] < 12;
  }

  /** The [3, 2, 2] block permuted by (1, 2, 0) has shape [2, 2, 3]; (2, 0, 1) undoes the permutation. */
  lemma PermutedBlockShape(src: View)
    requires src.Wf() && src.shape == [3, 2, 2]
    ensures Inverse([1, 2, 0], [2, 0, 1]) && Permuted(src, [1, 2, 0]).shape == [2, 2, 3]
  {
    assert Inverse([1, 2, 0], [2, 0, 1]);
  }

  /** `operator+=(rhs)`: `this := this + rhs` element by element. */
  method AddAssign(v: View, rhs: View, mem: array<int>) returns (o: Outcome)
    requires v.Wf() && rhs.Wf() && rhs.Rank() <= v.Rank() && v.Rank() >= 1
    requires CheckShapes(v, rhs) ==>
               v.Live() && rhs.Live() && StepsFit(Steps(v, Padded(rhs, v.Rank()), v, 0), mem.Length)
    modifies mem
    ensures o.Fail? <==> !CheckShapes(v, rhs)
    ensures o.Fail? ==> o.error == ShapeMismatch && mem[..] == old(mem[..])
    ensures o.Pass? ==> mem[..] == Run(old(mem[..]), Plus, Steps(v, Padded(rhs, v.Rank()), v, 0))
  {
    o := ElementWiseInplaceOp(Plus, v, rhs, mem);
  }

  /**
   * After `+=` each element of an injective `v` is its old value plus the element of `rhs` at the
   * trailing part of its coordinate (broadcast along extent-1 axes), provided `rhs` reads no element
   * of `v`; addresses outside `v` keep their values.
   */
  lemma AddAssignResult(m: seq<int>, v: View, rhs: View, c: seq<nat>, o: nat)
    requires v.Live() && rhs.Live() && rhs.Rank() <= v.Rank() && v.Rank() >= 1 && Injective(v)
    requires forall x, x' :: InBounds(x, v.shape) && InBounds(x', v.shape) ==>
               ElementOffset(v, x') != ElementOffset(rhs, Clamp(x[v.Rank() - rhs.Rank()..], rhs.shape))
    requires StepsFit(Steps(v, Padded(rhs, v.Rank()), v, 0), |m|) && InBounds(c, v.shape) && o < |m|
    ensures ElementOffset(v, c) < |m| && ElementOffset(rhs, Clamp(c[v.Rank() - rhs.Rank()..], rhs.shape)) < |m|
    ensures Run(m, Plus, Steps(v, Padded(rhs, v.Rank()), v, 0))[ElementOffset(v, c)] ==
            m[ElementOffset(v, c)] + m[ElementOffset(rhs, Clamp(c[v.Rank() - rhs.Rank()..], rhs.shape))]
    ensures (forall x :: InBounds(x, v.shape) ==> ElementOffset(v, x) != o) ==>
            Run(m, Plus, Steps(v, Padded(rhs, v.Rank()), v, 0))[o] == m[o]
  {
    InplaceResult(m, Plus, v, rhs, c);
    if forall x :: InBounds(x, v.shape) ==> ElementOffset(v, x) != o {
      var n := v.Rank();
      TrivialAtZero(v, Padded(rhs, n));
      TrivialAtZero(v, v);
      WalkUntouched(m, Plus, v, Padded(rhs, n), v, 0, o);
    }
  }

  /** Multiplication by the constant `c`. */
  function Scale(c: int): int -> int {
    x => c * x
  }

  /** `operator*=(c)`: every element is multiplied by `c` in place. */
  method MulAssign(v: View, c: int, mem: array<int>)
    requires v.Live() && v.Rank() >= 1 && StepsFit(Steps(v, v, v, 0), mem.Length)
    modifies mem
    ensures mem[..] == Run(old(mem[..]), Lift(Scale(c)), Steps(v, v, v, 0))
  {
    UnaryInplaceOp(Scale(c), v, mem);
  }

  /**
   * Scaling a permutation of an injective view in place scales exactly the elements of the view:
   * each element of `v` becomes `c` times its old value and every other address keeps its value.
   */
  lemma MulAssignPermuted(m: seq<int>, v: View, p: seq<nat>, q: seq<nat>, k: int, o: nat)
    requires v.Live() && |p| == v.Rank() >= 1 && Inverse(p, q) && Injective(v)
    requires StepsFit(Steps(Permuted(v, p), Permuted(v, p), Permuted(v, p), 0), |m|) && o < |m|
    ensures forall e :: InBounds(e, v.shape) && ElementOffset(v, e) == o ==>
              Run(m, Lift(Scale(k)), Steps(Permuted(v, p), Permuted(v, p), Permuted(v, p), 0))[o] == k * m[o]
    ensures (forall e :: InBounds(e, v.shape) ==> ElementOffset(v, e) != o) ==>
              Run(m, Lift(Scale(k)), Steps(Permuted(v, p), Permuted(v, p), Permuted(v, p), 0))[o] == m[o]
  {
    var r := Permuted(v, p);
    PermutedInjective(v, p, q);
    UnaryInplaceResult(m, Scale(k), r, o);
    forall e | InBounds(e, v.shape) && ElementOffset(v, e) == o
      ensures InBounds(Scatter(e, p), r.shape) && ElementOffset(r, Scatter(e, p)) == o
    {
      PermutedCovers(v, p, q, e);
    }
    forall x | InBounds(x, r.shape)
      ensures InBounds(Scatter(x, q), v.shape) && ElementOffset(r, x) == ElementOffset(v, Scatter(x, q))
    {
      PermutedElement(v, p, q, x);
    }
  }

  /**
   * `operator+(rhs)`: the lazy sum built by the binary factory, with its operands swapped as the
   * factory swaps them.
   */
  method Add(v: View, rhs: View) returns (r: Result<ElementWiseOperation<int>>)
    requires v.Wf() && rhs.Wf()
    ensures r.Err? <==> !CheckShapes(v, rhs)
    ensures r.Ok? ==> var n := Max(v.Rank(), rhs.Rank());
                      r.value == ElementWiseOperation(Padded(rhs, n), Padded(v, n), Plus)
  {
    r := MakeBinaryOp(Plus, v, rhs);
  }

  /** Addition commutes, so the swap in `operator+` leaves the same memory as the operands in order. */
  lemma AddOrderIrrelevant(m: seq<int>, v: View, rhs: View, dst: View)
    requires v.Wf() && rhs.Wf() && v.Rank() <= dst.Rank() && rhs.Rank() <= dst.Rank()
    requires Shaped(Padded(v, dst.Rank()), Padded(rhs, dst.Rank()), dst)
    requires StepsFit(Steps(Padded(v, dst.Rank()), Padded(rhs, dst.Rank()), dst, 0), |m|)
    ensures StepsFit(Steps(Padded(rhs, dst.Rank()), Padded(v, dst.Rank()), dst, 0), |m|)
    ensures Run(m, Plus, Steps(Padded(rhs, dst.Rank()), Padded(v, dst.Rank()), dst, 0)) ==
            Run(m, Plus, Steps(Padded(v, dst.Rank()), Padded(rhs, dst.Rank()), dst, 0))
  {
    var n := dst.Rank();
    assert forall x, y :: Plus(x, y) == Plus(y, x);
    CommutativeOrderIrrelevant(m, Plus, Padded(v, n), Padded(rhs, n), dst);
  }

  /**
   * `operator*(c)`: the lazy product by `c`, built by `make_unary_op`. What applying it writes is
   * stated by `ScaledResult`.
   */
  function Scaled(v: View, c: int): (r: UnaryOperation<int>)
    ensures r.src == v && forall x :: r.func(x) == c * x
  {
    UnaryOperation(v, Scale(c))
  }

  /**
   * Applying `v * c` to `dst` (the memory `ApplyUnary` leaves when the shapes pass): when `dst` is
   * injective and the walk reads none of its elements, the element of `dst` at `e` becomes `c` times
   * the element of `v` at `e` (index 0 on the extent-1 axes of `v`), and every address outside `dst`
   * keeps its value.
   */
  lemma ScaledResult(m: seq<int>, v: View, k: int, dst: View, e: seq<nat>, o: nat)
    requires v.Live() && dst.Live() && v.Rank() == dst.Rank() >= 1 && Injective(dst)
    requires forall x, y :: InBounds(x, dst.shape) && InBounds(y, dst.shape) ==>
               ElementOffset(dst, x) != ElementOffset(v, Clamp(y, v.shape))
    requires StepsFit(Steps(v, v, dst, 0), |m|) && InBounds(e, dst.shape) && o < |m|
    ensures ElementOffset(dst, e) < |m| && ElementOffset(v, Clamp(e, v.shape)) < |m|
    ensures Run(m, Lift(Scaled(v, k).func), Steps(v, v, dst, 0))[ElementOffset(dst, e)] ==
            k * m[ElementOffset(v, Clamp(e, v.shape))]
    ensures (forall x :: InBounds(x, dst.shape) ==> ElementOffset(dst, x) != o) ==>
              Run(m, Lift(Scaled(v, k).func), Steps(v, v, dst, 0))[o] == m[o]
  {
    var g := Scaled(v, k).func;
    TrivialAtZero(v, v);
    TrivialAtZero(v, dst);
    assert NoHazard(v, v, dst);
    WalkResult(m, Lift(g), v, v, dst, 0, e);
    if forall x :: InBounds(x, dst.shape) ==> ElementOffset(dst, x) != o {
      WalkUntouched(m, Lift(g), v, v, dst, 0, o);
    }
  }

  /** Scattered back through (2, 1, 0), coordinate `e` of the reversed [3, 2, 2] view is at `4 * e[2] + 2 * e[1] + e[0]`. */
  lemma ReversedSourceOffset(src: View, e: seq<nat>)
    requires src.Live() && src.Base() == 0 && src.shape == [3, 2, 2] && Contiguous(src) && |e| == 3
    ensures Axes([2, 1, 0]) && ElementOffset(src, Scatter(e, [2, 1, 0])) == 4 * e[2] + 2 * e[1] + e[0]
  {
    var x := Scatter(e, [2, 1, 0]);
    assert x == [e[2], e[1], e[0]];
    assert src.stride == [4, 2, 1] by {
      assert [3, 2, 2][1..] == [2, 2] && [2, 2][1..] == [2] && [2][1..] == [];
    }
    assert x[1..] == [e[1], e[0]] && x[1..][1..] == [e[0]] && x[1..][1..][1..] == [];
    assert src.stride[1..] == [2, 1] && src.stride[1..][1..] == [1] && src.stride[1..][1..][1..] == [];
    assert Dot(src.stride[1..][1..], x[1..][1..]) == e[0];
    assert Dot(src.stride[1..], x[1..]) == 2 * e[1] + e[0];
  }

  /**
   * The first half of the tests' `mul_by_const_permuted`: `permute(2, 1, 0) * 2` of the contiguous
   * [3, 2, 2] view over 0, 1, ..., 11, applied to a separate injective [2, 2, 3] view, writes
   * `2 * (4 * e[2] + 2 * e[1] + e[0])` at `e`.
   */
  lemma ScaledPermutedExample(m: seq<int>, src: View, dst: View, e: seq<nat>)
    requires src.Live() && src.Base() == 0 && src.shape == [3, 2, 2] && Contiguous(src)
    requires |m| >= 12 && forall i :: 0 <= i < 12 ==> m[i] == i
    requires dst.Live() && dst.shape == [2, 2, 3] && Injective(dst)
    requires forall x, y :: InBounds(x, dst.shape) && InBounds(y, src.shape) ==> ElementOffset(dst, x) != ElementOffset(src, y)
    requires StepsFit(Steps(Permuted(src, [2, 1, 0]), Permuted(src, [2, 1, 0]), dst, 0), |m|)
    requires InBounds(e, dst.shape)
    ensures ElementOffset(dst, e) < |m|
    ensures Run(m, Lift(Scaled(Permuted(src, [2, 1, 0]), 2).func), Steps(Permuted(src, [2, 1, 0]), Permuted(src, [2, 1, 0]), dst, 0))[ElementOffset(dst, e)] ==
            2 * (4 * e[2] + 2 * e[1] + e[0])
  {
    var p := [2, 1, 0];
    var r := Permuted(src, p);
    ReversedReads(src, dst);
    ScaledResult(m, r, 2, dst, e, 0);
    ReversedSourceOffset(src, e);
    assert 4 * e[2] + 2 * e[1] + e[0] < 12;
  }

  /**
   * The reversed [3, 2, 2] view reads at `y` (no axis of it has extent 1) the element of the view at
   * `y` reversed, so a view that shares no element with the original is never read through it.
   */
  lemma ReversedReads(src: View, dst: View)
    requires src.Live() && src.shape == [3, 2, 2] && dst.Wf() && dst.shape == [2, 2, 3]
    requires forall x, y :: InBounds(x, dst.shape) && InBounds(y, src.shape) ==> ElementOffset(dst, x) != ElementOffset(src, y)
    ensures Inverse([2, 1, 0], [2, 1, 0]) && Permuted(src, [2, 1, 0]).shape == [2, 2, 3]
    ensures forall y :: InBounds(y, dst.shape) ==>
              ElementOffset(Permuted(src, [2, 1, 0]), Clamp(y, [2, 2, 3])) == ElementOffset(src, Scatter(y, [2, 1, 0]))
    ensures forall x, y :: InBounds(x, dst.shape) && InBounds(y, dst.shape) ==>
              ElementOffset(dst, x) != ElementOffset(Permuted(src, [2, 1, 0]), Clamp(y, [2, 2, 3]))
  {
    var p := [2, 1, 0];
    var r := Permuted(src, p);
    assert Inverse(p, p) && r.shape == [2, 2, 3];
    forall y | InBounds(y, dst.shape)
      ensures ElementOffset(r, Clamp(y, r.shape)) == ElementOffset(src, Scatter(y, p)) && InBounds(Scatter(y, p), src.shape)
    {
      ClampInBounds(y, r.shape);
      PermutedElement(src, p, p, y);
    }
  }

  /** Two contiguous views whose blocks `[base, base + n)` do not overlap share no element. */
  lemma DisjointBlocks(a: View, b: View)
    requires a.Live() && Contiguous(a) && b.Live() && Contiguous(b)
    requires a.Base() + Product(a.shape) <= b.Base()
    ensures forall x, y :: InBounds(x, a.shape) && InBounds(y, b.shape) ==> ElementOffset(a, x) != ElementOffset(b, y)
    ensures forall x, y :: InBounds(x, b.shape) && InBounds(y, a.shape) ==> ElementOffset(b, x) != ElementOffset(a, y)
  {
    ContiguousInjective(a);
    ContiguousInjective(b);
    forall x | InBounds(x, a.shape)
      ensures ElementOffset(a, x) < a.Base() + Product(a.shape)
    {
      RowIndexBound(x, a.shape);
    }
  }

  /**
   * The second half of the tests' `mul_by_const_permuted`: assigning `permute(2, 1, 0)` of a
   * contiguous [2, 2, 3] view at 12 to a contiguous [3, 2, 2] view at 24 copies to `x` the element
   * at `x` reversed.
   */
  lemma AssignReversedExample(s: seq<int>, tmp: View, out: View, x: seq<nat>)
    requires tmp.Live() && tmp.Base() == 12 && tmp.shape == [2, 2, 3] && Contiguous(tmp)
    requires out.Live() && out.Base() == 24 && out.shape == [3, 2, 2] && Contiguous(out)
    requires StepsFit(Steps(out, Padded(Permuted(tmp, [2, 1, 0]), 3), out, 0), |s|)
    requires InBounds(x, out.shape)
    ensures InBounds([x[2], x[1], x[0]], tmp.shape) && ElementOffset(out, x) < |s| && ElementOffset(tmp, [x[2], x[1], x[0]]) < |s|
    ensures Run(s, Second, Steps(out, Padded(Permuted(tmp, [2, 1, 0]), 3), out, 0))[ElementOffset(out, x)] ==
            s[ElementOffset(tmp, [x[2], x[1], x[0]])]
  {
    var p := [2, 1, 0];
    assert Inverse(p, p);
    TwelveElements();
    DisjointBlocks(tmp, out);
    ContiguousInjective(out);
    assert Permuted(tmp, p).shape == out.shape;
    AssignPermuted(s, out, tmp, p, p, x);
    assert Scatter(x, p) == [x[2], x[1], x[0]];
  }

  /**
   * The tests' `mul_by_const_permuted`: with the [3, 2, 2] view over 0, 1, ..., 11 at 0, a separate
   * contiguous [2, 2, 3] result at 12 and a contiguous [3, 2, 2] target at 24, applying
   * `permute(2, 1, 0) * 2` to the result and then assigning the result's `permute(2, 1, 0)` to the
   * target writes `2 * (4 * x[0] + 2 * x[1] + x[2])` at `x`: 0, 2, 4, ..., 22 in row-major order.
   */
  lemma MulByConstPermutedExample(m: seq<int>, src: View, tmp: View, out: View, x: seq<nat>)
    requires src.Live() && src.Base() == 0 && src.shape == [3, 2, 2] && Contiguous(src)
    requires tmp.Live() && tmp.Base() == 12 && tmp.shape == [2, 2, 3] && Contiguous(tmp)
    requires out.Live() && out.Base() == 24 && out.shape == [3, 2, 2] && Contiguous(out)
    requires |m| >= 12 && forall i :: 0 <= i < 12 ==> m[i] == i
    requires StepsFit(Steps(Permuted(src, [2, 1, 0]), Permuted(src, [2, 1, 0]), tmp, 0), |m|)
    requires StepsFit(Steps(out, Padded(Permuted(tmp, [2, 1, 0]), 3), out, 0), |m|)
    requires InBounds(x, out.shape)
    ensures ElementOffset(out, x) < |m|
    ensures Run(Run(m, Lift(Scaled(Permuted(src, [2, 1, 0]), 2).func), Steps(Permuted(src, [2, 1, 0]), Permuted(src, [2, 1, 0]), tmp, 0)),
                Second, Steps(out, Padded(Permuted(tmp, [2, 1, 0]), 3), out, 0))[ElementOffset(out, x)] ==
            2 * (4 * x[0] + 2 * x[1] + x[2])
  {
    TwelveElements();
    DisjointBlocks(src, tmp);
    ContiguousInjective(tmp);
    var scaled := Run(m, Lift(Scaled(Permuted(src, [2, 1, 0]), 2).func), Steps(Permuted(src, [2, 1, 0]), Permuted(src, [2, 1, 0]), tmp, 0));
    AssignReversedExample(scaled, tmp, out, x);
    ScaledPermutedExample(m, src, tmp, [x[2], x[1], x[0]]);
  }
}
