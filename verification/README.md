# TensorView shape and stride engine, in Dafny

TensorView is a header-only C++ library of non-owning strided N-dimensional views.

A view is a data pointer plus a `shape` and a `stride` array of one length, the rank. It is tagged with one of three broadcast policies: `implicit_broadcast`, `explicit_broadcast` or `disable_broadcast`. The element at coordinate `c` lives at `data_ptr_[Σ stride[j] * c[j]]`.

This project models the library's core, in two generations:

- the newer headers under `include/TensorView/`;
- the older ones under `TensorView/`.

The core consists of:

- **Shape arithmetic** (`Dims.h`): the flat offset of a coordinate, canonical row-major strides, `check_shapes` under each policy, `shapes_equal`, `is_trivial_layout` and `find_first_trivial_dim`.
- **The view** (`TensorView.h`):
  - the constructors and `make_view`;
  - `at` for elements and sub-views, `is_contiguous`, `permute`, `reshape` with a `-1` placeholder, `num_elements` and `empty`;
  - `assign_`, `+=`, `*=`, `+` and `*`;
  - the whole-view `reduce` and `max`, and the axis `reduce`.
- **The dispatch engine** (`Operations.h`):
  - `BroadcastTensors`;
  - the recursive element-wise, unary, all-reduce and axis-reduce walks, with their linear fast path;
  - the in-place operations and the deferred operations with their factories.

## How the model is built

- **Memory.** Memory is one flat `array<T>`. A pointer is `Null` or an offset into it. A view is the value `View(data, shape, stride, policy)`.
  - The rank is `|shape|`.
  - The compile-time recursions (`CalculateOffsetImpl<N, K>`, `ElementWiseOpImpl<N>`, `AllReduceImpl<N>`, `ReduceDim<N, M>`) are recursive methods with a depth argument.
  - The assertion macro `TV_ASSERT` becomes an error result: `Result`/`Outcome` carrying `ShapeMismatch`, `NonContiguousReshape`, `TooManyPlaceholders` or `InvalidReshapeShape`.
  - The debug-only `TV_ASSERT_DEBUG` is guarded by a `debug` flag.
- **Walks.** Each walk is specified by the list of its steps, in the order the source performs them. A step is `mem[dst] := f(mem[lhs], mem[rhs])`, executed by `Run`.
  - Reads see every earlier write, so the model is exact even when views overlap.
  - The imperative methods (`ElementWiseOpImpl`, `UnaryOpImpl`, `ReduceDim`, `Transform`) are proved to leave exactly `Run(old(mem[..]), f, steps)`.
  - Lemmas then state what those steps compute: `Dispatch.StepsAt`, `Walk.WalkResult`, `AxisFolds.ReduceDimResult`.
- **The all-reduce.** The all-reduce walk is a plan of actions: accumulate one element, or fold one contiguous block. `Reduction.Exec` runs the plan as the source does, where a block overwrites the accumulator.
- **The fast path.** The central lemma is `Dispatch.LinearIsRecursive`: on contiguous views of one shape, the row-major walk visits the offsets `0 .. n-1` from each base in order. `Dispatch.FastPathAgrees` builds on it: dispatching on any trivial dimension that agrees with the layout performs exactly the steps of the full recursion.
- **Module layout.** The newer generation is the modules `Views`, `Dims`, `Dispatch`, `Walk`, `Reduction`, `AxisReduction`, `AxisFolds`, `Operations` and `TensorViews`. The module `Legacy` holds what the older generation does differently.
  - The two generations share, unchanged: the offset recursion, `calculate_strides`, `check_shapes`, the shape and stride constructors, `at`, `is_contiguous`, `permute`, `make_view`, and `reshape` up to how it counts the original elements (the older one accumulates the extents inline, the newer one calls `num_elements`).
  - The older `TensorView.h` has no default constructor; `TensorViews.DefaultView` models only the newer one (`include/TensorView/TensorView.h`, line 28).
  - The older `apply` (`TensorView/Operations.h`, lines 95-101) computes no trivial dimension and always runs the full recursion. The newer one dispatches at the smaller of two trivial dimensions. They leave the same memory only by `Dispatch.FastPathAgrees`, which is why `Operations.Apply` is stated with the steps at trivial dimension 0.
  - The older `assign_` (through `ElementWiseInplaceOp`) and `operator+` (through `make_binary_op`) reach the older broadcast, which rebuilds canonical strides for `second` (`TensorView/Operations.h`, line 35). For a strided right-hand side they therefore read different elements (`Legacy.LegacyBroadcastPermuted`); the older `assign_` agrees with the newer one only for a contiguous one (`Legacy.LegacyInplaceAgrees`). The older headers have no `+=` or `*=`.
  - The older walk has no fast path. It is the newer walk at trivial dimension 0, which never takes the fast path.

## Model

| member | source | states |
|---|---|---|
| Dims.CalculateOffset | include/TensorView/Dims.h:9-25 | the offset reached from `offset` is `offset + Σ stride[k + j] * inds[j]`, summed left to right over the indices supplied; in `TensorView/Dims.h`, lines 8-24: the older offset recursion is the same linear form |
| Dims.CalculateStrides | include/TensorView/Dims.h:27-33 | the backward loop leaves exactly the canonical row-major strides of the shape; in `TensorView/Dims.h`, lines 26-32: the older `calculate_strides` is the same loop with the same result |
| Views.CanonicalRecurrence | include/TensorView/Dims.h:27-33 | the canonical strides end in 1, and `stride[i] == stride[i+1] * shape[i+1]` |
| Views.CanonicalAt | include/TensorView/Dims.h:27-33 | the `i`-th canonical stride is the product of the extents after axis `i` |
| Views.CanonicalSuffix | include/TensorView/Dims.h:27-33 | a suffix of the canonical strides is the canonical stride of the suffix shape |
| Dims.CanonicalExamples | tests/test_tensor_view.cpp:62-85 | the strides of [3, 4], [12] and [3, 2, 2] are [4, 1], [1] and [4, 2, 1] |
| Dims.ImplicitSymmetric | include/TensorView/Dims.h:38-49 | the implicit check gives the same answer with its arguments exchanged |
| Dims.ImplicitAligned | include/TensorView/Dims.h:38-49 | for `|lhs| >= |rhs|`, the check holds iff each `rhs[j]` is compatible with the `lhs` extent it aligns with once `rhs` is padded in front |
| Dims.PolicyStrength | include/TensorView/Dims.h:51-70 | `disable` holds iff the shapes are identical; `disable` ⇒ `explicit` ⇒ `implicit`; in `TensorView/Dims.h`, lines 50-69: the older explicit and disabled checks have the same strength ordering |
| Dims.CheckShapesExamples | include/TensorView/Dims.h:74-80 | the policy is taken from the second argument: a `[3,2,2]`/`[2,2]` pair passes in one order and fails in the other when `[2,2]` is tagged `disable`; in `TensorView/Dims.h`, lines 73-79: the older dispatch also takes the policy from the second argument |
| Dims.ShapesEqualIsEquality | include/TensorView/Dims.h:82-96 | at equal ranks, `shapes_equal` is exactly equality of the shapes |
| Dims.TrivialAtSub | include/TensorView/Dims.h:99-104 | at full rank the trailing-block test is `is_trivial_layout`, and moving to the `at(0)` sub-views keeps every shorter block's answer |
| Dims.FindFirstTrivialDim | include/TensorView/Dims.h:106-131 | the result `r` is at most the rank, the trailing `r` axes form a trivial layout, and no larger count does |
| Dims.FindFirstTrivialDimFull | include/TensorView/Dims.h:126-136 | contiguous views of one shape give the full rank; the one-argument form gives the full rank iff the view is contiguous; a non-contiguous partner gives less |
| Legacy.LegacyTrivialLayoutMeaning | TensorView/Dims.h:81-88 | by the evident meaning of the older test: it is the newer one plus equal ranks, and on a trivial layout both views hold coordinate `c` at their base plus its row-major position |
| TensorViews.DefaultView | include/TensorView/TensorView.h:28 | the default view has a null pointer and is `empty()` |
| TensorViews.FromShape | include/TensorView/TensorView.h:30-34 | the shape-only constructor keeps pointer, shape and policy, and the view is contiguous; in `TensorView/TensorView.h`, lines 27-31: the older shape-only constructor likewise gives canonical strides |
| TensorViews.MakeView | include/TensorView/TensorView.h:253-260 | `make_view` casts each extent, keeps the pointer, is contiguous and `implicit`, and is non-empty over a live pointer; in `TensorView/TensorView.h`, lines 181-188: the older `make_view` is the same |
| TensorViews.At | include/TensorView/TensorView.h:47-52 | a full-rank `at` designates the element at `Σ stride[j] * idx[j]` from the pointer; in `TensorView/TensorView.h`, lines 44-49: the older element access is the same |
| TensorViews.AtView | include/TensorView/TensorView.h:54-61 | a `k`-index `at` has rank `n - k`, the suffix shape and strides, and the advanced pointer; its element at `b` is the view's element at `idx + b`; in `TensorView/TensorView.h`, lines 51-58: the older sub-view `at` is the same |
| Views.SubViewCompose | include/TensorView/TensorView.h:54-61 | `view.at(a).at(b...)` is the view `view.at(a, b...)` |
| TensorViews.SubViewElements | include/TensorView/TensorView.h:54-61 | the elements of `view.at(a)` are the elements of `view` with `a` prepended to their coordinate |
| TensorViews.AccessExamples | tests/test_tensor_view.cpp:105-142 | in the tests' views over 0..11, `view(1,1,1)` is 7, `view(1,1)` with strides [4,2] is 6, and the sub-view chains read 7 with shapes [2,2] and [2] |
| TensorViews.IsContiguous | include/TensorView/TensorView.h:99-108 | the backward scan returns true iff the strides are the canonical strides of the shape; in `TensorView/TensorView.h`, lines 70-79: the older `is_contiguous` is the same scan |
| Walk.ContiguousInjective | include/TensorView/TensorView.h:99-108 | a contiguous view holds coordinate `c` at its base plus the row-major position of `c`, so distinct coordinates are distinct elements |
| TensorViews.NumElementsCounts | include/TensorView/TensorView.h:186-188 | the product of the extents counts the in-bounds coordinates: row-major positions below it and coordinates correspond one to one |
| TensorViews.Permute | include/TensorView/TensorView.h:117-131 | `permute(p)` returns the view whose axis `i` is axis `p[i]`, at the same pointer; in `TensorView/TensorView.h`, lines 88-102: the older `permute` is the same |
| TensorViews.PermuteCompose | include/TensorView/TensorView.h:117-131 | permuting by `p` then `q` is permuting by the composition |
| TensorViews.PermuteInverse | include/TensorView/TensorView.h:117-131 | permuting by a permutation and then its inverse gives the view back |
| TensorViews.PermutedElement | include/TensorView/TensorView.h:117-131 | the permuted view at `c` is the original at `c` scattered back through the inverse, in bounds when `c` is |
| TensorViews.PermutedInjective | include/TensorView/TensorView.h:117-131 | a permutation of an injective view is injective |
| TensorViews.PermutedCovers | include/TensorView/TensorView.h:117-131 | every element of the view is an element of the permuted view |
| TensorViews.PermuteExamples | tests/test_tensor_view.cpp:168-189 | `permute(1,2,0)` of [3,2,2] has shape [2,2,3] and strides [2,1,4], is not contiguous, and holds 7 at (1,1,1); `permute(2,0,1)` restores the contiguous view |
| TensorViews.Reshape | include/TensorView/TensorView.h:133-159 | the loop returns exactly `Reshaped`: errors for a non-contiguous view and a second `-1`, otherwise a contiguous view of the requested shape; in `TensorView/TensorView.h`, lines 104-130: the older `reshape` is the same loop |
| TensorViews.ReshapedShape | include/TensorView/TensorView.h:133-159 | success iff contiguous, at most one `-1` and (debug, no `-1`) a matching product; known extents are kept, the `-1` gets `num_elements / known product`, same pointer, contiguous |
| TensorViews.ReshapeKeepsSize | include/TensorView/TensorView.h:157 | without a placeholder, a successful debug reshape keeps the number of elements |
| TensorViews.ReshapeExample | tests/test_tensor_view.cpp:191-199 | `reshape(4, 3)` of the contiguous [3,2,2] view is the contiguous [4,3] view at the same pointer |
| TensorViews.ReshapeVacuousCheck | include/TensorView/TensorView.h:153-157 | with a `-1` the debug check compares the count with itself: 12 elements reshaped to (5, -1) succeed with shape [5, 2] and 10 elements |
| TensorViews.ReshapedChecked | include/TensorView/TensorView.h:153-157 | the intended check: a successful debug reshape keeps the element count, and it fails exactly when the as-written reshape fails or the count changes |
| TensorViews.ReshapeCheckedExample | include/TensorView/TensorView.h:153-157 | the intended check rejects (5, -1) of 12 elements and accepts (4, -1) as [4, 3] |
| Operations.BroadcastTensors | include/TensorView/Operations.h:12-37 | the result is `second` padded in front to the larger rank with extent-1, stride-0 axes, at the same pointer, tagged `explicit` |
| Operations.PaddedElement | include/TensorView/Operations.h:21-36 | the padded view reads at `c` the element the original reads at the trailing part of `c` |
| Operations.PaddedRead | include/TensorView/Operations.h:21-36 | a broadcast read through the padded view is the broadcast read of the original at the trailing part of `c` |
| Operations.PaddedCompatible | include/TensorView/Operations.h:21-36 | under the implicit check, the padded view passes the explicit check against the larger view |
| Operations.Transform | include/TensorView/Operations.h:43-47 | `std::transform` performs the steps over `n` consecutive elements |
| Operations.ElementWiseOpImpl | include/TensorView/Operations.h:39-74 | the walk, fast path or recursion, leaves memory as the steps of the walk with that trivial dimension; in `TensorView/Operations.h`, lines 39-66: the older walk is this walk at trivial dimension 0: always the full recursion |
| Dispatch.StepsAt | include/TensorView/Operations.h:39-74 | the walk visits the destination in row-major order; at `c` it writes `dst[c]` from the operands read at `c` with 0 on their extent-1 axes |
| Dispatch.LinearIsRecursive | include/TensorView/Operations.h:44-47 | on contiguous views of one shape, the recursive walk is the linear transform over offsets `0 .. n-1` from each base |
| Dispatch.FastPathAgrees | include/TensorView/Operations.h:39-74 | with a trivial dimension that agrees with the layouts, the dispatched walk performs exactly the full recursion's steps |
| Walk.WalkResult | include/TensorView/Operations.h:39-74 | without read-after-write hazards, `dst[c]` ends as `f` of the operands at the clamped `c` in the memory before the walk |
| Walk.WalkUntouched | include/TensorView/Operations.h:39-74 | the walk changes no address outside the destination |
| Operations.UnaryOpImpl | include/TensorView/Operations.h:76-109 | the unary walk leaves memory as the steps `dst[c] := g(src[c clamped])` |
| Operations.ElementWiseInplaceOp | include/TensorView/Operations.h:112-127 | fails with `ShapeMismatch` iff the shapes are incompatible, leaving memory unchanged; otherwise performs `first := f(first, second padded)` |
| Walk.InPlaceNoHazard | include/TensorView/Operations.h:112-127 | in place over an injective destination, with a second operand that reads none of its elements, the walk is hazard-free |
| Operations.InplaceResult | include/TensorView/Operations.h:112-127 | after the in-place walk, `first[c]` is `f(first[c], second[trailing part of c, clamped])` |
| Operations.UnaryInplaceOp | include/TensorView/Operations.h:129-137 | `first := g(first)` with the trivial dimension of `first` alone |
| Walk.UnaryInPlaceNoHazard | include/TensorView/Operations.h:129-137 | a unary walk in place over an injective view is hazard-free |
| Operations.UnaryInplaceResult | include/TensorView/Operations.h:129-137 | each element of an injective view becomes `g` of its old value, and other addresses keep theirs |
| Operations.Apply | include/TensorView/Operations.h:150-157 | fails iff `dst` is incompatible with either operand; otherwise `dst := func(lhs, rhs)`, with the min of the two trivial dimensions; in `TensorView/Operations.h`, lines 95-102: the older `apply` has the same checks and performs the full recursion |
| Operations.ApplyUnary | include/TensorView/Operations.h:188-194 | fails iff `dst` is incompatible with the source; otherwise `dst := func(src)` |
| Operations.MakeBinaryOp | include/TensorView/Operations.h:165-178 | as written: fails iff incompatible; otherwise the left operand is `second` padded and the right is `first` padded |
| Operations.MakeBinaryOpInOrder | include/TensorView/Operations.h:165-178 | the factory as intended: the left operand is `first` padded, the right `second` padded |
| Operations.PaddedWalkResult | include/TensorView/Operations.h:165-178 | an operation on `x` and `y` broadcast to the destination's rank writes `f(x[trailing c], y[trailing c])` at `c`, in that order |
| Operations.OperandOrderExample | include/TensorView/Operations.h:165-178 | with `first` = 5, `second` = 3 and subtraction, the factory's operation stores -2 where the in-order one stores 2 |
| Operations.CommutativeOrderIrrelevant | include/TensorView/Operations.h:165-178 | for a commutative function, exchanging the operands leaves the same memory |
| Legacy.LegacyMakeBinaryOp | TensorView/Operations.h:110-123 | the older factory fails iff incompatible; otherwise it swaps the operands as well, each broadcast by the older broadcast |
| Operations.AllReduceImpl | include/TensorView/Operations.h:239-269 | the accumulator ends as `Exec` of the walk's plan: every element accumulated, with a block assigning its fold from `initial_value` |
| Reduction.ExpandPlan | include/TensorView/Operations.h:239-269 | whatever the trivial dimension, the walk reads exactly the view's elements in row-major order |
| Reduction.ReduceExact | include/TensorView/Operations.h:243-247 | with trivial dimension 0 or the full rank, the walk folds every element in row-major order from the seed |
| Reduction.ReducePartialKeepsLastBlock | include/TensorView/Operations.h:243-247 | with a trivial dimension strictly between 0 and the rank, only the fold of the last block survives |
| Reduction.GappedLayout | include/TensorView/Dims.h:106-136 | a [2, 1] view with strides [2, 1] has trivial dimension 1, and its `at(i)` are contiguous blocks at 0 and 2 |
| Reduction.ReducePartialExample | include/TensorView/Operations.h:255-269 | on that view over [1, 0, 1], the sum walk returns 1 while the sum of the elements is 2 |
| Operations.AllReduceAccumulating | include/TensorView/Operations.h:239-269 | the intended walk, each block continuing from the accumulator, returns `ExecAccumulating` of the plan |
| Reduction.ReduceFoldsAll | include/TensorView/Operations.h:239-269 | the intended walk folds every element in row-major order, for any trivial dimension that agrees with the layout |
| Legacy.LegacyAllReduce | TensorView/Operations.h:126-148 | the older walk returns the left fold of every element in row-major order |
| TensorViews.Reduce | include/TensorView/TensorView.h:233-239 | `reduce(f, init)` returns `Exec` of the plan at the view's own trivial dimension, from `init` |
| TensorViews.ReduceOutcome | include/TensorView/TensorView.h:233-239 | the result is the full fold when the view is contiguous or has trivial dimension 0, and otherwise the fold of the last block only |
| TensorViews.ReduceAccumulating | include/TensorView/TensorView.h:233-239 | the intended `reduce` returns the left fold of all elements in row-major order |
| TensorViews.FoldMaxBounds | include/TensorView/TensorView.h:190-193 | a fold of `std::max` is at least the seed and every element, and is the seed or an element |
| TensorViews.MaxElement | include/TensorView/TensorView.h:190-193 | `max()` is `reduce(std::max)` seeded with 0 |
| TensorViews.MaxElementBounds | include/TensorView/TensorView.h:190-193 | for a contiguous view (or trivial dimension 0), `max()` is ≥ 0 and every element, and is 0 or an element |
| TensorViews.MaxIota | tests/test_tensor_view.cpp:201-211 | over 0, 1, ..., n-1, `max()` of a non-empty contiguous view is the offset of its last element |
| TensorViews.MaxExamples | tests/test_tensor_view.cpp:201-211 | the [3,2,2] view over 0..11 has `max()` 11 |
| TensorViews.MaxSubExample | tests/test_tensor_view.cpp:201-211 | the `view(0)` of that view has `max()` 3 |
| TensorViews.MaxPermutedExample | tests/test_tensor_view.cpp:213-217 | `permute(1,2,0).at(0)` (shape [2,3], strides [1,4]) has trivial dimension 0 and `max()` 9 |
| TensorViews.MaxNegativeExample | include/TensorView/TensorView.h:190-193 | on the elements -3 and -1, `max()` is 0, which is neither; seeded with the first element the fold gives -1 |
| TensorViews.MaxElementSeeded | include/TensorView/TensorView.h:190-193 | the intended `max()` is an element, and no element exceeds it; 0 for an empty view |
| Legacy.LegacyMax | TensorView/TensorView.h:150-156 | the older `max()` is the fold of `std::max` from 0: ≥ 0 and every element, and 0 or an element |
| Operations.ReduceDim | include/TensorView/Operations.h:271-317 | the axis walk leaves memory as its steps `dst[target] := f(dst[target], src[c])`, in row-major order |
| AxisReduction.TargetDropsAxis | include/TensorView/Operations.h:271-317 | with one axis fewer in `dst`, the target of `c` is `c` without the axis `reduce_dim` selects |
| AxisReduction.ReduceStepsLength | include/TensorView/Operations.h:271-317 | the walk has one step per source element |
| AxisReduction.ReduceDimAt | include/TensorView/Operations.h:271-317 | the step at the row-major position of `c` folds `src[c]` into `dst[c without the selected axis]` |
| AxisFolds.ReduceDimResult | include/TensorView/Operations.h:271-317 | for a separate destination of the reduced shape, `dst[e]` ends as the fold, from its old value, of the source elements along the axis through `e`, in index order |
| AxisFolds.ReduceDimUntouched | include/TensorView/Operations.h:271-317 | addresses outside the destination keep their values |
| TensorViews.AxisSelected | include/TensorView/TensorView.h:248 | `reduce_dim = ndim - axis` in `size_t` folds axis `axis` when it names one, and the last axis otherwise |
| TensorViews.ReduceAxis | include/TensorView/TensorView.h:241-249 | as written: the axis walk with `ndim - axis`; `initial_value` is not used |
| TensorViews.ReduceAxisResult | include/TensorView/TensorView.h:241-249 | as written: `dst[e]` ends as the fold from its previous value of the source fibre along `axis` |
| TensorViews.ReduceAxisSeeded | include/TensorView/TensorView.h:241-249 | as intended: `dst` is filled with `initial_value`, then the axis walk runs |
| TensorViews.ReduceAxisSeededResult | include/TensorView/TensorView.h:241-249 | as intended: `dst[e]` ends as the fold from `initial_value` of the source fibre along `axis`, whatever it held before |
| TensorViews.Assign | include/TensorView/TensorView.h:110-115 | fails iff incompatible; otherwise `this := rhs` element by element, `rhs` broadcast |
| Legacy.LegacyElementWiseInplaceOp | TensorView/Operations.h:69-83 | fails iff incompatible; otherwise the full recursion against the older broadcast of `second`; the older `assign_` (`TensorView/TensorView.h` lines 81-86) is this operation with the function that keeps the right-hand element |
| TensorViews.AssignPermuted | include/TensorView/TensorView.h:110-115 | assigning a permuted view into a separate injective view of its shape puts at `c` the source element at `c` scattered back through the inverse |
| TensorViews.AssignPermutedExample | tests/test_tensor_view.cpp:168-181 | assigning `permute(1,2,0)` of the [3,2,2] view over 0..11 writes `4*c[2] + 2*c[0] + c[1]` at `c`, i.e. 0,4,8,1,5,9,2,6,10,3,7,11 |
| TensorViews.AddAssign | include/TensorView/TensorView.h:200-204 | fails iff incompatible; otherwise `this := this + rhs` element by element |
| TensorViews.AddAssignResult | include/TensorView/TensorView.h:200-204 | each element of an injective `this` becomes its old value plus the broadcast element of `rhs`; other addresses are unchanged |
| TensorViews.MulAssign | include/TensorView/TensorView.h:206-211 | every element is multiplied by `c` in place |
| TensorViews.MulAssignPermuted | include/TensorView/TensorView.h:206-211 | through any permutation of an injective view, each element becomes `c` times its old value exactly once, and other addresses are unchanged |
| TensorViews.Add | include/TensorView/TensorView.h:195-198 | fails iff incompatible; otherwise the lazy sum with operands swapped as the factory swaps them |
| TensorViews.AddOrderIrrelevant | include/TensorView/TensorView.h:195-198 | addition commutes, so the swapped sum leaves the same memory as the operands in order |
| TensorViews.Scaled | include/TensorView/TensorView.h:213-217 | `operator*(c)` is a unary operation on the view whose function multiplies by `c` |
| TensorViews.ScaledResult | include/TensorView/TensorView.h:213-217 | applying `v * c` to an injective `dst` that the walk does not read writes `c` times the element of `v` (broadcast) at every coordinate of `dst`, and leaves every other address unchanged |
| TensorViews.ScaledPermutedExample | tests/test_tensor_view.cpp:314-318 | `permute(2,1,0) * 2` of the [3,2,2] view over 0..11, applied to a separate [2,2,3] view, writes `2 * (4*e[2] + 2*e[1] + e[0])` at `e` |
| TensorViews.AssignReversedExample | tests/test_tensor_view.cpp:319 | assigning `permute(2,1,0)` of a contiguous [2,2,3] view to a separate contiguous [3,2,2] view copies to `x` the element at `x` reversed |
| TensorViews.MulByConstPermutedExample | tests/test_tensor_view.cpp:314-323 | the whole test: the target holds `2 * (4*x[0] + 2*x[1] + x[2])` at `x`, i.e. 0, 2, ..., 22 in row-major order |
| Legacy.LegacyBroadcastTensors | TensorView/Operations.h:12-37 | the older broadcast has the padded shape of `second` and its pointer, but canonical strides |
| Legacy.LegacyBroadcastContiguous | TensorView/Operations.h:21-36 | for a contiguous `second` the older broadcast reads the intended element at every coordinate |
| Legacy.LegacyBroadcastPermuted | TensorView/Operations.h:35 | for the [2,2,3] view with strides [2,1,4], compatible with a [2,2,3] `first`, the older broadcast reads (0,0,1) at 1 where the element is at 4 |
| Legacy.LegacyInplaceAgrees | TensorView/Operations.h:39-83 | with a contiguous `second`, the older in-place operation performs exactly the newer one's steps |

## Left out

- Printing is not part of this model: `TensorIO.h`, `operator<<` and `deduce_maxw`. They are stream formatting.
- `include/TensorView/Tensor.h` (owning buffers), `include/TensorView/Functions.h` (softmax over floating point) and `main.cpp` (a console demo) are not part of this model.
- The traits headers are not modelled. The policy tag is the datatype `Policy`, and the compile-time rank is `|shape|`. Compile-time `static_assert`s become preconditions on ranks.
- Element types are generic or `int`. Floating point, and the `static_cast` in `operator*`, are not modelled.
- `size_t` and `int` overflow is not modelled; extents, strides and offsets are unbounded naturals. In particular `make_view` requires non-negative extents (`TensorViews.MakeView`), where the source's `static_cast<size_t>` would wrap a negative one. The one exception is `ndim - axis` in the axis `reduce`, whose wrap-around below zero is written out modulo 2^64. The `int` seed of `num_elements` is not modelled.
- `reshape` extents are modelled only as natural numbers or `-1`; other negative extents are excluded by a precondition. With a `-1`, a zero product of the known extents (a division by zero in the source) is excluded by a precondition too.
- `operator=` from an operation is `Operations.Apply` / `Operations.ApplyUnary`. Its missing `return *this` is not modelled.
- The default view's shape and strides are indeterminate in the source; `DefaultView` fixes only its rank and null pointer.
- The three-argument constructor is the `View` datatype constructor itself. `num_elements` is `Views.NumElements` and `empty()` is `View.Empty`.
- The newer `operator+` calls `make_binary_op`, which the newer `Operations.h` defines only as `make_reduce_operation` (lines 165-178). The model takes that factory as the one called.
- Legacy.LegacyTrivialLayout: the older `is_trivial_layout` (`TensorView/Dims.h`, lines 81-88) is ill-formed as written. It calls the non-const `is_contiguous` (`TensorView/TensorView.h`, line 70) through a `const&`, and it builds a `std::array` from the `const size_t*` that `shape()` returns. Nothing instantiates it, because the older walks have no fast path. The model gives its evident meaning: equal ranks, both views contiguous, equal shapes.
- TensorViews.ReduceAxis: the source calls `ReduceDim<ndim>::impl` with one template argument (`include/TensorView/TensorView.h`, line 248), but `ReduceDim` takes two, `N` and `M`, with no default (`include/TensorView/Operations.h`, line 271). As written the axis `reduce` does not compile. The model supplies `M = ndim - 1`, the destination rank that the `static_assert` at line 246 already forces; "as written" in its rows refers to everything else.
- The axis factory `make_reduce_operation(f, src, axis, initial)` and `ReduceOperation::apply` are not modelled separately: they only forward to the axis `reduce` (`TensorViews.ReduceAxis`).
- Dims.ShapesEqual: stated only for equal ranks. For unequal ranks its second loop indexes both shapes from the front, past the end of the shorter one, and its only caller requires equal ranks.
- Aliasing between overlapping views is modelled exactly by `Run`. The element-level results (`Walk.WalkResult`, `Operations.InplaceResult`, `TensorViews.AssignPermuted`, `AxisFolds.ReduceDimResult`) are stated only where the destination is injective and the operands read none of its elements.
- Not every test vector is instantiated. `add`, `add_inplace`, `add_subview`, `add_broadcasted`, `add_permuted` and the `*=` tests are covered by the general element lemmas (`Operations.PaddedWalkResult`, `TensorViews.AddAssignResult`, `TensorViews.MulAssignPermuted`), not as concrete vectors. `mul_by_const_permuted` is instantiated (`TensorViews.MulByConstPermutedExample`), with the three buffers laid out one after another in one memory.
- The older `assign_` has no member of its own. It is `Legacy.LegacyElementWiseInplaceOp` with the function `TensorViews.Second`.

## Findings

| source | as written | input that shows it | evidently intended | confidence | as-written member | corrected member |
|---|---|---|---|---|---|---|
| include/TensorView/Operations.h:165-178 | the binary factory builds the operation from `second` broadcast against `first` as left operand and `first` as right | `first` = [5], `second` = [3], `f` = subtraction: the destination receives -2 | `f(first, second)`, i.e. 2 | not executed | Operations.OperandOrderExample | Operations.MakeBinaryOpInOrder |
| include/TensorView/Operations.h:243-247 | a contiguous block met below the top level assigns its fold from `initial_value` to the accumulator | a [2, 1] view with strides [2, 1] over [1, 0, 1], summed: 1 | the fold of all elements, 2 | not executed | Reduction.ReducePartialExample | Operations.AllReduceAccumulating |
| include/TensorView/TensorView.h:241-249 | the axis `reduce` never uses `initial_value`; each destination element is folded on from its old contents | any destination not already holding the initial value | each element is the fold from `initial_value` of its fibre | not executed | TensorViews.ReduceAxisResult | TensorViews.ReduceAxisSeededResult |
| include/TensorView/TensorView.h:153-157 | with a `-1` placeholder the debug size check compares the element count with itself | 12 elements reshaped to (5, -1): accepted as [5, 2], 10 elements | a reshape whose result has a different count is rejected | not executed | TensorViews.ReshapeVacuousCheck | TensorViews.ReshapedChecked |
| include/TensorView/TensorView.h:190-193 | `max()` seeds the fold with `ValueType{}`, 0 | the elements -3 and -1: `max()` is 0 | the largest element, -1 | not executed | TensorViews.MaxNegativeExample | TensorViews.MaxElementSeeded |
| TensorView/Operations.h:35 | the older broadcast constructs its result from the shape alone, discarding the strides of `second` | the [2, 2, 3] view with strides [2, 1, 4]: coordinate (0, 0, 1) is read at offset 1, the element is at 4 | the strides of `second` are kept, as the newer broadcast keeps them | not executed | Legacy.LegacyBroadcastPermuted | Operations.BroadcastTensors |
