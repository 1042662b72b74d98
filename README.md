# Sparse reshape kernel, modelled and verified in Dafny

This project models TVM's `sparse_reshape` operator, specifically the buffer program that `gen_ir` builds in `python/tvm/topi/sparse_reshape.py`. The operator takes three inputs:

- the N × n_dim coordinate (COO) matrix of a sparse tensor's non-zero entries under `prev_shape`;
- `prev_shape` itself;
- a target `new_shape` whose `-1` entry means "infer this dimension".

It writes two outputs:

- the resolved target shape;
- the coordinates of the same entries under that shape, in row-major order.

The model has three modules:

- `RowMajor` (`row_major.dfy`) holds the layout arithmetic the kernel is specified by:
  - `Product` is the element count.
  - `Strides` is the row-major stride table, i.e. the suffix products.
  - `Offset` is the dot product of a row with a stride table.
  - `Unflatten` is the chain of floor divisions and floor moduli.
  - The lemmas relate these functions to each other.
- `SparseReshape` (`sparse_reshape.dfy`) is the operator as pure functions on sequences, with its properties:
  - `ResolveShape` does the `-1` resolution.
  - `ReshapeRow` and `Reshape` give the per-row result, including the equal-shape shortcut.
  - Lemmas state that element counts agree, row-major offsets are preserved, in-bounds rows stay in bounds, the shortcut agrees with the general path exactly on rows whose coordinates after the first are in bounds, and reshaping there and back is the identity.
  - The documented worked example is proved here too.
- `ReshapeKernel` (`reshape_kernel.dfy`) is the imperative kernel. It has one method per stage of `gen_ir`, with loops over `array`/`array2` buffers and their invariants:
  - the multiplier table together with the element count;
  - the product of the known entries;
  - writing the resolved shape into the output buffer;
  - the equal-shape flag;
  - the row copy;
  - the divider table;
  - flattening and unflattening each row.

  `SparseReshapeKernel` runs them in the source's order and is proved equal to `SparseReshape.Reshape`.

Integers are unbounded. Dafny's `/` and `%` are Euclidean; for the positive divisors the kernel uses, they coincide with TVM's `floordiv`/`floormod`. The inferred entry uses `div` (truncating division), whose operands are both positive under the operator's preconditions, so it is written as `/` too.

The code checks none of the following and raises no error for any of them, so the model states them as preconditions (`SparseReshape.ValidShapes`) and not as error results:

- at least one dimension on each side;
- positive `prev_shape` entries;
- `new_shape` entries that are positive or `-1`;
- at most one `-1`;
- when a `-1` is present, an element count divisible by the product of the known entries.

The equal-shape shortcut and the general path give the same row exactly when every coordinate after the first is inside `prev_shape`'s bounds (`SparseReshape.ShortcutAgreesExactly`; for fully in-bounds rows, `SparseReshape.ShortcutAgrees`). The general path re-normalises only the minor coordinates: the first one comes back from the leading floor division whatever its value, so under [2, 3] the rows [5, 0] and [-1, 2] survive it unchanged. Row [0, 5] under [2, 3] stays [0, 5] on the shortcut but becomes [1, 2] on the general path (`SparseReshape.ShortcutDiffersOutOfBounds`).

## Model

The table lists the members whose contracts state properties. The specification functions `RowMajor.Product`, `RowMajor.Strides`, `RowMajor.Offset`, `RowMajor.Unflatten`, `SparseReshape.KnownProduct`, `SparseReshape.ResolveShape`, `SparseReshape.ReshapeRow` and `SparseReshape.Reshape` are the reference definitions those contracts are stated in. `ResolveShape` and `KnownProduct` model lines 119-131, `Offset` lines 159-162, `Unflatten` lines 164-174, `ReshapeRow` lines 144-174 (the copy when the shapes are equal, otherwise the unflattened row-major offset) and `Reshape` the whole operator (lines 71-176).

| member | source | states |
|---|---|---|
| `RowMajor.Strides` | python/tvm/topi/sparse_reshape.py:107-113 | the stride table has one entry per dimension; the last entry is 1 and each other entry is the next dimension's size times the next stride |
| `RowMajor.StridesTail` | python/tvm/topi/sparse_reshape.py:104-114 | the first stride is the product of all minor sizes, and the element count is the major size times the first stride; dropping the major dimension drops the first stride |
| `RowMajor.OffsetSnoc` | python/tvm/topi/sparse_reshape.py:160-162 | adding one column to a row adds that coordinate times its multiplier to the offset, which is what each step of the flatten loop accumulates |
| `RowMajor.OffsetInRange` | python/tvm/topi/sparse_reshape.py:159-162 | a row inside the shape's bounds has a flattened offset in [0, element count) |
| `RowMajor.OffsetOfUnflatten` | python/tvm/topi/sparse_reshape.py:164-174 | when the last divider is 1, the floordiv/floormod chain preserves the offset: the dot product of the result with the dividers gives the flattened offset back |
| `RowMajor.UnflattenInBounds` | python/tvm/topi/sparse_reshape.py:164-174 | every offset in [0, element count) unflattens to coordinates with 0 <= c[j] < shape[j] |
| `RowMajor.UnflattenOfOffsetMajor` | python/tvm/topi/sparse_reshape.py:159-174 | flatten followed by unflatten restores every row whose coordinates after the first are in bounds, whatever its first coordinate |
| `RowMajor.UnflattenMinorInBounds` | python/tvm/topi/sparse_reshape.py:164-174 | for every integer offset, negative or too large included, the coordinates after the first that the floordiv/floormod chain produces are in bounds |
| `RowMajor.UnflattenOfOffset` | python/tvm/topi/sparse_reshape.py:159-174 | flatten followed by unflatten with the same shape's strides is the identity on in-bounds rows, i.e. row-major coordinates are unique |
| `SparseReshape.KnownProductSnoc` | python/tvm/topi/sparse_reshape.py:119-122 | one more target entry multiplies the known product by that entry unless the entry is -1 |
| `SparseReshape.KnownProductPositive` | python/tvm/topi/sparse_reshape.py:119-122 | when the entries are positive or -1, the divisor used for the inferred dimension is positive |
| `SparseReshape.ProductOfSubstituteNone` | python/tvm/topi/sparse_reshape.py:124-131 | with no -1, the resolved shape's product is the product of the known entries |
| `SparseReshape.ProductOfSubstituteOne` | python/tvm/topi/sparse_reshape.py:124-131 | with exactly one -1 resolved to v, the resolved shape's product is the known product times v |
| `SparseReshape.ResolveWithoutSentinel` | python/tvm/topi/sparse_reshape.py:124-131 | with no -1, every entry is copied unchanged, so the resolved shape is new_shape itself |
| `SparseReshape.ResolvedProduct` | python/tvm/topi/sparse_reshape.py:116-131 | with one -1 and a divisible element count, the resolved shape has exactly the element count of prev_shape |
| `SparseReshape.ResolvedPositive` | python/tvm/topi/sparse_reshape.py:116-131 | under the operator's preconditions every resolved size is positive, so every divider is non-zero |
| `SparseReshape.ReshapeRowCorrect` | python/tvm/topi/sparse_reshape.py:133-174 | on both the shortcut and the general path, an output row has the target rank and the same row-major offset as its input row; when the element counts agree, an in-bounds input row gives an in-bounds output row |
| `SparseReshape.ShortcutAgrees` | python/tvm/topi/sparse_reshape.py:133-174 | for in-bounds rows, the equal-shape copy gives the same row as the flatten/unflatten path |
| `SparseReshape.ShortcutAgreesExactly` | python/tvm/topi/sparse_reshape.py:133-174 | for any row of the shape's rank, the copy branch and the flatten/unflatten path give the same row if and only if every coordinate after the first is in bounds |
| `SparseReshape.ShortcutDiffersOutOfBounds` | python/tvm/topi/sparse_reshape.py:133-174 | for the row [0, 5] under [2, 3], whose minor coordinate is out of bounds, the copy branch keeps [0, 5] while flatten/unflatten gives [1, 2] |
| `SparseReshape.RoundTrip` | python/tvm/topi/sparse_reshape.py:133-174 | reshaping an in-bounds row to a shape with the same element count and back restores the row |
| `SparseReshape.ReshapeCorrect` | python/tvm/topi/sparse_reshape.py:71-176 | the whole operator: resolved shape of rank m_dim with positive sizes; element counts agree when a dimension is inferred; one output row per input row, in order, each with the input row's offset, and in bounds when the input row is and the counts agree |
| `SparseReshape.WorkedExample` | python/tvm/topi/sparse_reshape.py:54-68 | the documented indices with prev_shape [2, 3, 6] and new_shape [9, -1] give the resolved shape [9, 4] and the documented rows [[0,0],[0,1],[1,2],[4,2],[8,1]] |
| `SparseReshape.DocstringExampleAsWritten` | python/tvm/topi/sparse_reshape.py:54-68 | with the printed prev_shape [2, 3, 4], the inputs break the divisibility precondition, the kernel resolves [9, 2] and row [1, 2, 3] maps to [11, 1] |
| `ReshapeKernel.MultipliersAndTotal` | python/tvm/topi/sparse_reshape.py:104-114 | the loop leaves the multiplier buffer equal to the strides of prev_shape and the accumulator equal to the product of all prev_shape entries |
| `ReshapeKernel.KnownProductOf` | python/tvm/topi/sparse_reshape.py:116-122 | the accumulator ends as the product of the new_shape entries other than -1 |
| `ReshapeKernel.ResolveInto` | python/tvm/topi/sparse_reshape.py:124-131 | for a non-negative element count and a positive known product (where `div` and Euclidean division agree), the output shape buffer holds new_shape with each -1 replaced by total / known |
| `ReshapeKernel.ShapesEqual` | python/tvm/topi/sparse_reshape.py:133-142 | the flag is true exactly when the ranks match and every entry matches |
| `ReshapeKernel.CopyRows` | python/tvm/topi/sparse_reshape.py:144-148 | every output row is an exact copy of its input row |
| `ReshapeKernel.Dividers` | python/tvm/topi/sparse_reshape.py:150-157 | the divider buffer equals the strides of the resolved shape |
| `ReshapeKernel.FlattenRows` | python/tvm/topi/sparse_reshape.py:159-162 | flattened[i] is the dot product of input row i, and only row i, with the multipliers |
| `ReshapeKernel.UnflattenRows` | python/tvm/topi/sparse_reshape.py:164-174 | output row i is the floordiv/floormod decomposition of flattened[i] by the dividers |
| `ReshapeKernel.SparseReshapeKernel` | python/tvm/topi/sparse_reshape.py:71-176 | the output buffers equal the operator `Reshape` on the input rows; each output row keeps its input row's offset; the element counts agree when a dimension is inferred; in-bounds rows stay in bounds |

## Left out

- Fixed-width integers and the `Cast` narrowing (lines 91-104, 127, 171-173). All arithmetic is unbounded. Overflow of the stride tables or offsets in `new_shape`'s dtype is not modelled.
- Run-time validation. The code performs none. Several `-1` entries, non-divisibility, and zero or negative sizes are excluded by `ValidShapes` and not modelled as errors. This also excludes zero-sized dimensions. A zero in `new_shape` makes the known product 0, so the `div` at line 128 is undefined when a `-1` is present. A zero in `prev_shape` with a `-1` gives a positive known product and infers a size of 0, which can make a divider 0 for the floordiv/floormod at lines 172-174 (when the inferred dimension is not the first).
- Parallel execution. The `kind="parallel"` loops (lines 146, 159, 164) are modelled as sequential loops. Rows share only the read-only stride tables and write disjoint output rows.
- The TE/TIR plumbing. This covers the buffer declarations, `ib.buffer_ptr` and `ir_builder` calls (lines 78-86), and the `decl_buffer`/`extern` wiring (lines 178-190). Buffers are Dafny arrays passed in by the caller.
- The other repository files. These are python/tvm/driver/tvmc/runner.py (CLI, sessions, RPC, file I/O, benchmarking), src/runtime/memory/memory_manager.cc (allocator registry under a mutex, device queries) and include/tvm/runtime/cuda/utils.h (a declaration only). They are orchestration and foreign calls, not part of this model.

## Findings

| source | as written | input that shows it | evidently intended | confidence | as-written member | corrected member |
|---|---|---|---|---|---|---|
| python/tvm/topi/sparse_reshape.py:54-68 | the docstring example gives prev_shape = [2, 3, 4] with new_shape = [9, -1] and claims new_shape [9, 4] and rows [[0,0],[0,1],[1,2],[4,2],[8,1]] | prev_shape [2, 3, 4] has 24 elements, not divisible by 9; the kernel infers 24 / 9 = 2 and maps row [1, 2, 3] (offset 23) to [11, 1] | prev_shape = [2, 3, 6] (36 elements), which yields exactly the documented output | high; not executed | `SparseReshape.DocstringExampleAsWritten` | `SparseReshape.WorkedExample` |
