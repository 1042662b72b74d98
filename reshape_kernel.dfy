/**
 * The sparse reshape kernel as the buffer program it builds: local stride
 * buffers and accumulators are filled loop by loop, and the two output
 * buffers (the resolved shape and the remapped coordinate matrix) are
 * written in place. Every stage is proved against the specification
 * functions of RowMajor and SparseReshape.
 */
module ReshapeKernel {
  import opened RowMajor
  import opened SparseReshape

  /** Row i of a coordinate matrix. */
  ghost function Row(m: array2<int>, i: nat): seq<int>
    reads m
    requires i < m.Length0
  {
    seq(m.Length1, j requires 0 <= j < m.Length1 reads m => m[i, j])
  }

  /** All rows of a coordinate matrix. */
  ghost function Rows(m: array2<int>): seq<seq<int>>
    reads m
  {
    seq(m.Length0, i requires 0 <= i < m.Length0 reads m => Row(m, i))
  }

  /**
   * The multiplier table of the source shape and its element count, filled
   * from the last dimension backwards in one loop.
   */
  method MultipliersAndTotal(prevShape: array<int>) returns (multipliers: array<int>, total: int)
    requires prevShape.Length >= 1
    ensures fresh(multipliers)
    ensures multipliers[..] == Strides(prevShape[..])
    ensures total == Product(prevShape[..])
  {
    var n := prevShape.Length;
    multipliers := new int[n];
    total := prevShape[0];
    multipliers[n - 1] := 1;
    for t := 0 to n - 1
      invariant forall k :: n - 1 - t <= k < n ==> multipliers[k] == Product(prevShape[k + 1..])
      invariant total == prevShape[0] * Product(prevShape[n - t..])
    {
      var i := t + 1;
      assert prevShape[n - i..][1..] == prevShape[n - i + 1..];
      multipliers[n - 1 - i] := prevShape[n - i] * multipliers[n - i];
      total := total * prevShape[n - i];
    }
    assert prevShape[..][1..] == prevShape[1..];
  }

  /** The product of the entries of the target shape that are not inferred. */
  method KnownProductOf(newShape: array<int>) returns (known: int)
    ensures known == KnownProduct(newShape[..])
  {
    known := 1;
    for i := 0 to newShape.Length
      invariant known == KnownProduct(newShape[..i])
    {
      assert newShape[..i + 1] == newShape[..i] + [newShape[i]];
      KnownProductSnoc(newShape[..i], newShape[i]);
      if newShape[i] != Inferred {
        known := known * newShape[i];
      }
    }
    assert newShape[..newShape.Length] == newShape[..];
  }

  /**
   * Writes the resolved target shape: each inferred entry becomes total / known.
   * Both operands are non-negative, where truncating and Euclidean division agree.
   */
  method ResolveInto(newShape: array<int>, total: int, known: int, outNewShape: array<int>)
    requires known == KnownProduct(newShape[..]) && known > 0 && total >= 0
    requires outNewShape.Length == newShape.Length && outNewShape != newShape
    modifies outNewShape
    ensures outNewShape[..] == ResolveShape(newShape[..], total)
  {
    for i := 0 to newShape.Length
      invariant forall k :: 0 <= k < i ==> outNewShape[k] == ResolveShape(newShape[..], total)[k]
    {
      if newShape[i] == Inferred {
        outNewShape[i] := total / known;
      } else {
        outNewShape[i] := newShape[i];
      }
    }
  }

  /**
   * Whether the resolved shape equals the source shape: false at once when
   * the ranks differ, otherwise cleared by any differing entry.
   */
  method ShapesEqual(prevShape: array<int>, outNewShape: array<int>) returns (equal: bool)
    ensures equal <==> prevShape[..] == outNewShape[..]
  {
    equal := true;
    if prevShape.Length == outNewShape.Length {
      for i := 0 to prevShape.Length
        invariant equal <==> prevShape[..i] == outNewShape[..i]
      {
        assert prevShape[..i + 1] == prevShape[..i] + [prevShape[i]];
        assert outNewShape[..i + 1] == outNewShape[..i] + [outNewShape[i]];
        if prevShape[i] != outNewShape[i] {
          equal := false;
        }
      }
      assert prevShape[..prevShape.Length] == prevShape[..];
      assert outNewShape[..outNewShape.Length] == outNewShape[..];
    } else {
      equal := false;
    }
  }

  /** The equal-shape shortcut: every output row is a copy of its input row. */
  method CopyRows(sparseIndices: array2<int>, newSparseIndices: array2<int>)
    requires newSparseIndices.Length0 == sparseIndices.Length0
    requires newSparseIndices.Length1 == sparseIndices.Length1
    requires newSparseIndices != sparseIndices
    modifies newSparseIndices
    ensures forall i :: 0 <= i < sparseIndices.Length0 ==> Row(newSparseIndices, i) == Row(sparseIndices, i)
  {
    for i := 0 to sparseIndices.Length0
      invariant forall r :: 0 <= r < i ==> Row(newSparseIndices, r) == Row(sparseIndices, r)
    {
      for j := 0 to sparseIndices.Length1
        invariant forall r :: 0 <= r < i ==> Row(newSparseIndices, r) == Row(sparseIndices, r)
        invariant forall c :: 0 <= c < j ==> newSparseIndices[i, c] == sparseIndices[i, c]
      {
        newSparseIndices[i, j] := sparseIndices[i, j];
      }
      assert Row(newSparseIndices, i) == Row(sparseIndices, i);
    }
  }

  /** The divider table: the row-major strides of the resolved shape, filled backwards. */
  method Dividers(outNewShape: array<int>) returns (dividers: array<int>)
    requires outNewShape.Length >= 1
    ensures fresh(dividers)
    ensures dividers[..] == Strides(outNewShape[..])
  {
    var m := outNewShape.Length;
    dividers := new int[m];
    dividers[m - 1] := 1;
    for t := 0 to m - 1
      invariant forall k :: m - 1 - t <= k < m ==> dividers[k] == Product(outNewShape[k + 1..])
    {
      var i := t + 1;
      assert outNewShape[m - i..][1..] == outNewShape[m - i + 1..];
      dividers[m - 1 - i] := dividers[m - i] * outNewShape[m - i];
    }
  }

  /** The linear offset of every row: its dot product with the multiplier table. */
  method FlattenRows(sparseIndices: array2<int>, multipliers: array<int>) returns (flattened: array<int>)
    requires multipliers.Length == sparseIndices.Length1
    ensures fresh(flattened)
    ensures flattened.Length == sparseIndices.Length0
    ensures forall i :: 0 <= i < sparseIndices.Length0 ==> flattened[i] == Offset(Row(sparseIndices, i), multipliers[..])
  {
    flattened := new int[sparseIndices.Length0];
    for i := 0 to sparseIndices.Length0
      invariant forall r :: 0 <= r < i ==> flattened[r] == Offset(Row(sparseIndices, r), multipliers[..])
    {
      ghost var row := Row(sparseIndices, i);
      flattened[i] := 0;
      for j := 0 to sparseIndices.Length1
        invariant forall r :: 0 <= r < i ==> flattened[r] == Offset(Row(sparseIndices, r), multipliers[..])
        invariant flattened[i] == Offset(row[..j], multipliers[..j])
      {
        assert row[..j + 1] == row[..j] + [row[j]];
        assert multipliers[..j + 1] == multipliers[..j] + [multipliers[j]];
        OffsetSnoc(row[..j], multipliers[..j], row[j], multipliers[j]);
        flattened[i] := flattened[i] + sparseIndices[i, j] * multipliers[j];
      }
      assert row[..sparseIndices.Length1] == row;
      assert multipliers[..sparseIndices.Length1] == multipliers[..];
    }
  }

  /**
   * Unflattens every row's offset by the divider table: floor division gives
   * each coordinate, floor modulus the carry into the next dimension.
   */
  method UnflattenRows(flattened: array<int>, dividers: array<int>, newSparseIndices: array2<int>)
    requires AllPositive(dividers[..])
    requires newSparseIndices.Length0 == flattened.Length
    requires newSparseIndices.Length1 == dividers.Length
    modifies newSparseIndices
    ensures forall i :: 0 <= i < flattened.Length ==> Row(newSparseIndices, i) == Unflatten(flattened[i], dividers[..])
  {
    for i := 0 to newSparseIndices.Length0
      invariant forall r :: 0 <= r < i ==> Row(newSparseIndices, r) == Unflatten(flattened[r], dividers[..])
    {
      ghost var target := Unflatten(flattened[i], dividers[..]);
      var current := flattened[i];
      for j := 0 to newSparseIndices.Length1
        invariant forall r :: 0 <= r < i ==> Row(newSparseIndices, r) == Unflatten(flattened[r], dividers[..])
        invariant forall c :: 0 <= c < j ==> newSparseIndices[i, c] == target[c]
        invariant target[j..] == Unflatten(current, dividers[j..])
      {
        assert dividers[j..][1..] == dividers[j + 1..];
        newSparseIndices[i, j] := current / dividers[j];
        current := current % dividers[j];
      }
      assert Row(newSparseIndices, i) == target;
    }
  }

  /**
   * The whole kernel. Resolves the target shape into outNewShape, then either
   * copies the rows (equal shapes) or remaps each row through its row-major
   * offset, writing newSparseIndices. The result is the operator Reshape;
   * every output row keeps the offset of its input row.
   */
  method SparseReshapeKernel(sparseIndices: array2<int>, prevShape: array<int>, newShape: array<int>,
                             newSparseIndices: array2<int>, outNewShape: array<int>)
    requires ValidShapes(prevShape[..], newShape[..])
    requires sparseIndices.Length1 == prevShape.Length
    requires newSparseIndices.Length0 == sparseIndices.Length0
    requires newSparseIndices.Length1 == newShape.Length
    requires outNewShape.Length == newShape.Length
    requires outNewShape != prevShape && outNewShape != newShape
    requires newSparseIndices != sparseIndices
    modifies newSparseIndices, outNewShape
    ensures outNewShape[..] == Reshape(Rows(sparseIndices), prevShape[..], newShape[..]).1
    ensures Rows(newSparseIndices) == Reshape(Rows(sparseIndices), prevShape[..], newShape[..]).0
    ensures forall i :: 0 <= i < sparseIndices.Length0 ==>
      Offset(Row(newSparseIndices, i), Strides(outNewShape[..])) == Offset(Row(sparseIndices, i), Strides(prevShape[..]))
    ensures SentinelCount(newShape[..]) == 1 ==> Product(outNewShape[..]) == Product(prevShape[..])
    ensures forall i :: 0 <= i < sparseIndices.Length0 ==>
      (InBounds(Row(sparseIndices, i), prevShape[..]) && Product(outNewShape[..]) == Product(prevShape[..])
       ==> InBounds(Row(newSparseIndices, i), outNewShape[..]))
  {
    var multipliers, total := MultipliersAndTotal(prevShape);
    var known := KnownProductOf(newShape);
    ResolvedPositive(prevShape[..], newShape[..]);
    ProductPositive(prevShape[..]);
    ResolveInto(newShape, total, known, outNewShape);
    ghost var resolved := outNewShape[..];
    var equal := ShapesEqual(prevShape, outNewShape);
    if equal {
      CopyRows(sparseIndices, newSparseIndices);
    } else {
      var dividers := Dividers(outNewShape);
      StridesPositive(resolved);
      var flattened := FlattenRows(sparseIndices, multipliers);
      UnflattenRows(flattened, dividers, newSparseIndices);
    }
    if SentinelCount(newShape[..]) == 1 {
      ResolvedProduct(prevShape[..], newShape[..]);
    }
    forall i | 0 <= i < sparseIndices.Length0
      ensures Row(newSparseIndices, i) == ReshapeRow(Row(sparseIndices, i), prevShape[..], resolved)
      ensures Offset(Row(newSparseIndices, i), Strides(resolved)) == Offset(Row(sparseIndices, i), Strides(prevShape[..]))
      ensures InBounds(Row(sparseIndices, i), prevShape[..]) && Product(resolved) == Product(prevShape[..])
        ==> InBounds(Row(newSparseIndices, i), resolved)
    {
      ReshapeRowCorrect(Row(sparseIndices, i), prevShape[..], resolved);
    }
    ghost var spec := Reshape(Rows(sparseIndices), prevShape[..], newShape[..]);
    assert spec.1 == resolved;
    assert Rows(newSparseIndices) == spec.0;
  }
}
