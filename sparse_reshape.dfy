/**
 * The sparse reshape operator as pure functions on sequences: resolution of
 * the target shape (a -1 entry is inferred from the element count), the
 * per-row coordinate remapping with its equal-shape shortcut, and the
 * properties the operator promises: element counts agree, row-major
 * offsets are preserved, in-bounds rows stay in bounds, and reshaping
 * there and back is the identity.
 */
module SparseReshape {
  import opened RowMajor

  /** The target-shape entry that asks for the dimension to be inferred. */
  const Inferred: int := -1

  /** Number of entries of the target shape to be inferred. */
  function SentinelCount(newShape: seq<int>): (r: nat)
  {
    if |newShape| == 0 then 0
    else (if newShape[0] == Inferred then 1 else 0) + SentinelCount(newShape[1..])
  }

  /** Product of the target-shape entries that are not inferred; the empty product is 1. */
  function KnownProduct(newShape: seq<int>): (r: int)
  {
    if |newShape| == 0 then 1
    else (if newShape[0] == Inferred then 1 else newShape[0]) * KnownProduct(newShape[1..])
  }

  /** Every inferred entry of the target shape replaced by v, the others kept. */
  function Substitute(newShape: seq<int>, v: int): (r: seq<int>)
    ensures |r| == |newShape|
  {
    seq(|newShape|, i requires 0 <= i < |newShape| => if newShape[i] == Inferred then v else newShape[i])
  }

  /**
   * The resolved target shape: each inferred entry becomes the element count
   * divided by the product of the known entries. The operands are positive
   * wherever the kernel runs, where truncating and Euclidean division agree.
   */
  function ResolveShape(newShape: seq<int>, total: int): (r: seq<int>)
    requires KnownProduct(newShape) != 0
    ensures |r| == |newShape|
  {
    Substitute(newShape, total / KnownProduct(newShape))
  }

  predicate Divides(d: int, n: int)
  {
    d != 0 && n % d == 0
  }

  /**
   * What the operator demands of its inputs (none of it is checked at run
   * time): at least one dimension on each side, positive source sizes,
   * target entries positive or inferred, at most one inferred entry, and an
   * element count divisible by the known target sizes when one is inferred.
   */
  predicate ValidShapes(prevShape: seq<int>, newShape: seq<int>)
  {
    && |prevShape| >= 1
    && |newShape| >= 1
    && AllPositive(prevShape)
    && (forall i :: 0 <= i < |newShape| ==> newShape[i] > 0 || newShape[i] == Inferred)
    && SentinelCount(newShape) <= 1
    && (SentinelCount(newShape) == 1 ==> Divides(KnownProduct(newShape), Product(prevShape)))
  }

  /**
   * The coordinates of one entry under the resolved shape: the row itself
   * when the shapes are equal, otherwise the decomposition of its row-major
   * offset under prevShape by the strides of the resolved shape.
   */
  function ReshapeRow(row: seq<int>, prevShape: seq<int>, resolved: seq<int>): (r: seq<int>)
    requires |row| == |prevShape|
    requires AllPositive(resolved)
  {
    if prevShape == resolved then row
    else
      StridesPositive(resolved);
      Unflatten(Offset(row, Strides(prevShape)), Strides(resolved))
  }

  /** The whole operator: every row remapped, and the resolved shape. */
  function Reshape(indices: seq<seq<int>>, prevShape: seq<int>, newShape: seq<int>): (r: (seq<seq<int>>, seq<int>))
    requires ValidShapes(prevShape, newShape)
    requires forall i :: 0 <= i < |indices| ==> |indices[i]| == |prevShape|
  {
    ResolvedPositive(prevShape, newShape);
    var resolved := ResolveShape(newShape, Product(prevShape));
    (seq(|indices|, i requires 0 <= i < |indices| => ReshapeRow(indices[i], prevShape, resolved)), resolved)
  }

  // ---------------------------------------------------------------------
  // Shape resolution
  // ---------------------------------------------------------------------

  /** Extending the target shape by one entry multiplies the known product by it unless it is inferred. */
  lemma {:induction false} KnownProductSnoc(newShape: seq<int>, x: int)
    ensures KnownProduct(newShape + [x]) == KnownProduct(newShape) * (if x == Inferred then 1 else x)
  {
    if |newShape| > 0 {
      assert (newShape + [x])[1..] == newShape[1..] + [x];
      KnownProductSnoc(newShape[1..], x);
    }
  }

  lemma {:induction false} KnownProductPositive(newShape: seq<int>)
    requires forall i :: 0 <= i < |newShape| ==> newShape[i] > 0 || newShape[i] == Inferred
    ensures KnownProduct(newShape) > 0
  {
    if |newShape| > 0 {
      KnownProductPositive(newShape[1..]);
    }
  }

  /** Substituting into a target shape without inferred entries leaves its product the known product. */
  lemma {:induction false} ProductOfSubstituteNone(newShape: seq<int>, v: int)
    requires SentinelCount(newShape) == 0
    ensures Product(Substitute(newShape, v)) == KnownProduct(newShape)
  {
    if |newShape| > 0 {
      var rest := newShape[1..];
      assert Substitute(newShape, v)[1..] == Substitute(rest, v);
      ProductOfSubstituteNone(rest, v);
    }
  }

  /** Substituting v for the single inferred entry multiplies the known product by v. */
  lemma {:induction false} ProductOfSubstituteOne(newShape: seq<int>, v: int)
    requires SentinelCount(newShape) == 1
    ensures Product(Substitute(newShape, v)) == KnownProduct(newShape) * v
  {
    var head, rest := newShape[0], newShape[1..];
    assert Substitute(newShape, v)[1..] == Substitute(rest, v);
    var k := KnownProduct(rest);
    if head == Inferred {
      ProductOfSubstituteNone(rest, v);
      assert Product(Substitute(newShape, v)) == v * k;
      assert KnownProduct(newShape) == k;
    } else {
      ProductOfSubstituteOne(rest, v);
      assert Product(Substitute(newShape, v)) == head * (k * v);
      assert KnownProduct(newShape) == head * k;
      assert head * (k * v) == (head * k) * v;
    }
  }

  /** Without an inferred entry the resolved shape is the target shape itself. */
  lemma ResolveWithoutSentinel(newShape: seq<int>, total: int)
    requires KnownProduct(newShape) != 0
    requires SentinelCount(newShape) == 0
    ensures ResolveShape(newShape, total) == newShape
  {
    NoSentinel(newShape);
  }

  /** A target shape with no inferred entry contains no -1. */
  lemma {:induction false} NoSentinel(newShape: seq<int>)
    requires SentinelCount(newShape) == 0
    ensures forall i :: 0 <= i < |newShape| ==> newShape[i] != Inferred
  {
    if |newShape| > 0 {
      NoSentinel(newShape[1..]);
      assert forall i :: 1 <= i < |newShape| ==> newShape[i] == newShape[1..][i - 1];
    }
  }

  /**
   * With one inferred entry and a divisible element count, the resolved
   * shape has exactly as many elements as the source shape.
   */
  lemma ResolvedProduct(prevShape: seq<int>, newShape: seq<int>)
    requires ValidShapes(prevShape, newShape)
    requires SentinelCount(newShape) == 1
    ensures Product(ResolveShape(newShape, Product(prevShape))) == Product(prevShape)
  {
    var total, known := Product(prevShape), KnownProduct(newShape);
    ProductOfSubstituteOne(newShape, total / known);
    assert total == known * (total / known) + total % known;
  }

  /** Under the operator's preconditions every resolved size is positive. */
  lemma ResolvedPositive(prevShape: seq<int>, newShape: seq<int>)
    requires ValidShapes(prevShape, newShape)
    ensures KnownProduct(newShape) > 0
    ensures AllPositive(ResolveShape(newShape, Product(prevShape)))
  {
    KnownProductPositive(newShape);
    var total, known := Product(prevShape), KnownProduct(newShape);
    if SentinelCount(newShape) == 1 {
      ProductPositive(prevShape);
      assert total == known * (total / known);
      if total / known <= 0 {
        MulMonotone(total / known, 0, known);
        assert false;
      }
    } else {
      NoSentinel(newShape);
    }
  }

  // ---------------------------------------------------------------------
  // Coordinate remapping
  // ---------------------------------------------------------------------

  /**
   * One remapped row keeps its row-major offset, and an in-bounds row stays
   * in bounds whenever the two shapes have the same element count.
   */
  lemma ReshapeRowCorrect(row: seq<int>, prevShape: seq<int>, resolved: seq<int>)
    requires |row| == |prevShape|
    requires |resolved| >= 1 && AllPositive(resolved)
    ensures |ReshapeRow(row, prevShape, resolved)| == |resolved|
    ensures Offset(ReshapeRow(row, prevShape, resolved), Strides(resolved)) == Offset(row, Strides(prevShape))
    ensures InBounds(row, prevShape) && Product(resolved) == Product(prevShape)
      ==> InBounds(ReshapeRow(row, prevShape, resolved), resolved)
  {
    if prevShape != resolved {
      var x := Offset(row, Strides(prevShape));
      StridesPositive(resolved);
      OffsetOfUnflatten(x, Strides(resolved));
      if InBounds(row, prevShape) && Product(resolved) == Product(prevShape) {
        OffsetInRange(row, prevShape);
        UnflattenInBounds(x, resolved);
      }
    }
  }

  /**
   * The equal-shape shortcut and the general flatten/unflatten path give the
   * same row for every in-bounds row.
   */
  lemma ShortcutAgrees(row: seq<int>, shape: seq<int>)
    requires InBounds(row, shape)
    ensures AllPositive(Strides(shape))
    ensures ReshapeRow(row, shape, shape) == Unflatten(Offset(row, Strides(shape)), Strides(shape))
  {
    UnflattenOfOffset(row, shape);
  }

  /**
   * The exact condition under which the equal-shape shortcut and the general
   * path agree: every coordinate after the first is in bounds. The first
   * coordinate comes back from the leading floor division whatever its value.
   */
  lemma ShortcutAgreesExactly(row: seq<int>, shape: seq<int>)
    requires |shape| >= 1 && AllPositive(shape)
    requires |row| == |shape|
    ensures AllPositive(Strides(shape))
    ensures ReshapeRow(row, shape, shape) == Unflatten(Offset(row, Strides(shape)), Strides(shape))
        <==> InBounds(row[1..], shape[1..])
  {
    if InBounds(row[1..], shape[1..]) {
      UnflattenOfOffsetMajor(row, shape);
    } else {
      UnflattenMinorInBounds(Offset(row, Strides(shape)), shape);
      assert Unflatten(Offset(row, Strides(shape)), Strides(shape))[1..] != row[1..];
    }
  }

  /**
   * Reshaping an in-bounds row to a shape with the same element count and
   * back again restores the row.
   */
  lemma RoundTrip(row: seq<int>, prevShape: seq<int>, nextShape: seq<int>)
    requires InBounds(row, prevShape)
    requires |nextShape| >= 1 && AllPositive(nextShape)
    requires Product(nextShape) == Product(prevShape)
    ensures AllPositive(prevShape)
    ensures |ReshapeRow(row, prevShape, nextShape)| == |nextShape|
    ensures ReshapeRow(ReshapeRow(row, prevShape, nextShape), nextShape, prevShape) == row
  {
    assert AllPositive(prevShape);
    ReshapeRowCorrect(row, prevShape, nextShape);
    var mid := ReshapeRow(row, prevShape, nextShape);
    if nextShape != prevShape {
      assert Offset(mid, Strides(nextShape)) == Offset(row, Strides(prevShape));
      UnflattenOfOffset(row, prevShape);
    }
  }

  /**
   * The operator as a whole: the resolved shape has the source's element
   * count when a dimension is inferred, every output row has the target
   * rank and the offset of its input row, and in-bounds rows map to
   * in-bounds rows when the element counts agree.
   */
  lemma ReshapeCorrect(indices: seq<seq<int>>, prevShape: seq<int>, newShape: seq<int>)
    requires ValidShapes(prevShape, newShape)
    requires forall i :: 0 <= i < |indices| ==> |indices[i]| == |prevShape|
    ensures |Reshape(indices, prevShape, newShape).1| == |newShape|
    ensures AllPositive(Reshape(indices, prevShape, newShape).1)
    ensures SentinelCount(newShape) == 1 ==> Product(Reshape(indices, prevShape, newShape).1) == Product(prevShape)
    ensures |Reshape(indices, prevShape, newShape).0| == |indices|
    ensures forall i :: 0 <= i < |indices| ==> RowRemapped(indices[i], prevShape, Reshape(indices, prevShape, newShape), i)
  {
    ResolvedPositive(prevShape, newShape);
    var resolved := ResolveShape(newShape, Product(prevShape));
    if SentinelCount(newShape) == 1 {
      ResolvedProduct(prevShape, newShape);
    }
    var r := Reshape(indices, prevShape, newShape);
    assert r.1 == resolved;
    forall i | 0 <= i < |indices|
      ensures RowRemapped(indices[i], prevShape, r, i)
    {
      assert r.0[i] == ReshapeRow(indices[i], prevShape, resolved);
      ReshapeRowCorrect(indices[i], prevShape, resolved);
    }
  }

  /**
   * Output row i of an operator result has the target rank and the offset of
   * the input row, and lies in bounds when the input row does and the
   * element counts agree.
   */
  ghost predicate RowRemapped(row: seq<int>, prevShape: seq<int>, r: (seq<seq<int>>, seq<int>), i: int)
    requires |row| == |prevShape|
  {
    var (out, resolved) := r;
    && 0 <= i < |out|
    && |out[i]| == |resolved|
    && Offset(out[i], Strides(resolved)) == Offset(row, Strides(prevShape))
    && (InBounds(row, prevShape) && Product(resolved) == Product(prevShape) ==> InBounds(out[i], resolved))
  }

  // ---------------------------------------------------------------------
  // The worked example of the operator's documentation
  // ---------------------------------------------------------------------

  /**
   * The documented output, obtained from the source shape [2, 3, 6]: 36
   * elements, so the inferred dimension of [9, -1] is 4.
   */
  lemma WorkedExample()
    ensures ValidShapes([2, 3, 6], [9, -1])
    ensures Reshape([[0, 0, 0], [0, 0, 1], [0, 1, 0], [1, 0, 0], [1, 2, 3]], [2, 3, 6], [9, -1])
         == ([[0, 0], [0, 1], [1, 2], [4, 2], [8, 1]], [9, 4])
  {
    ExampleShapes();
    var rows := [[0, 0, 0], [0, 0, 1], [0, 1, 0], [1, 0, 0], [1, 2, 3]];
    var prevShape, newShape := [2, 3, 6], [9, -1];
    var expected := [[0, 0], [0, 1], [1, 2], [4, 2], [8, 1]];
    var r := Reshape(rows, prevShape, newShape);
    var out := r.0;
    assert r.1 == [9, 4];
    assert |out| == 5;
    assert out[0] == expected[0] by { ExampleRow(rows[0], 0, expected[0]); }
    assert out[1] == expected[1] by { ExampleRow(rows[1], 1, expected[1]); }
    assert out[2] == expected[2] by { ExampleRow(rows[2], 6, expected[2]); }
    assert out[3] == expected[3] by { ExampleRow(rows[3], 18, expected[3]); }
    assert out[4] == expected[4] by { ExampleRow(rows[4], 33, expected[4]); }
    assert out == expected;
  }

  /** The shapes of the worked example are valid and [9, -1] resolves to [9, 4]. */
  lemma ExampleShapes()
    ensures ValidShapes([2, 3, 6], [9, -1])
    ensures ResolveShape([9, -1], Product([2, 3, 6])) == [9, 4]
  {
    assert Product([2, 3, 6]) == 36 by {
      assert Product([6]) == 6;
      assert [2, 3, 6][1..] == [3, 6] && [3, 6][1..] == [6];
    }
    assert KnownProduct([9, -1]) == 9 by {
      assert [9, -1][1..] == [-1];
    }
    assert SentinelCount([9, -1]) == 1 by {
      assert [9, -1][1..] == [-1] && [-1][1..] == [];
    }
  }

  /** One row of the worked example: its offset under [2, 3, 6] and its coordinates under [9, 4]. */
  lemma ExampleRow(row: seq<int>, offset: int, expected: seq<int>)
    requires |row| == 3
    requires offset == row[0] * 18 + row[1] * 6 + row[2]
    requires expected == [offset / 4, offset % 4]
    ensures ReshapeRow(row, [2, 3, 6], [9, 4]) == expected
  {
    assert Strides([2, 3, 6]) == [18, 6, 1];
    assert Strides([9, 4]) == [4, 1];
    OffsetOfThree(row, [18, 6, 1]);
    UnflattenByTwo(offset, [4, 1]);
  }

  lemma OffsetOfThree(row: seq<int>, strides: seq<int>)
    requires |row| == 3 && |strides| == 3
    ensures Offset(row, strides) == row[0] * strides[0] + row[1] * strides[1] + row[2] * strides[2]
  {
    var r1, s1 := row[1..], strides[1..];
    var r2, s2 := r1[1..], s1[1..];
    assert Offset(r2[1..], s2[1..]) == 0;
    assert Offset(r2, s2) == row[2] * strides[2];
    assert Offset(r1, s1) == row[1] * strides[1] + row[2] * strides[2];
  }

  lemma UnflattenByTwo(x: int, dividers: seq<int>)
    requires |dividers| == 2 && AllPositive(dividers)
    ensures Unflatten(x, dividers) == [x / dividers[0], x % dividers[0] / dividers[1]]
  {
    var rest := dividers[1..];
    assert Unflatten(x % dividers[0], rest) == [x % dividers[0] / dividers[1]] + Unflatten(x % dividers[0] % dividers[1], rest[1..]);
  }

  /**
   * The documentation's example as printed names the source shape
   * [2, 3, 4]: its 24 elements are not divisible by the known size 9, the
   * kernel infers 24 / 9 = 2 rather than 4, and the last row [1, 2, 3]
   * (offset 23) maps to [11, 1] rather than the documented [8, 1].
   */
  lemma DocstringExampleAsWritten()
    ensures !ValidShapes([2, 3, 4], [9, -1])
    ensures ResolveShape([9, -1], Product([2, 3, 4])) == [9, 2]
    ensures ReshapeRow([1, 2, 3], [2, 3, 4], [9, 2]) == [11, 1]
  {
    assert Product([2, 3, 4]) == 24 by {
      assert Product([4]) == 4;
      assert [2, 3, 4][1..] == [3, 4] && [3, 4][1..] == [4];
    }
    assert KnownProduct([9, -1]) == 9 by {
      assert [9, -1][1..] == [-1];
    }
    assert SentinelCount([9, -1]) == 1 by {
      assert [9, -1][1..] == [-1] && [-1][1..] == [];
    }
    assert Strides([2, 3, 4]) == [12, 4, 1];
    OffsetOfThree([1, 2, 3], [12, 4, 1]);
    assert Strides([9, 2]) == [2, 1];
    UnflattenByTwo(23, [2, 1]);
  }

  /**
   * The equal-shape shortcut and the general path differ on a row outside
   * the shape's bounds: under [2, 3] the shortcut keeps [0, 5], while
   * flattening (offset 5) and unflattening gives [1, 2].
   */
  lemma ShortcutDiffersOutOfBounds()
    ensures !InBounds([0, 5], [2, 3])
    ensures ReshapeRow([0, 5], [2, 3], [2, 3]) == [0, 5]
    ensures AllPositive(Strides([2, 3]))
    ensures Unflatten(Offset([0, 5], Strides([2, 3])), Strides([2, 3])) == [1, 2]
  {
    assert Strides([2, 3]) == [3, 1];
    assert Offset([0, 5], [3, 1]) == 5 by {
      assert [0, 5][1..] == [5] && [3, 1][1..] == [1];
    }
    UnflattenByTwo(5, [3, 1]);
  }
}
