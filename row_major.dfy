/**
 * Row-major layout arithmetic for dense shapes: element counts, stride
 * tables, linear offsets, and the mixed-radix decomposition that turns a
 * linear offset back into a coordinate row. These are the specification
 * functions the sparse reshape kernel is proved against.
 */
module RowMajor {

  /** Number of elements of a dense tensor of this shape; the empty product is 1. */
  function Product(shape: seq<int>): (r: int)
  {
    if |shape| == 0 then 1 else shape[0] * Product(shape[1..])
  }

  predicate AllPositive(s: seq<int>)
  {
    forall k :: 0 <= k < |s| ==> s[k] > 0
  }

  /** The coordinate row addresses an element of a dense tensor of this shape. */
  predicate InBounds(row: seq<int>, shape: seq<int>)
  {
    |row| == |shape| && forall k :: 0 <= k < |row| ==> 0 <= row[k] < shape[k]
  }

  /**
   * Row-major stride table: entry k is the number of elements spanned by a
   * unit step in dimension k, i.e. the product of all more-minor sizes.
   * The table is built from the last dimension backwards.
   */
  function Strides(shape: seq<int>): (r: seq<int>)
    ensures |r| == |shape|
    ensures |shape| > 0 ==> r[|shape| - 1] == 1
    ensures forall k :: 0 <= k < |shape| - 1 ==> r[k] == shape[k + 1] * r[k + 1]
  {
    seq(|shape|, k requires 0 <= k < |shape| => Product(shape[k + 1..]))
  }

  /** Row-major linear offset: the dot product of a coordinate row with a stride table. */
  function Offset(row: seq<int>, strides: seq<int>): (r: int)
    requires |row| == |strides|
  {
    if |row| == 0 then 0 else row[0] * strides[0] + Offset(row[1..], strides[1..])
  }

  /**
   * Decomposes x by repeated floor division and floor modulus, most
   * significant divider first, carrying the remainder forward. For positive
   * divisors Dafny's / and % are exactly floordiv and floormod.
   */
  function Unflatten(x: int, dividers: seq<int>): (r: seq<int>)
    requires AllPositive(dividers)
    ensures |r| == |dividers|
    decreases |dividers|
  {
    if |dividers| == 0 then []
    else [x / dividers[0]] + Unflatten(x % dividers[0], dividers[1..])
  }

  // ---------------------------------------------------------------------
  // Arithmetic helpers
  // ---------------------------------------------------------------------

  lemma MulMonotone(a: int, b: int, d: int)
    requires a <= b && d >= 0
    ensures a * d <= b * d
  {
    assert (b - a) * d >= 0;
  }

  /** Division and remainder of q * d + r are q and r when 0 <= r < d. */
  lemma DivModOfSum(q: int, r: int, d: int)
    requires d > 0 && 0 <= r < d
    ensures (q * d + r) / d == q && (q * d + r) % d == r
  {
    var x := q * d + r;
    var q', r' := x / d, x % d;
    assert (q - q') * d == r' - r;
    if q - q' >= 1 {
      MulMonotone(1, q - q', d);
    } else if q - q' <= -1 {
      MulMonotone(q - q', -1, d);
    }
  }

  /** A value below n * d has a quotient by d below n. */
  lemma DivBelow(x: int, d: int, n: int)
    requires d > 0 && 0 <= x < n * d
    ensures 0 <= x / d < n
  {
    if x / d >= n {
      MulMonotone(n, x / d, d);
    }
  }

  /** One mixed-radix digit below n, weighted by d, plus a remainder below d stays below n * d. */
  lemma DigitBound(a: int, n: int, d: int, r: int)
    requires 0 <= a < n && 0 <= r < d
    ensures 0 <= a * d + r < n * d
  {
    MulMonotone(0, a, d);
    MulMonotone(a + 1, n, d);
    assert (a + 1) * d == a * d + d;
  }

  // ---------------------------------------------------------------------
  // Properties of the layout functions
  // ---------------------------------------------------------------------

  lemma {:induction false} ProductPositive(shape: seq<int>)
    requires AllPositive(shape)
    ensures Product(shape) > 0
  {
    if |shape| > 0 {
      ProductPositive(shape[1..]);
    }
  }

  /** Every stride of a shape with positive sizes is positive. */
  lemma StridesPositive(shape: seq<int>)
    requires AllPositive(shape)
    ensures AllPositive(Strides(shape))
  {
    forall k | 0 <= k < |shape|
      ensures Strides(shape)[k] > 0
    {
      ProductPositive(shape[k + 1..]);
    }
  }

  /** Dropping the major dimension drops the first stride; the first stride times the major size is the element count. */
  lemma StridesTail(shape: seq<int>)
    requires |shape| > 0
    ensures Strides(shape)[1..] == Strides(shape[1..])
    ensures Strides(shape)[0] == Product(shape[1..])
    ensures Product(shape) == shape[0] * Strides(shape)[0]
  {
    forall k | 0 <= k < |shape| - 1
      ensures Strides(shape)[1..][k] == Strides(shape[1..])[k]
    {
      assert shape[1..][k + 1..] == shape[k + 2..];
    }
  }

  /** Extending a row and its strides by one column adds that column's term. */
  lemma {:induction false} OffsetSnoc(row: seq<int>, strides: seq<int>, a: int, b: int)
    requires |row| == |strides|
    ensures Offset(row + [a], strides + [b]) == Offset(row, strides) + a * b
  {
    if |row| > 0 {
      assert (row + [a])[1..] == row[1..] + [a];
      assert (strides + [b])[1..] == strides[1..] + [b];
      OffsetSnoc(row[1..], strides[1..], a, b);
    }
  }

  /**
   * Unflattening preserves the offset: with a least significant divider of 1,
   * the dot product of the decomposition with the dividers gives x back.
   */
  lemma {:induction false} OffsetOfUnflatten(x: int, dividers: seq<int>)
    requires |dividers| > 0 && AllPositive(dividers)
    requires dividers[|dividers| - 1] == 1
    ensures Offset(Unflatten(x, dividers), dividers) == x
    decreases |dividers|
  {
    var d := dividers[0];
    var u := Unflatten(x, dividers);
    if |dividers| == 1 {
      assert u == [x];
    } else {
      assert u[1..] == Unflatten(x % d, dividers[1..]);
      OffsetOfUnflatten(x % d, dividers[1..]);
    }
  }

  /** The offset of an in-bounds row lies in [0, Product(shape)). */
  lemma {:induction false} OffsetInRange(row: seq<int>, shape: seq<int>)
    requires InBounds(row, shape)
    ensures 0 <= Offset(row, Strides(shape)) < Product(shape)
  {
    if |row| > 0 {
      var s := Strides(shape);
      StridesTail(shape);
      assert InBounds(row[1..], shape[1..]);
      OffsetInRange(row[1..], shape[1..]);
      var rest := Offset(row[1..], s[1..]);
      assert Offset(row, s) == row[0] * s[0] + rest;
      DigitBound(row[0], shape[0], s[0], rest);
    }
  }

  /** Every offset in range decomposes to an in-bounds row. */
  lemma {:induction false} UnflattenInBounds(x: int, shape: seq<int>)
    requires AllPositive(shape)
    requires 0 <= x < Product(shape)
    ensures AllPositive(Strides(shape))
    ensures InBounds(Unflatten(x, Strides(shape)), shape)
  {
    StridesPositive(shape);
    if |shape| > 0 {
      var s := Strides(shape);
      StridesTail(shape);
      ProductPositive(shape[1..]);
      DivBelow(x, s[0], shape[0]);
      UnflattenInBounds(x % s[0], shape[1..]);
      var u := Unflatten(x, s);
      assert u[1..] == Unflatten(x % s[0], Strides(shape[1..]));
    }
  }

  /**
   * Unflattening inverts flattening on in-bounds rows: the row-major
   * coordinates of an element are the unique decomposition of its offset.
   */
  lemma {:induction false} UnflattenOfOffset(row: seq<int>, shape: seq<int>)
    requires InBounds(row, shape)
    ensures AllPositive(Strides(shape))
    ensures Unflatten(Offset(row, Strides(shape)), Strides(shape)) == row
  {
    assert AllPositive(shape);
    StridesPositive(shape);
    if |row| > 0 {
      var s := Strides(shape);
      StridesTail(shape);
      assert InBounds(row[1..], shape[1..]);
      OffsetInRange(row[1..], shape[1..]);
      UnflattenOfOffset(row[1..], shape[1..]);
      var rest := Offset(row[1..], s[1..]);
      DivModOfSum(row[0], rest, s[0]);
      assert Offset(row, s) == row[0] * s[0] + rest;
      assert Unflatten(Offset(row, s), s) == [row[0]] + row[1..];
    }
  }

  /**
   * The leading floor division returns the major coordinate whatever its
   * value: unflattening the offset restores any row whose minor coordinates
   * are in bounds.
   */
  lemma UnflattenOfOffsetMajor(row: seq<int>, shape: seq<int>)
    requires |shape| >= 1 && AllPositive(shape) && |row| == |shape|
    requires InBounds(row[1..], shape[1..])
    ensures AllPositive(Strides(shape))
    ensures Unflatten(Offset(row, Strides(shape)), Strides(shape)) == row
  {
    StridesPositive(shape);
    var s := Strides(shape);
    StridesTail(shape);
    OffsetInRange(row[1..], shape[1..]);
    UnflattenOfOffset(row[1..], shape[1..]);
    var rest := Offset(row[1..], s[1..]);
    DivModOfSum(row[0], rest, s[0]);
    assert Offset(row, s) == row[0] * s[0] + rest;
    assert Unflatten(Offset(row, s), s) == [row[0]] + row[1..];
  }

  /** Every integer unflattens to a row whose minor coordinates are in bounds. */
  lemma UnflattenMinorInBounds(x: int, shape: seq<int>)
    requires |shape| >= 1 && AllPositive(shape)
    ensures AllPositive(Strides(shape))
    ensures InBounds(Unflatten(x, Strides(shape))[1..], shape[1..])
  {
    StridesPositive(shape);
    var s := Strides(shape);
    StridesTail(shape);
    ProductPositive(shape[1..]);
    UnflattenInBounds(x % s[0], shape[1..]);
    assert Unflatten(x, s)[1..] == Unflatten(x % s[0], Strides(shape[1..]));
  }
}
