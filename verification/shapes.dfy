/** Shape arithmetic shared by every tensor iteration: element counts,
    row-major strides in the two conventions the source uses, and the flat
    offset an index addresses. */
module Shapes {

  /** The number of elements of a tensor of this shape; 1 for a scalar. */
  function Product(shape: seq<int>): int
  {
    if |shape| == 0 then 1 else shape[0] * Product(shape[1..])
  }

  lemma {:induction false} ProductNonNegative(shape: seq<nat>)
    ensures Product(shape) >= 0
  {
    if |shape| > 0 {
      ProductNonNegative(shape[1..]);
    }
  }

  /** A shape with a zero dimension has no elements; one without has some. */
  lemma {:induction false} ProductZeroIff(shape: seq<nat>)
    ensures Product(shape) == 0 <==> exists i :: 0 <= i < |shape| && shape[i] == 0
  {
    if |shape| > 0 {
      ProductZeroIff(shape[1..]);
      ProductNonNegative(shape[1..]);
      if Product(shape[1..]) == 0 {
        var i :| 0 <= i < |shape[1..]| && shape[1..][i] == 0;
        assert shape[i + 1] == 0;
      }
      if shape[0] != 0 && Product(shape[1..]) != 0 {
        assert Product(shape) != 0;
        forall i | 0 <= i < |shape|
          ensures shape[i] != 0
        {
          if i > 0 {
            assert shape[i] == shape[1..][i - 1];
          }
        }
      }
    }
  }

  /** Row-major strides with one entry per dimension: the stride of axis `i`
      is the product of the dimensions after it, so the last stride is 1. */
  function FullStrides(shape: seq<int>): (strides: seq<int>)
    ensures |strides| == |shape|
  {
    seq(|shape|, i requires 0 <= i < |shape| => Product(shape[i + 1..]))
  }

  /** Row-major strides without the implicit last stride of 1: empty below
      rank 2, otherwise one entry for every axis but the last. */
  function TrailingStrides(shape: seq<int>): (strides: seq<int>)
    ensures |shape| < 2 ==> strides == []
    ensures |shape| >= 2 ==> |strides| == |shape| - 1
  {
    if |shape| < 2 then [] else FullStrides(shape)[..|shape| - 1]
  }

  /** The two conventions agree on every axis but the last, where the full
      convention makes the stride of 1 explicit. */
  lemma StrideConventions(shape: seq<int>)
    requires |shape| >= 2
    ensures FullStrides(shape) == TrailingStrides(shape) + [1]
  {
    var n := |shape|;
    assert shape[n..] == [];
    assert FullStrides(shape)[n - 1] == 1;
  }

  /** `Σ a[i] · b[i]`: the flat offset an index addresses under given strides. */
  function Dot(a: seq<int>, b: seq<int>): int
    requires |a| == |b|
  {
    if |a| == 0 then 0 else a[0] * b[0] + Dot(a[1..], b[1..])
  }

  /** Every coordinate lies inside its dimension. */
  predicate InBounds(index: seq<int>, shape: seq<int>)
  {
    |index| == |shape| && forall i :: 0 <= i < |index| ==> 0 <= index[i] < shape[i]
  }

  /** The row-major position of an index, axis by axis: the first coordinate
      selects a block of `Product(shape[1..])` elements, the rest a position
      inside it. */
  function Flat(index: seq<int>, shape: seq<int>): int
    requires |index| == |shape|
  {
    if |index| == 0 then 0
    else index[0] * Product(shape[1..]) + Flat(index[1..], shape[1..])
  }

  lemma FullStridesTail(shape: seq<int>)
    requires |shape| > 0
    ensures FullStrides(shape)[1..] == FullStrides(shape[1..])
  {
    var s := FullStrides(shape);
    var t := FullStrides(shape[1..]);
    forall i | 0 <= i < |t|
      ensures s[1..][i] == t[i]
    {
      assert shape[i + 2..] == shape[1..][i + 1..];
    }
  }

  /** Dotting an index with the full strides yields its row-major position. */
  lemma {:induction false} DotFullStridesIsFlat(index: seq<int>, shape: seq<int>)
    requires |index| == |shape|
    ensures Dot(index, FullStrides(shape)) == Flat(index, shape)
  {
    if |index| > 0 {
      FullStridesTail(shape);
      DotFullStridesIsFlat(index[1..], shape[1..]);
    }
  }

  lemma BlockBound(a: int, p: int, r: int, n: int)
    requires 0 <= a < n && 0 <= r < p
    ensures 0 <= a * p + r < n * p
  {
    assert a * p <= (n - 1) * p;
  }

  /** An in-bounds index addresses an element of the tensor. */
  lemma {:induction false} FlatInRange(index: seq<int>, shape: seq<nat>)
    requires InBounds(index, shape)
    ensures 0 <= Flat(index, shape) < Product(shape)
  {
    if |index| > 0 {
      FlatInRange(index[1..], shape[1..]);
      BlockBound(index[0], Product(shape[1..]), Flat(index[1..], shape[1..]), shape[0]);
    }
  }

  lemma Gap(a: int, b: int, p: int)
    requires a < b && p >= 0
    ensures b * p >= a * p + p
  {
    assert b * p == a * p + (b - a - 1) * p + p;
  }

  lemma BlockUnique(a: int, b: int, p: int, r: int, s: int)
    requires 0 <= r < p && 0 <= s < p
    requires a * p + r == b * p + s
    ensures a == b && r == s
  {
    if a < b {
      Gap(a, b, p);
    } else if b < a {
      Gap(b, a, p);
    }
  }

  /** Distinct in-bounds indices address distinct elements. */
  lemma {:induction false} FlatInjective(i: seq<int>, j: seq<int>, shape: seq<nat>)
    requires InBounds(i, shape) && InBounds(j, shape)
    requires Flat(i, shape) == Flat(j, shape)
    ensures i == j
  {
    if |i| > 0 {
      FlatInRange(i[1..], shape[1..]);
      FlatInRange(j[1..], shape[1..]);
      BlockUnique(i[0], j[0], Product(shape[1..]), Flat(i[1..], shape[1..]), Flat(j[1..], shape[1..]));
      FlatInjective(i[1..], j[1..], shape[1..]);
      assert i == [i[0]] + i[1..];
      assert j == [j[0]] + j[1..];
    }
  }

  /** The reduce over the shape that `getLength` / `getSize` perform: the
      first dimension times each following one, or 1 for an empty shape. */
  method GetLength(shape: seq<int>) returns (length: int)
    ensures length == Product(shape)
  {
    if |shape| == 0 {
      return 1;
    }
    length := shape[0];
    var i := 1;
    while i < |shape|
      invariant 1 <= i <= |shape|
      invariant length * Product(shape[i..]) == Product(shape)
    {
      assert shape[i..][1..] == shape[i + 1..];
      length := length * shape[i];
      i := i + 1;
    }
    assert shape[i..] == [];
  }

  /** `getStrides` of src/Tensor.ts: a stride for every axis, last one 1,
      each earlier one the next stride times the next dimension. */
  method GetFullStrides(shape: seq<int>) returns (strides: seq<int>)
    ensures strides == FullStrides(shape)
  {
    var rank := |shape|;
    if rank == 0 {
      return [];
    }
    if rank == 1 {
      assert shape[1..] == [];
      return [1];
    }
    strides := seq(rank, _ => 0);
    strides := strides[rank - 1 := 1];
    strides := strides[rank - 2 := shape[rank - 1]];
    assert shape[rank..] == [];
    assert shape[rank - 1..][1..] == shape[rank..];
    var i := rank - 3;
    while i >= 0
      invariant -1 <= i <= rank - 3
      invariant |strides| == rank
      invariant forall j :: i < j < rank ==> strides[j] == Product(shape[j + 1..])
    {
      assert shape[i + 1..][1..] == shape[i + 2..];
      strides := strides[i := strides[i + 1] * shape[i + 1]];
      i := i - 1;
    }
  }

  /** `getStrides` of src/exclude/Tensor.ts and src/tensors/Tensor.ts: no
      strides below rank 2, otherwise `rank - 1` of them, the last being the
      last dimension, each earlier one the next stride times the next
      dimension. */
  method GetTrailingStrides(shape: seq<int>) returns (strides: seq<int>)
    ensures strides == TrailingStrides(shape)
  {
    var rank := |shape|;
    if rank < 2 {
      return [];
    }
    strides := seq(rank - 1, _ => 0);
    strides := strides[rank - 2 := shape[rank - 1]];
    assert shape[rank..] == [];
    assert shape[rank - 1..][1..] == shape[rank..];
    var i := rank - 3;
    while i >= 0
      invariant -1 <= i <= rank - 3
      invariant |strides| == rank - 1
      invariant forall j :: i < j < rank - 1 ==> strides[j] == Product(shape[j + 1..])
    {
      assert shape[i + 1..][1..] == shape[i + 2..];
      strides := strides[i := strides[i + 1] * shape[i + 1]];
      i := i - 1;
    }
  }

  /** The loop `offset += index[i] * strides[i]` over all strides. */
  method Offset(index: seq<int>, strides: seq<int>) returns (offset: int)
    requires |index| == |strides|
    ensures offset == Dot(index, strides)
  {
    offset := 0;
    var i := 0;
    while i < |strides|
      invariant 0 <= i <= |strides|
      invariant offset + Dot(index[i..], strides[i..]) == Dot(index, strides)
    {
      assert index[i..][1..] == index[i + 1..];
      assert strides[i..][1..] == strides[i + 1..];
      offset := offset + index[i] * strides[i];
      i := i + 1;
    }
    assert index[i..] == [] && strides[i..] == [];
  }
}
