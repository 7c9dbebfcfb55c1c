/** The tensor front end of src/exclude/Tensor.ts: flattening nested arrays,
    inferring and checking shapes, inferring element types and converting
    values to typed arrays, all as pure functions over `JsValue`.

    A provided shape is a sequence of reals so that the non-negative-integer
    check on its dimensions has something to reject. The global engine is a
    flag, and the handle `Engine.allocateTensor` returns is a parameter. */
module ExcludeTensor {
  import opened Wrappers
  import opened JsValues
  import opened Shapes

  // ---------------------------------------------------------------------
  // flatten

  /** Whether `flatten` descends into `v` rather than keeping it as a leaf. */
  predicate Descends(v: JsValue, skipTypedArray: bool)
  {
    v.Arr? || (v.Typed? && !skipTypedArray)
  }

  /** The leaves of `v`, depth first and left to right; typed arrays are
      leaves themselves when `skipTypedArray` is set. */
  function Leaves(v: JsValue, skipTypedArray: bool): seq<JsValue>
    decreases v, 1
  {
    if Descends(v, skipTypedArray) then LeavesFrom(v, 0, skipTypedArray) else [v]
  }

  /** The leaves of the elements of `parent` from position `i` on. */
  function LeavesFrom(parent: JsValue, i: nat, skipTypedArray: bool): seq<JsValue>
    requires (parent.Arr? || parent.Typed?) && i <= Length(parent)
    decreases parent, 0, Length(parent) - i
  {
    if i == Length(parent) then []
    else
      var first := if parent.Arr? then Leaves(parent.items[i], skipTypedArray) else [Num(parent.data[i])];
      first + LeavesFrom(parent, i + 1, skipTypedArray)
  }

  /** `flatten(array, result, skipTypedArray)`: pushes the leaves of `array`
      onto `result` by recursing into every element in order. */
  function FlattenInto(v: JsValue, result: seq<JsValue>, skipTypedArray: bool): seq<JsValue>
    decreases v, 1
  {
    if Descends(v, skipTypedArray) then FlattenEach(v, 0, result, skipTypedArray)
    else result + [v]
  }

  /** The loop of `flatten` from element `i` on; an element of a typed array
      is a number and is pushed as it is. */
  function FlattenEach(parent: JsValue, i: nat, result: seq<JsValue>, skipTypedArray: bool): seq<JsValue>
    requires (parent.Arr? || parent.Typed?) && i <= Length(parent)
    decreases parent, 0, Length(parent) - i
  {
    if i == Length(parent) then result
    else
      var next := if parent.Arr? then FlattenInto(parent.items[i], result, skipTypedArray)
                  else result + [Num(parent.data[i])];
      FlattenEach(parent, i + 1, next, skipTypedArray)
  }

  /** `flatten` appends exactly the leaves of its input, in order, to the
      result it is given. */
  lemma {:induction false} FlattenAppendsLeaves(v: JsValue, result: seq<JsValue>, skipTypedArray: bool)
    ensures FlattenInto(v, result, skipTypedArray) == result + Leaves(v, skipTypedArray)
    decreases v, 1
  {
    if Descends(v, skipTypedArray) {
      FlattenEachAppendsLeaves(v, 0, result, skipTypedArray);
    }
  }

  lemma {:induction false} FlattenEachAppendsLeaves(parent: JsValue, i: nat, result: seq<JsValue>, skipTypedArray: bool)
    requires (parent.Arr? || parent.Typed?) && i <= Length(parent)
    ensures FlattenEach(parent, i, result, skipTypedArray) == result + LeavesFrom(parent, i, skipTypedArray)
    decreases parent, 0, Length(parent) - i
  {
    if i < Length(parent) {
      var first := if parent.Arr? then Leaves(parent.items[i], skipTypedArray) else [Num(parent.data[i])];
      if parent.Arr? {
        FlattenAppendsLeaves(parent.items[i], result, skipTypedArray);
      }
      FlattenEachAppendsLeaves(parent, i + 1, result + first, skipTypedArray);
      assert result + first + LeavesFrom(parent, i + 1, skipTypedArray)
          == result + (first + LeavesFrom(parent, i + 1, skipTypedArray));
    }
  }

  /** `flatten(v)` with a fresh result: a value that is not descended into
      yields itself alone. */
  function Flatten(v: JsValue, skipTypedArray: bool): (r: seq<JsValue>)
    ensures r == Leaves(v, skipTypedArray)
    ensures !Descends(v, skipTypedArray) ==> r == [v]
  {
    FlattenAppendsLeaves(v, [], skipTypedArray);
    FlattenInto(v, [], skipTypedArray)
  }

  /** Flattening a typed array yields its elements as numbers. */
  lemma {:induction false} TypedLeaves(v: JsValue, i: nat)
    requires v.Typed? && i <= |v.data|
    ensures LeavesFrom(v, i, false) == seq(|v.data| - i, k requires 0 <= k < |v.data| - i => Num(v.data[i + k]))
    decreases |v.data| - i
  {
    if i < |v.data| {
      TypedLeaves(v, i + 1);
    }
  }

  // ---------------------------------------------------------------------
  // assertDeepShapeConsistency

  /** `v` is an array nest of exactly this shape: an array or typed array at
      depth `d` has `shape[d]` elements, and primitives sit exactly at depth
      `|shape|` (the elements of a typed array are primitives). */
  ghost predicate HasShape(v: JsValue, shape: seq<int>)
    decreases v
  {
    if !(v.Arr? || v.Typed?) then shape == []
    else
      && |shape| > 0
      && Length(v) == shape[0]
      && if v.Arr? then forall i :: 0 <= i < |v.items| ==> HasShape(v.items[i], shape[1..])
         else |v.data| == 0 || |shape| == 1
  }

  /** `assertDeepShapeConsistency(value, shape)`. The elements of a typed
      array are primitives, so its loop fails at element 0 exactly when the
      sub-shape is not empty. */
  function CheckDeep(v: JsValue, shape: seq<int>): (o: Outcome)
    ensures !(v.Arr? || v.Typed?) ==> (o.Pass? <==> |shape| == 0)
    ensures o.Pass? && (v.Arr? || v.Typed?) ==> |shape| > 0 && Length(v) == shape[0]
    ensures o.Pass? && v.Arr? ==> forall i :: 0 <= i < |v.items| ==> CheckDeep(v.items[i], shape[1..]).Pass?
    decreases v, 1
  {
    if !(v.Arr? || v.Typed?) then Need(|shape| == 0, "element is a primitive, but should be an array")
    else if |shape| == 0 then Fail(AssertionError("element should be a primitive, but is an array"))
    else if Length(v) != shape[0] then Fail(AssertionError("element has the wrong number of elements"))
    else if v.Typed? then Need(|v.data| == 0 || |shape| == 1, "element is a primitive, but should be an array")
    else CheckEach(v, 0, shape[1..])
  }

  /** The loop of `assertDeepShapeConsistency` over the elements of an array
      from `i` on, each checked against the sub-shape. */
  function CheckEach(parent: JsValue, i: nat, subShape: seq<int>): (o: Outcome)
    requires parent.Arr? && i <= |parent.items|
    ensures o.Pass? <==> forall j :: i <= j < |parent.items| ==> CheckDeep(parent.items[j], subShape).Pass?
    decreases parent, 0, |parent.items| - i
  {
    if i == |parent.items| then Pass
    else
      var o := CheckDeep(parent.items[i], subShape);
      if o.Fail? then o else CheckEach(parent, i + 1, subShape)
  }

  /** The deep check passes exactly on values of the given shape. */
  lemma {:induction false} CheckDeepIff(v: JsValue, shape: seq<int>)
    ensures CheckDeep(v, shape).Pass? <==> HasShape(v, shape)
    decreases v, 1
  {
    if v.Arr? && |shape| > 0 && |v.items| == shape[0] {
      CheckEachIff(v, 0, shape[1..]);
    }
  }

  lemma {:induction false} CheckEachIff(parent: JsValue, i: nat, subShape: seq<int>)
    requires parent.Arr? && i <= |parent.items|
    ensures CheckEach(parent, i, subShape).Pass?
      <==> forall j :: i <= j < |parent.items| ==> HasShape(parent.items[j], subShape)
    decreases parent, 0, |parent.items| - i
  {
    if i < |parent.items| {
      CheckDeepIff(parent.items[i], subShape);
      CheckEachIff(parent, i + 1, subShape);
    }
  }

  /** A value of a shape has as many leaves as the shape has elements. */
  lemma {:induction false} LeafCount(v: JsValue, shape: seq<int>)
    requires HasShape(v, shape)
    ensures |Leaves(v, false)| == Product(shape)
    decreases v, 1
  {
    if v.Arr? {
      LeafCountFrom(v, 0, shape[1..]);
    } else if v.Typed? {
      TypedLeaves(v, 0);
      if |v.data| > 0 {
        assert shape == [|v.data|];
      }
    }
  }

  lemma {:induction false} LeafCountFrom(parent: JsValue, i: nat, subShape: seq<int>)
    requires parent.Arr? && i <= |parent.items|
    requires forall j :: i <= j < |parent.items| ==> HasShape(parent.items[j], subShape)
    ensures |LeavesFrom(parent, i, false)| == (|parent.items| - i) * Product(subShape)
    decreases parent, 0, |parent.items| - i
  {
    if i < |parent.items| {
      LeafCount(parent.items[i], subShape);
      LeafCountFrom(parent, i + 1, subShape);
      assert LeavesFrom(parent, i, false) == Leaves(parent.items[i], false) + LeavesFrom(parent, i + 1, false);
      MultiplyStep(|parent.items| - i, Product(subShape));
    }
  }

  lemma MultiplyStep(k: int, p: int)
    ensures k * p == p + (k - 1) * p
  {
  }

  // ---------------------------------------------------------------------
  // inferShape

  /** The lengths met by following element 0 from `v` down; a typed array
      ends the path unless the element type is `'str'`, where it is not
      entered at all. */
  function FirstPath(v: JsValue, dtype: DType): (path: seq<int>)
    ensures |path| > 0 <==> Descends(v, dtype == StrType)
    ensures |path| > 0 ==> path[0] == Length(v)
    decreases v
  {
    if v.Arr? then [|v.items|] + (if |v.items| == 0 then [] else FirstPath(v.items[0], dtype))
    else if v.Typed? && dtype != StrType then [|v.data|]
    else []
  }

  /** `inferShape(value, dtype)`: a typed array has shape `[length]`, or `[]`
      for strings; a scalar has `[]`; an array has the lengths along its
      first-element path, which the whole array must then match. */
  function InferShape(v: JsValue, dtype: DType): (r: Result<seq<int>>)
    ensures v.Typed? ==> r == Ok(if dtype == StrType then [] else [|v.data|])
    ensures !v.Arr? && !v.Typed? ==> r == Ok([])
    ensures v.Arr? ==> r.Ok? == CheckDeep(v, FirstPath(v, dtype)).Pass?
  {
    if v.Typed? then Ok(if dtype == StrType then [] else [|v.data|])
    else if !v.Arr? then Ok([])
    else
      var shape := FirstPath(v, dtype);
      var check := CheckDeep(v, shape);
      if check.Fail? then Err(check.error) else Ok(shape)
  }

  /** Every dimension before the last is positive, so that element 0 exists
      wherever the first-element path needs it. */
  predicate LeadingDimsPositive(shape: seq<int>)
  {
    forall i :: 0 <= i < |shape| - 1 ==> shape[i] > 0
  }

  lemma {:induction false} FirstPathOfShaped(v: JsValue, shape: seq<int>, dtype: DType)
    requires dtype != StrType && HasShape(v, shape) && LeadingDimsPositive(shape)
    ensures FirstPath(v, dtype) == shape
    decreases v
  {
    if v.Arr? && |v.items| > 0 {
      assert LeadingDimsPositive(shape[1..]) by {
        forall i | 0 <= i < |shape[1..]| - 1
          ensures shape[1..][i] > 0
        {
          assert shape[1..][i] == shape[i + 1];
        }
      }
      FirstPathOfShaped(v.items[0], shape[1..], dtype);
      assert shape == [shape[0]] + shape[1..];
    } else if v.Arr? {
      assert shape == [0];
    } else if v.Typed? {
      assert shape == [|v.data|];
    }
  }

  /** What `inferShape` returns is a shape the value has (a typed array read
      as a string is the one exception), and for a non-string element type a
      shape without empty leading dimensions is the only one it can return. */
  lemma InferShapeSoundAndUnique(v: JsValue, dtype: DType, shape: seq<int>)
    ensures InferShape(v, dtype) == Ok(shape) && !(v.Typed? && dtype == StrType) ==> HasShape(v, shape)
    ensures v.Arr? && dtype != StrType && HasShape(v, shape) && LeadingDimsPositive(shape) ==>
      InferShape(v, dtype) == Ok(shape)
  {
    if v.Arr? {
      CheckDeepIff(v, FirstPath(v, dtype));
      if dtype != StrType && HasShape(v, shape) && LeadingDimsPositive(shape) {
        FirstPathOfShaped(v, shape, dtype);
      }
    }
  }

  /** An array of encoded strings (`Uint8Array`s) read as strings fails the
      deep check: the path stops at the first `Uint8Array`, which the check
      then finds where a primitive should be. */
  lemma EncodedStringArrayRejected(bytes: seq<int>)
    ensures InferShape(Arr([Typed(Uint8, bytes)]), StrType).Err?
  {
    var v := Arr([Typed(Uint8, bytes)]);
    assert FirstPath(v, StrType) == [1];
    assert [1][1..] == [];
    assert CheckDeep(Typed(Uint8, bytes), []).Fail?;
    assert CheckEach(v, 0, []).Fail?;
  }

  // ---------------------------------------------------------------------
  // The provided-shape checks of `Tensor.new`

  /** `isInteger(d) && d >= 0`. */
  predicate IsDim(d: real)
  {
    d.Floor as real == d && d >= 0.0
  }

  /** `assertNonNegativeIntegerDimensions(shape)`: every dimension is a
      non-negative integer. */
  function CheckDims(shape: seq<real>): (o: Outcome)
    ensures o.Pass? <==> forall i :: 0 <= i < |shape| ==> IsDim(shape[i])
  {
    if |shape| == 0 then Pass
    else if !IsDim(shape[0]) then Fail(AssertionError("shape must be made of non-negative integers"))
    else
      var rest := CheckDims(shape[1..]);
      assert forall i :: 1 <= i < |shape| ==> shape[i] == shape[1..][i - 1];
      rest
  }

  /** The dimensions of a checked shape as integers. */
  function Dims(shape: seq<real>): (dims: seq<int>)
    ensures |dims| == |shape|
    ensures forall i :: 0 <= i < |shape| ==> dims[i] as real == shape[i].Floor as real
  {
    seq(|shape|, i requires 0 <= i < |shape| => shape[i].Floor)
  }

  /** `shape.slice(i)`: empty once `i` passes the end. */
  function SliceFrom(shape: seq<int>, i: nat): seq<int>
  {
    if i <= |shape| then shape[i..] else []
  }

  /** Dimension `i` of the inferred shape is accepted: it equals the provided
      one, or it is the last inferred dimension and equals the number of
      elements of the provided dimensions from `i` on. */
  predicate DimAgrees(provided: seq<int>, inferred: seq<int>, i: nat)
    requires i < |inferred|
  {
    || (i < |provided| && inferred[i] == provided[i])
    || (i == |inferred| - 1 && inferred[i] == Product(SliceFrom(provided, i)))
  }

  /** The loop of `Tensor.new` over the inferred dimensions from `i` on. */
  function CheckAgreement(provided: seq<int>, inferred: seq<int>, i: nat): (o: Outcome)
    requires i <= |inferred|
    ensures o.Pass? <==> forall j :: i <= j < |inferred| ==> DimAgrees(provided, inferred, j)
    decreases |inferred| - i
  {
    if i == |inferred| then Pass
    else
      var flatDimsDontMatch := if i == |inferred| - 1 then inferred[i] != Product(SliceFrom(provided, i)) else true;
      var sameDim := i < |provided| && inferred[i] == provided[i];
      if !(sameDim || !flatDimsDontMatch) then
        assert !DimAgrees(provided, inferred, i);
        Fail(AssertionError("inferred shape does not match provided shape"))
      else
        assert DimAgrees(provided, inferred, i);
        CheckAgreement(provided, inferred, i + 1)
  }

  /** The checks `Tensor.new` applies to a provided shape: integer
      dimensions, equal sizes, and agreement dimension by dimension. */
  function CheckProvidedShape(provided: seq<real>, inferred: seq<int>): (o: Outcome)
    ensures o.Pass? <==>
      && (forall i :: 0 <= i < |provided| ==> IsDim(provided[i]))
      && Product(Dims(provided)) == Product(inferred)
      && (forall j :: 0 <= j < |inferred| ==> DimAgrees(Dims(provided), inferred, j))
  {
    var dims := CheckDims(provided);
    if dims.Fail? then dims
    else if Product(Dims(provided)) != Product(inferred) then Fail(AssertionError("provided and inferred sizes differ"))
    else CheckAgreement(Dims(provided), inferred, 0)
  }

  /** A provided shape equal to the inferred one is accepted. */
  lemma SameShapeAccepted(provided: seq<real>, inferred: seq<int>)
    requires forall i :: 0 <= i < |provided| ==> IsDim(provided[i])
    requires Dims(provided) == inferred
    ensures CheckProvidedShape(provided, inferred).Pass?
  {
  }

  /** A flat inferred shape (a typed array, say) is accepted under any
      provided shape with the same number of elements. */
  lemma FlatShapeAccepted(provided: seq<real>, n: int)
    requires forall i :: 0 <= i < |provided| ==> IsDim(provided[i])
    requires Product(Dims(provided)) == n
    ensures CheckProvidedShape(provided, [n]).Pass?
  {
    assert SliceFrom(Dims(provided), 0) == Dims(provided);
    assert Product([n]) == n;
    assert DimAgrees(Dims(provided), [n], 0);
  }

  /** A provided shape that reorders two leading dimensions is rejected. */
  lemma TransposedShapeRejected()
    ensures CheckProvidedShape([3.0, 2.0], [2, 3]).Fail?
  {
    assert Dims([3.0, 2.0]) == [3, 2];
    assert !DimAgrees([3, 2], [2, 3], 0);
  }

  // ---------------------------------------------------------------------
  // inferDtype and toTypedArray

  /** `inferDtype(values)`: arrays by their element 0; `Float64Array` →
      f64, `Int32Array` and `Uint8Array` → i32; number → f64, string → str,
      boolean → bool; anything else → f64. */
  function InferDtype(v: JsValue): (d: DType)
    ensures !d.Other?
    decreases v
  {
    match v
    case Arr(items) => if |items| == 0 then F64 else InferDtype(items[0])
    case Typed(kind, _) => if kind == Float64 then F64 else I32
    case Num(_) => F64
    case Str(_) => StrType
    case Bool(_) => BoolType
    case _ => F64
  }

  /** On a value whose nesting has no empty array on the way down, the
      inferred element type is that of the first leaf `flatten` keeps when
      it leaves typed arrays whole. */
  lemma {:induction false} InferDtypeIsFirstLeaf(v: JsValue, shape: seq<int>)
    requires HasShape(v, shape) && forall i :: 0 <= i < |shape| ==> shape[i] > 0
    ensures |Leaves(v, true)| > 0 && InferDtype(v) == InferDtype(Leaves(v, true)[0])
    decreases v
  {
    if v.Arr? {
      assert forall i :: 0 <= i < |shape[1..]| ==> shape[1..][i] == shape[i + 1];
      InferDtypeIsFirstLeaf(v.items[0], shape[1..]);
      assert LeavesFrom(v, 0, true) == Leaves(v.items[0], true) + LeavesFrom(v, 1, true);
    }
  }

  /** The number a leaf converts to: a number as it is, a boolean as 1 or 0;
      other leaves convert to NaN, which is outside this model. */
  function LeafNumber(leaf: JsValue): Option<int>
  {
    match leaf
    case Num(n) => Some(n)
    case Bool(b) => Some(if b then 1 else 0)
    case _ => None
  }

  /** The numbers of a sequence of leaves, when every leaf converts. */
  function LeafNumbers(leaves: seq<JsValue>): (r: Option<seq<int>>)
    ensures r.Some? <==> forall i :: 0 <= i < |leaves| ==> LeafNumber(leaves[i]).Some?
    ensures r.Some? ==>
      && |r.value| == |leaves|
      && forall i :: 0 <= i < |leaves| ==> Some(r.value[i]) == LeafNumber(leaves[i])
  {
    if |leaves| == 0 then Some([])
    else
      match LeafNumber(leaves[0])
      case None => None
      case Some(n) =>
        var rest := LeafNumbers(leaves[1..]);
        assert forall i :: 1 <= i < |leaves| ==> leaves[i] == leaves[1..][i - 1];
        if rest.None? then None else Some([n] + rest.value)
  }

  /** `noConversionNeeded`: the typed array already has the requested tag. */
  predicate NoConversionNeeded(v: JsValue, dtype: DType)
  {
    || (v.Typed? && v.kind == Float64 && dtype == F64)
    || (v.Typed? && v.kind == Int32 && dtype == I32)
    || (v.Typed? && v.kind == Uint8 && dtype == BoolType)
  }

  /** `toTypedArray(value, dtype)` on an array or typed array (its only
      caller wraps scalars first): strings are refused; arrays are
      flattened; a typed array already of the requested tag is returned as
      it is; otherwise the numbers are copied into a `Float64Array`, an
      `Int32Array`, or a `Uint8Array` holding 1 exactly where the number is
      not 0; any other element type is unknown. */
  function ToTypedArray(value: JsValue, dtype: DType): (r: Result<JsValue>)
    requires value.Arr? || value.Typed?
    ensures dtype == StrType || dtype.Other? ==> r.Err?
    ensures NoConversionNeeded(value, dtype) ==> r == Ok(value)
    ensures r.Ok? ==> r.value.Typed? && r.value.kind == (if dtype == I32 then Int32 else if dtype == F64 then Float64 else Uint8)
    ensures r.Ok? && value.Typed? ==> |r.value.data| == |value.data|
    ensures r.Ok? && value.Arr? ==> |r.value.data| == |Leaves(value, false)|
    ensures r.Ok? && value.Arr? && dtype == F64 ==>
      forall i :: 0 <= i < |r.value.data| ==> LeafNumber(Leaves(value, false)[i]) == Some(r.value.data[i])
    ensures r.Ok? && value.Arr? && dtype == BoolType ==>
      forall i :: 0 <= i < |r.value.data| ==>
        (r.value.data[i] == 1 <==> LeafNumber(Leaves(value, false)[i]) != Some(0))
        && (r.value.data[i] == 0 || r.value.data[i] == 1)
    ensures r.Ok? && value.Arr? && dtype == I32 ==>
      forall i :: 0 <= i < |r.value.data| ==>
        LeafNumber(Leaves(value, false)[i]).Some?
        && r.value.data[i] == Store(Int32, LeafNumber(Leaves(value, false)[i]).value)
    ensures r.Ok? && value.Typed? && dtype == F64 ==>
      forall i :: 0 <= i < |r.value.data| ==> r.value.data[i] == value.data[i]
    ensures r.Ok? && value.Typed? && value.kind != Int32 && dtype == I32 ==>
      forall i :: 0 <= i < |r.value.data| ==> r.value.data[i] == Store(Int32, value.data[i])
    ensures r.Ok? && value.Typed? && value.kind != Uint8 && dtype == BoolType ==>
      forall i :: 0 <= i < |r.value.data| ==>
        (r.value.data[i] == 1 <==> value.data[i] != 0)
        && (r.value.data[i] == 0 || r.value.data[i] == 1)
  {
    if dtype == StrType then Err(AssertionError("cannot convert a string[] to a typed array"))
    else
      var flat := if value.Arr? then Arr(Flatten(value, false)) else value;
      if NoConversionNeeded(flat, dtype) then Ok(flat)
      else if dtype == F64 || dtype == I32 || dtype == BoolType then
        var numbers := if flat.Typed? then Some(flat.data) else LeafNumbers(flat.items);
        match numbers
        case None => Err(TypeError("element does not convert to an integer"))
        case Some(xs) =>
          if dtype == F64 then Ok(NewTypedArray(Float64, xs))
          else if dtype == I32 then Ok(NewTypedArray(Int32, xs))
          else Ok(Typed(Uint8, seq(|xs|, i requires 0 <= i < |xs| => if xs[i] != 0 then 1 else 0)))
      else Err(TypeError("unknown data type"))
  }

  // ---------------------------------------------------------------------
  // Tensor.new and the constructor

  /** A constructed tensor: shape, element type, engine handle, size,
      strides (rank−1 convention), rank, and the values handed to the
      engine. */
  datatype TensorValue = TensorValue(
    shape: seq<int>, dtype: DType, handle: nat, size: int, strides: seq<int>, rank: nat, values: JsValue)

  /** The constructor: an engine must be set, the values must be a typed
      array or an array whose element 0 is a string; `dtype || 'f64'`. */
  function Construct(engineSet: bool, values: JsValue, shape: seq<int>, dtype: DType, handle: nat): (r: Result<TensorValue>)
    ensures !engineSet ==> r.Err?
    ensures r.Ok? <==> engineSet && (values.Typed? || (values.Arr? && |values.items| > 0 && values.items[0].Str?))
    ensures r.Ok? ==> var t := r.value;
      && t.size == Product(shape) && t.strides == TrailingStrides(shape) && t.rank == |shape|
      && t.shape == shape && t.values == values && t.handle == handle
  {
    if !engineSet then Err(AssertionError("no engine set"))
    else if !(values.Typed? || (values.Arr? && |values.items| > 0 && values.items[0].Str?)) then
      Err(AssertionError("values must be a typed array or string[]"))
    else
      var d := if dtype == Other("") then F64 else dtype;
      Ok(TensorValue(shape, d, handle, Product(shape), TrailingStrides(shape), |shape|, values))
  }

  /** `Tensor.new(values, shape, dtype)`. */
  function New(engineSet: bool, values: JsValue, shape: Option<seq<real>>, dtype: Option<DType>, handle: nat): (r: Result<TensorValue>)
    ensures !(values.Typed? || values.Arr? || values.Num? || values.Bool? || values.Str?) ==> r.Err?
    ensures r.Ok? && shape.Some? ==> r.value.shape == Dims(shape.value)
    ensures r.Ok? && shape.Some? ==> forall i :: 0 <= i < |shape.value| ==> IsDim(shape.value[i])
    ensures r.Ok? && shape.Some? ==>
      var d := if dtype.Some? then dtype.value else InferDtype(values);
      InferShape(values, d).Ok? && CheckProvidedShape(shape.value, InferShape(values, d).value).Pass?
  {
    var d := if dtype.Some? then dtype.value else InferDtype(values);
    if !(values.Typed? || values.Arr? || values.Num? || values.Bool? || values.Str?) then
      Err(AssertionError("values must be a number, boolean, string, array or typed array"))
    else
      match InferShape(values, d)
      case Err(e) => Err(e)
      case Ok(inferred) =>
        var check := if shape.Some? then CheckProvidedShape(shape.value, inferred) else Pass;
        if check.Fail? then Err(check.error)
        else
          var wrapped := if values.Typed? || values.Arr? then values else Arr([values]);
          var finalShape := if shape.Some? then Dims(shape.value) else inferred;
          var converted := if d != StrType then ToTypedArray(wrapped, d) else Ok(Arr(Flatten(wrapped, true)));
          match converted
          case Err(e) => Err(e)
          case Ok(data) => Construct(engineSet, data, finalShape, d, handle)
  }

  /** Whatever shape was provided or inferred, a non-string tensor that is
      constructed holds exactly as many values as its size. */
  lemma NewSizeMatchesValues(engineSet: bool, values: JsValue, shape: Option<seq<real>>, dtype: Option<DType>, handle: nat)
    requires New(engineSet, values, shape, dtype, handle).Ok?
    ensures var t := New(engineSet, values, shape, dtype, handle).value;
      t.dtype != StrType ==> t.values.Typed? && |t.values.data| == t.size
  {
    var d := if dtype.Some? then dtype.value else InferDtype(values);
    var t := New(engineSet, values, shape, dtype, handle).value;
    if d != StrType {
      var inferred := InferShape(values, d).value;
      var wrapped := if values.Typed? || values.Arr? then values else Arr([values]);
      if values.Arr? {
        InferShapeSoundAndUnique(values, d, inferred);
        LeafCount(values, inferred);
      } else if values.Typed? {
        assert Product([|values.data|]) == |values.data|;
      } else {
        assert Leaves(values, false) == [values];
        assert LeavesFrom(wrapped, 1, false) == [];
        assert LeavesFrom(wrapped, 0, false) == Leaves(values, false) + LeavesFrom(wrapped, 1, false);
      }
    }
  }

  /** `Tensor.scalar(value, dtype)`: arrays, and typed arrays unless read as
      strings, are refused; an encoded string must be a `Uint8Array`; the
      shape is `[]`. */
  function Scalar(engineSet: bool, value: JsValue, dtype: Option<DType>, handle: nat): (r: Result<TensorValue>)
    ensures value.Arr? ==> r.Err?
    ensures value.Typed? && dtype != Some(StrType) ==> r.Err?
    ensures r.Ok? ==> r.value.shape == [] && r.value.size == 1 && r.value.rank == 0
  {
    if (value.Typed? && dtype != Some(StrType)) || value.Arr? then
      Err(AssertionError("value must be a number, boolean, string or Uint8Array"))
    else if dtype == Some(StrType) && value.Typed? && value.kind != Uint8 then
      Err(AssertionError("an encoded string must be a Uint8Array"))
    else New(engineSet, value, Some([]), dtype, handle)
  }

  /** An encoded string passes the checks of `Tensor.scalar` but is then
      wrapped in an array by `flatten`, which the constructor refuses. */
  lemma EncodedStringScalarRejected(bytes: seq<int>, handle: nat)
    ensures Scalar(true, Typed(Uint8, bytes), Some(StrType), handle).Err?
  {
    var v := Typed(Uint8, bytes);
    assert Flatten(v, true) == [v];
  }
}
