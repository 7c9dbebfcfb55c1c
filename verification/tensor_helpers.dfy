/** Helpers that src/Tensor.ts and src/tensors/Tensor.ts define identically:
    element-type inference (`getDataType` / `getDtype`) and the conversion of
    a number array to a typed array (`getTypedArray`). */
module TensorHelpers {
  import opened Wrappers
  import opened JsValues

  /** The branch chain applied to a value that is neither an array nor a
      typed array: `Float64Array` → f64, `Int32Array` → i32, a number → f64,
      anything else → f64. */
  function ScalarDataType(v: JsValue): DType
  {
    if v.Typed? && v.kind == Float64 then F64
    else if v.Typed? && v.kind == Int32 then I32
    else if v.Num? then F64
    else F64
  }

  /** `getDataType` / `getDtype` as written: arrays and typed arrays alike
      recurse on their element 0 before any typed-array test is made. */
  function InferDataType(v: JsValue): (d: DType)
    ensures d == I32 || d == F64
  {
    match v
    case Arr(items) => if |items| == 0 then ScalarDataType(Undefined) else InferDataType(items[0])
    case Typed(_, data) => if |data| == 0 then ScalarDataType(Undefined) else ScalarDataType(Num(data[0]))
    case _ => ScalarDataType(v)
  }

  /** Because every typed array is recursed into, the `Int32Array` test is
      never reached on a typed array: inference yields f64 for every value,
      an `Int32Array` included. */
  lemma {:induction false} InferDataTypeIsAlwaysF64(v: JsValue)
    ensures InferDataType(v) == F64
  {
    match v
    case Arr(items) =>
      if |items| > 0 {
        InferDataTypeIsAlwaysF64(items[0]);
      }
    case _ =>
  }

  /** Inference as evidently intended: a typed array keeps its own tag
      (`Int32Array` → i32, `Float64Array` → f64), an array infers from its
      element 0, a number and any other value give f64. */
  function InferDataTypeFixed(v: JsValue): (d: DType)
    ensures d == I32 || d == F64
  {
    match v
    case Arr(items) => if |items| == 0 then F64 else InferDataTypeFixed(items[0])
    case Typed(kind, _) => if kind == Int32 then I32 else F64
    case _ => F64
  }

  /** The corrected inference keeps an `Int32Array`'s tag, through any
      nesting of arrays whose first elements lead to it, where the inference
      as written reports f64. */
  lemma {:induction false} InferDataTypeFixedKeepsTag(v: JsValue, depth: nat, data: seq<int>)
    requires v == Nest(Typed(Int32, data), depth)
    ensures InferDataTypeFixed(v) == I32
    ensures InferDataType(v) == F64
  {
    InferDataTypeIsAlwaysF64(v);
    if depth > 0 {
      InferDataTypeFixedKeepsTag(Nest(Typed(Int32, data), depth - 1), depth - 1, data);
    }
  }

  /** `v` wrapped in `depth` one-element arrays. */
  function Nest(v: JsValue, depth: nat): JsValue
  {
    if depth == 0 then v else Arr([Nest(v, depth - 1)])
  }

  /** The typed-array kind a numeric element type is stored in. */
  function KindOf(dtype: DType): TypedKind
  {
    if dtype == I32 then Int32 else Float64
  }

  /** `getTypedArray(value, dtype)`: requires a number array and an element
      type of i32 or f64; returns an `Int32Array` or `Float64Array` of the
      same length holding the numbers as that array stores them. */
  function GetTypedArray(value: JsValue, dtype: DType): (r: Result<JsValue>)
    ensures r.Ok? <==> IsNumberArray(value) && (dtype == I32 || dtype == F64)
    ensures r.Ok? ==> r.value.Typed? && r.value.kind == KindOf(dtype) && |r.value.data| == |value.items|
    ensures r.Ok? ==> forall i :: 0 <= i < |value.items| ==>
      r.value.data[i] == (if dtype == I32 then ToInt32(value.items[i].n) else value.items[i].n)
  {
    if !IsNumberArray(value) then Err(AssertionError("value must be a number array"))
    else if dtype != I32 && dtype != F64 then Err(AssertionError("dtype must be i32 or f64"))
    else Ok(NewTypedArray(KindOf(dtype), Numbers(value)))
  }
}
