/** The `Tensor` class of src/tensors/Tensor.ts over the manager of
    src/tensors/TensorManager.ts. The module-level `_manager` is an
    `Option<Manager>`: `None` until `Tensor.setManager` is called. */
module TensorsTensor {
  import opened Wrappers
  import opened JsValues
  import opened Shapes
  import opened Records
  import opened TensorHelpers
  import M = TensorsTensorManager

  /** A constructed tensor: its handle and the metadata derived from its
      shape (strides in the rank−1 convention). */
  datatype TensorValue = TensorValue(handle: M.Handle, shape: seq<int>, dtype: DType, length: int, strides: seq<int>, rank: nat)

  /** The manager after an operation, with its result. */
  datatype Step<+T> = Step(manager: Option<M.Manager>, result: Result<T>)

  /** An accessor returned by `index`: the handle it reads and the view index
      it addresses. */
  datatype Accessor = Accessor(handle: M.Handle, viewIndex: int)

  /** The constructor: a manager must be set; length, strides and rank are
      derived from the shape, then the values are allocated. */
  function New(manager: Option<M.Manager>, values: JsValue, shape: seq<int>, dtype: DType): (r: Step<TensorValue>)
    requires manager.Some? ==> M.Valid(manager.value)
    ensures manager.None? ==> r.result.Err? && r.manager == manager
    ensures manager.Some? ==> r.result.Ok? && r.manager.Some? && M.Valid(r.manager.value)
    ensures r.result.Ok? ==> var t := r.result.value;
      && t.length == Product(shape) && t.strides == TrailingStrides(shape) && t.rank == |shape|
      && t.shape == shape && t.dtype == dtype
      && t.handle !in manager.value.registry && t.handle in r.manager.value.registry
  {
    if manager.None? then Step(manager, Err(AssertionError("no tensor manager is set")))
    else
      var (m, handle) := M.Allocate(manager.value, values, dtype);
      Step(Some(m), Ok(TensorValue(handle, shape, dtype, Product(shape), TrailingStrides(shape), |shape|)))
  }

  /** `tensor.index(index)`: views the tensor's record (which must be
      registered) and addresses element 0 whatever the index. */
  function Index(m: M.Manager, t: TensorValue, index: seq<int>): (r: Result<Accessor>)
    ensures r.Ok? <==> t.handle in m.registry
    ensures r.Ok? ==> r.value == Accessor(t.handle, 0)
  {
    match M.View(m, t.handle)
    case Err(e) => Err(e)
    case Ok(_) => Ok(Accessor(t.handle, 0))
  }

  /** The index argument is never consulted. */
  lemma IndexIgnoresArgument(m: M.Manager, t: TensorValue, i1: seq<int>, i2: seq<int>)
    ensures Index(m, t, i1) == Index(m, t, i2)
  {
  }

  /** The accessor's `get()`. */
  function Get(m: M.Manager, a: Accessor): (r: Option<int>)
    requires a.handle in m.registry
    ensures r.Some? <==> 0 <= a.viewIndex < |m.registry[a.handle].view.data|
    ensures r.Some? ==> r.value == m.registry[a.handle].view.data[a.viewIndex]
  {
    ViewGet(m.registry[a.handle].view, a.viewIndex)
  }

  /** The accessor's `set(value)`. */
  function Set(m: M.Manager, a: Accessor, value: int): (w: M.Manager)
    requires a.handle in m.registry
    ensures w.registry.Keys == m.registry.Keys
    ensures w.registry[a.handle].view == ViewSet(m.registry[a.handle].view, a.viewIndex, value)
  {
    M.SetElement(m, a.handle, a.viewIndex, value)
  }

  /** `set(v)` then `get()` gives back `v` as the view stores it when the
      view has an element 0; every tensor the stub allocator backs has none,
      so there `get()` gives `undefined` before and after. */
  lemma SetThenGet(m: M.Manager, t: TensorValue, index: seq<int>, value: int)
    requires Index(m, t, index).Ok?
    ensures var a := Index(m, t, index).value;
      var view := m.registry[t.handle].view;
      && (|view.data| > 0 ==> Get(Set(m, a, value), a) == Some(Store(view.kind, value)))
      && (view.data == [] ==> Get(Set(m, a, value), a).None? && Get(m, a).None?)
  {
  }

  /** `Tensor.new` followed by `index`: the new tensor's element 0 cannot be
      read, because the stub allocator gives it an empty view. */
  lemma NewTensorUnreadable(m: M.Manager, values: JsValue, shape: seq<int>, dtype: DType, index: seq<int>)
    requires M.Valid(m)
    ensures var s := New(Some(m), values, shape, dtype);
      var a := Index(s.manager.value, s.result.value, index);
      a.Ok? && Get(s.manager.value, a.value).None?
  {
  }

  /** `dtype || getDtype(values)`: an omitted or empty element type is
      inferred. */
  function ChooseDtype(dtype: Option<DType>, values: JsValue): (d: DType)
    ensures dtype.Some? && dtype.value != Other("") ==> d == dtype.value
    ensures dtype.None? || dtype == Some(Other("")) ==> d == InferDataTypeFixed(values)
  {
    if dtype.Some? && dtype.value != Other("") then dtype.value else InferDataTypeFixed(values)
  }

  /** `Tensor.fromScalar(value, dtype?)`: only a number, string or boolean
      is accepted; the shape is `[]`. */
  function FromScalar(manager: Option<M.Manager>, value: JsValue, dtype: Option<DType>): (r: Step<TensorValue>)
    requires manager.Some? ==> M.Valid(manager.value)
    ensures !(value.Num? || value.Str? || value.Bool?) ==> r.result.Err? && r.manager == manager
    ensures r.result.Ok? <==> manager.Some? && (value.Num? || value.Str? || value.Bool?)
    ensures r.result.Ok? ==>
      && r.result.value.shape == [] && r.result.value.length == 1
      && r.result.value.strides == [] && r.result.value.rank == 0
  {
    if !(IsNumber(value) || IsString(value) || IsBoolean(value)) then
      Step(manager, Err(AssertionError("value must be a number, string or boolean")))
    else New(manager, value, [], ChooseDtype(dtype, value))
  }

  /** `Tensor.fromArray(values, shape, dtype?)`: only a number array, an
      `Int32Array` or a `Float64Array` is accepted, and only a number array
      as shape; a number array is converted by `getTypedArray`, which
      requires the element type to be i32 or f64. */
  function FromArray(manager: Option<M.Manager>, values: JsValue, shape: JsValue, dtype: Option<DType>): (r: Step<TensorValue>)
    requires manager.Some? ==> M.Valid(manager.value)
    ensures !(IsNumberArray(values) || (values.Typed? && values.kind != Uint8)) ==> r.result.Err? && r.manager == manager
    ensures !IsNumberArray(shape) ==> r.result.Err? && r.manager == manager
    ensures r.result.Ok? ==>
      && IsNumberArray(shape) && r.result.value.shape == Numbers(shape)
      && r.result.value.length == Product(Numbers(shape))
      && (IsNumberArray(values) ==> r.result.value.dtype == I32 || r.result.value.dtype == F64)
  {
    if !(IsNumberArray(values) || (values.Typed? && values.kind == Int32) || (values.Typed? && values.kind == Float64)) then
      Step(manager, Err(AssertionError("values must be a number array, Int32Array or Float64Array")))
    else if !IsNumberArray(shape) then
      Step(manager, Err(AssertionError("shape must be a number array")))
    else
      var d := ChooseDtype(dtype, values);
      var converted := if IsNumberArray(values) then GetTypedArray(values, d) else Ok(values);
      match converted
      case Err(e) => Step(manager, Err(e))
      case Ok(typed) => New(manager, typed, Numbers(shape), d)
  }

  /** `fromScalar` keeps the manager's invariant and what every handle
      already registered reads; a new tensor's record reads as the stub's
      empty view. */
  lemma FromScalarKeepsReads(manager: Option<M.Manager>, value: JsValue, dtype: Option<DType>)
    requires manager.Some? ==> M.Valid(manager.value)
    ensures var r := FromScalar(manager, value, dtype);
      && (r.manager.Some? ==> M.Valid(r.manager.value))
      && (manager.Some? ==> r.manager.Some?)
      && (manager.Some? ==> forall h :: h in manager.value.registry ==>
            M.Read(r.manager.value, h) == M.Read(manager.value, h))
      && (r.result.Ok? ==> M.Read(r.manager.value, r.result.value.handle) == Ok(TypedView(Float64, [])))
  {
    var r := FromScalar(manager, value, dtype);
    if manager.Some? && (value.Num? || value.Str? || value.Bool?) {
      forall h | h in manager.value.registry
        ensures M.Read(r.manager.value, h) == M.Read(manager.value, h)
      {
        M.AllocateKeepsReads(manager.value, value, ChooseDtype(dtype, value), h);
      }
    }
  }

  /** `fromArray` keeps the manager's invariant and what every handle
      already registered reads; a new tensor's record reads as the stub's
      empty view. */
  lemma FromArrayKeepsReads(manager: Option<M.Manager>, values: JsValue, shape: JsValue, dtype: Option<DType>)
    requires manager.Some? ==> M.Valid(manager.value)
    ensures var r := FromArray(manager, values, shape, dtype);
      && (r.manager.Some? ==> M.Valid(r.manager.value))
      && (manager.Some? ==> r.manager.Some?)
      && (manager.Some? ==> forall h :: h in manager.value.registry ==>
            M.Read(r.manager.value, h) == M.Read(manager.value, h))
      && (r.result.Ok? ==> M.Read(r.manager.value, r.result.value.handle) == Ok(TypedView(Float64, [])))
  {
    var r := FromArray(manager, values, shape, dtype);
    if r.result.Ok? {
      var d := ChooseDtype(dtype, values);
      var typed := if IsNumberArray(values) then GetTypedArray(values, d).value else values;
      forall h | h in manager.value.registry
        ensures M.Read(r.manager.value, h) == M.Read(manager.value, h)
      {
        M.AllocateKeepsReads(manager.value, typed, d, h);
      }
    }
  }
}
