/** The `Tensor` class of src/Tensor.ts over its module-level registry and
    `TensorMemory`. A tensor's identity object `{}` is modelled as a fresh
    natural number; the registry (a `WeakMap`) as a map from ids to records.
    Heap contents are not modelled, so a view is known by its kind and
    element count only. Allocation goes through the corrected allocator
    `TensorMemory.AllocateFixed`. */
module Tensor {
  import opened Wrappers
  import opened JsValues
  import opened Shapes
  import TensorMemory
  import opened TensorHelpers

  type Id = nat

  /** `TensorRecord`: where a tensor's bytes live and how to read them. */
  datatype Record = Record(byteOffset: nat, byteLength: nat, dtype: DType)

  /** The module-level registry and memory, with the next unused id. */
  datatype Store = Store(memory: TensorMemory.Memory, registry: map<Id, Record>, nextId: nat)

  /** A typed array over a tensor's bytes: its kind and element count. */
  datatype View = View(kind: TypedKind, length: nat)

  /** A constructed tensor: its id and the metadata derived from its shape. */
  datatype TensorValue = TensorValue(id: Id, shape: seq<int>, dtype: DType, length: int, strides: seq<int>, rank: nat)

  /** The store after an operation, with its result. */
  datatype Step<+T> = Step(store: Store, result: Result<T>)

  function NewStore(): Store
  {
    Store(TensorMemory.New(), map[], 0)
  }

  /** Every id in use is below `nextId`; every non-empty record is still
      allocated with its own length; the memory keeps its invariant. */
  ghost predicate Valid(s: Store)
  {
    && TensorMemory.Valid(s.memory)
    && (forall id :: id in s.registry ==> id < s.nextId)
    && (forall id :: id in s.registry ==> s.registry[id].byteLength % ElementSize(s.registry[id].dtype) == 0)
    && (forall id :: id in s.registry && s.registry[id].byteLength > 0 ==>
          s.registry[id].byteOffset in s.memory.allocations
          && s.memory.allocations[s.registry[id].byteOffset] == s.registry[id].byteLength)
  }

  lemma NewStoreValid()
    ensures Valid(NewStore())
  {
    TensorMemory.NewValid();
  }

  /** `getSize(dtype)`: bytes per element, 4 for i32 and 8 otherwise. */
  function ElementSize(dtype: DType): (size: nat)
    ensures size == (if dtype == I32 then 4 else 8)
  {
    match dtype
    case I32 => 4
    case _ => 8
  }

  /** The typed array `read` builds for an element type. */
  function ViewKind(dtype: DType): TypedKind
  {
    if dtype == I32 then Int32 else Float64
  }

  /** The byte length `write` allocates: one element for a number, otherwise
      `values.length` elements (a string counts its UTF-16 code units); none when
      `values.length` is undefined, where the source computes NaN. */
  function ByteLength(values: JsValue, dtype: DType): (r: Option<nat>)
    ensures values.Num? ==> r == Some(ElementSize(dtype))
    ensures values.Typed? ==> r == Some(|values.data| * ElementSize(dtype))
    ensures values.Str? ==> r == Some(Utf16Length(values.s) * ElementSize(dtype))
    ensures values.Str? ==> r.value >= |values.s| * ElementSize(dtype)
    ensures r.None? <==> !(values.Num? || values.Typed? || values.Str? || values.Arr?)
    ensures r.Some? ==> r.value % ElementSize(dtype) == 0
  {
    match values
    case Num(_) => Some(ElementSize(dtype))
    case Str(s) => Some(Utf16Length(s) * ElementSize(dtype))
    case Typed(_, data) => Some(|data| * ElementSize(dtype))
    case Arr(items) => Some(|items| * ElementSize(dtype))
    case _ => None
  }

  /** `Tensor.write(values, dtype)`: allocates the byte length, records it
      under a fresh id and returns the id. The values themselves are never
      copied into the heap. */
  function Write(s: Store, values: JsValue, dtype: DType, growOk: bool): (w: Step<Id>)
    ensures w.result.Ok? ==> w.result.value == s.nextId && w.store.nextId == s.nextId + 1
    ensures w.result.Ok? ==> ByteLength(values, dtype).Some?
    ensures w.result.Ok? ==>
      && s.nextId in w.store.registry
      && w.store.registry[s.nextId].byteLength == ByteLength(values, dtype).value
      && w.store.registry[s.nextId].dtype == dtype
    ensures w.result.Ok? ==> forall id :: id != s.nextId ==>
      && (id in w.store.registry <==> id in s.registry)
      && (id in s.registry ==> w.store.registry[id] == s.registry[id])
    ensures w.result.Err? ==> w.store == s
  {
    match ByteLength(values, dtype)
    case None => Step(s, Err(RangeError("byte length is NaN")))
    case Some(byteLength) =>
      var a := TensorMemory.AllocateFixed(s.memory, byteLength, growOk);
      match a.result
      case Err(e) => Step(s, Err(e))
      case Ok(byteOffset) =>
        var record := Record(byteOffset, byteLength, dtype);
        Step(Store(a.memory, s.registry[s.nextId := record], s.nextId + 1), Ok(s.nextId))
  }

  /** The stored record depends on the values only through their count:
      two value arrays of the same length are written identically. */
  lemma WriteIgnoresContents(s: Store, v1: JsValue, v2: JsValue, dtype: DType, growOk: bool)
    requires ByteLength(v1, dtype) == ByteLength(v2, dtype)
    ensures Write(s, v1, dtype, growOk) == Write(s, v2, dtype, growOk)
  {
  }

  /** `write` keeps the store's invariant; its id was not in use. */
  lemma WriteKeepsValid(s: Store, values: JsValue, dtype: DType, growOk: bool)
    requires Valid(s)
    ensures Valid(Write(s, values, dtype, growOk).store)
    ensures Write(s, values, dtype, growOk).result.Ok? ==> s.nextId !in s.registry
  {
    var w := Write(s, values, dtype, growOk);
    if w.result.Ok? {
      var n := ByteLength(values, dtype).value;
      var a := TensorMemory.AllocateFixed(s.memory, n, growOk);
      TensorMemory.AllocateFixedKeepsValid(s.memory, n, growOk);
      forall id | id in w.store.registry && w.store.registry[id].byteLength > 0
        ensures w.store.registry[id].byteOffset in w.store.memory.allocations
        ensures w.store.memory.allocations[w.store.registry[id].byteOffset] == w.store.registry[id].byteLength
      {
        if id != s.nextId {
          var p := s.registry[id].byteOffset;
          TensorMemory.AllocateFixedFreshOffset(s.memory, n, growOk, p);
        }
      }
    }
  }

  /** `Tensor.read(id)`: nothing for an unknown id; otherwise the recorded
      range's bytes, asserted to be exactly the recorded length, viewed as
      an `Int32Array` for i32 and a `Float64Array` for anything else. */
  function Read(s: Store, id: Id): (r: Result<Option<View>>)
    ensures id !in s.registry ==> r == Ok(None)
    ensures r.Ok? && r.value.Some? ==>
      && id in s.registry
      && r.value.value.kind == ViewKind(s.registry[id].dtype)
      && r.value.value.length * ElementSize(s.registry[id].dtype) == s.registry[id].byteLength
  {
    if id !in s.registry then Ok(None)
    else
      var record := s.registry[id];
      match TensorMemory.Buffer(s.memory, record.byteOffset)
      case Err(e) => Err(e)
      case Ok(size) =>
        if size != record.byteLength then Err(AssertionError("buffer length differs from the record"))
        else if size % ElementSize(record.dtype) != 0 then Err(RangeError("byte length is not a multiple of the element size"))
        else Ok(Some(View(ViewKind(record.dtype), record.byteLength / ElementSize(record.dtype))))
  }

  /** Every registered non-empty tensor reads back as a view with as many
      elements as were written. */
  lemma ReadRegistered(s: Store, id: Id)
    requires Valid(s) && id in s.registry && s.registry[id].byteLength > 0
    ensures var rec := s.registry[id];
      Read(s, id) == Ok(Some(View(ViewKind(rec.dtype), rec.byteLength / ElementSize(rec.dtype))))
  {
    var rec := s.registry[id];
    assert TensorMemory.Within(TensorMemory.Used(s.memory, rec.byteOffset), s.memory.HeapLength());
  }

  /** A written non-empty value array reads back as a view of its length. */
  lemma ReadAfterWrite(s: Store, values: JsValue, dtype: DType, growOk: bool)
    requires Valid(s) && (values.Typed? || values.Arr?) && Length(values) > 0
    requires Write(s, values, dtype, growOk).result.Ok?
    ensures var w := Write(s, values, dtype, growOk);
      Read(w.store, w.result.value) == Ok(Some(View(ViewKind(dtype), Length(values))))
  {
    var w := Write(s, values, dtype, growOk);
    WriteKeepsValid(s, values, dtype, growOk);
    ReadRegistered(w.store, w.result.value);
  }

  /** An empty tensor is recorded with length 0 at the start of the first
      free block; the next write reuses that offset, so reading the empty
      tensor fails its length assertion. */
  lemma EmptyTensorReadFails()
    ensures var w1 := Write(NewStore(), Typed(Float64, []), F64, true);
      var w2 := Write(w1.store, Num(1), F64, true);
      && w1.result == Ok(0) && w2.result == Ok(1)
      && Read(w2.store, 0).Err?
  {
    var w1 := Write(NewStore(), Typed(Float64, []), F64, true);
    assert TensorMemory.FirstFit(NewStore().memory.chain, 0) == Some(0);
    assert w1.store.memory.chain == [TensorMemory.Block(0, TensorMemory.PAGE_SIZE)];
    var w2 := Write(w1.store, Num(1), F64, true);
    assert TensorMemory.FirstFit(w1.store.memory.chain, 8) == Some(0);
    assert w2.store.memory.allocations == map[0 := 8];
  }

  /** The private constructor: length, strides and rank are derived from the
      shape, then the values are written. */
  function New(s: Store, values: JsValue, shape: seq<int>, dtype: DType, growOk: bool): (r: Step<TensorValue>)
    ensures r.result.Ok? ==> var t := r.result.value;
      && t.length == Product(shape) && t.strides == FullStrides(shape) && t.rank == |shape|
      && t.shape == shape && t.dtype == dtype
      && t.id == s.nextId && t.id in r.store.registry
      && r.store.registry[t.id].dtype == dtype
    ensures r.result.Ok? ==>
      && ByteLength(values, dtype).Some?
      && r.store.registry[r.result.value.id].byteLength == ByteLength(values, dtype).value
    ensures r.result.Err? ==> r.store == s
  {
    var w := Write(s, values, dtype, growOk);
    match w.result
    case Err(e) => Step(w.store, Err(e))
    case Ok(id) => Step(w.store, Ok(TensorValue(id, shape, dtype, Product(shape), FullStrides(shape), |shape|)))
  }

  /** `Tensor.fromScalar(value, dtype?)`: only a number, string or boolean
      is accepted; a missing element type is inferred; the shape is `[]`. */
  function FromScalar(s: Store, value: JsValue, dtype: Option<DType>, growOk: bool): (r: Step<TensorValue>)
    ensures !(value.Num? || value.Str? || value.Bool?) ==> r.result.Err? && r.store == s
    ensures r.result.Ok? ==>
      && r.result.value.shape == [] && r.result.value.length == 1
      && r.result.value.strides == [] && r.result.value.rank == 0
    ensures r.result.Ok? && value.Num? ==>
      && r.result.value.id in r.store.registry
      && r.store.registry[r.result.value.id].byteLength == ElementSize(r.result.value.dtype)
  {
    if !(IsNumber(value) || IsString(value) || IsBoolean(value)) then
      Step(s, Err(AssertionError("value must be a number, string or boolean")))
    else
      var d := if dtype.Some? then dtype.value else InferDataTypeFixed(value);
      New(s, value, [], d, growOk)
  }

  /** `Tensor.fromArray(values, shape, dtype?)`: only a number array, an
      `Int32Array` or a `Float64Array` is accepted, and only a number array
      as shape; a number array is first converted by `getTypedArray`. The
      shape is not checked against the number of values. */
  function FromArray(s: Store, values: JsValue, shape: JsValue, dtype: Option<DType>, growOk: bool): (r: Step<TensorValue>)
    ensures !(IsNumberArray(values) || (values.Typed? && values.kind != Uint8)) ==> r.result.Err? && r.store == s
    ensures !IsNumberArray(shape) ==> r.result.Err? && r.store == s
    ensures r.result.Ok? ==>
      && IsNumberArray(shape) && r.result.value.shape == Numbers(shape)
      && r.result.value.id in r.store.registry
      && r.store.registry[r.result.value.id].byteLength == Length(values) * ElementSize(r.result.value.dtype)
  {
    if !(IsNumberArray(values) || (values.Typed? && values.kind == Int32) || (values.Typed? && values.kind == Float64)) then
      Step(s, Err(AssertionError("values must be a number array, Int32Array or Float64Array")))
    else if !IsNumberArray(shape) then
      Step(s, Err(AssertionError("shape must be a number array")))
    else
      var d := if dtype.Some? then dtype.value else InferDataTypeFixed(values);
      var converted := if IsNumberArray(values) then GetTypedArray(values, d) else Ok(values);
      match converted
      case Err(e) => Step(s, Err(e))
      case Ok(typed) => New(s, typed, Numbers(shape), d, growOk)
  }

  /** `fromScalar` keeps the store's invariant; a number reads back as a
      one-element view, and a non-empty string as a view of one element per
      UTF-16 code unit. */
  lemma FromScalarKeepsValid(s: Store, value: JsValue, dtype: Option<DType>, growOk: bool)
    requires Valid(s)
    ensures var r := FromScalar(s, value, dtype, growOk);
      && Valid(r.store)
      && (r.result.Ok? && value.Num? ==>
            Read(r.store, r.result.value.id) == Ok(Some(View(ViewKind(r.result.value.dtype), 1))))
      && (r.result.Ok? && value.Str? && |value.s| > 0 ==>
            Read(r.store, r.result.value.id) == Ok(Some(View(ViewKind(r.result.value.dtype), Utf16Length(value.s)))))
  {
    var r := FromScalar(s, value, dtype, growOk);
    if value.Num? || value.Str? || value.Bool? {
      var d := if dtype.Some? then dtype.value else InferDataTypeFixed(value);
      WriteKeepsValid(s, value, d, growOk);
      if r.result.Ok? && (value.Num? || (value.Str? && |value.s| > 0)) {
        var count := if value.Num? then 1 else Utf16Length(value.s);
        ScaleBack(count, d);
        ReadRegistered(r.store, r.result.value.id);
      }
    }
  }

  /** `fromArray` keeps the store's invariant, and a non-empty array reads
      back as a view of as many elements as were given. */
  lemma FromArrayKeepsValid(s: Store, values: JsValue, shape: JsValue, dtype: Option<DType>, growOk: bool)
    requires Valid(s)
    ensures var r := FromArray(s, values, shape, dtype, growOk);
      && Valid(r.store)
      && (r.result.Ok? && Length(values) > 0 ==>
            Read(r.store, r.result.value.id) == Ok(Some(View(ViewKind(r.result.value.dtype), Length(values)))))
  {
    var r := FromArray(s, values, shape, dtype, growOk);
    if (IsNumberArray(values) || (values.Typed? && values.kind != Uint8)) && IsNumberArray(shape) {
      var d := if dtype.Some? then dtype.value else InferDataTypeFixed(values);
      var converted := if IsNumberArray(values) then GetTypedArray(values, d) else Ok(values);
      if converted.Ok? {
        var typed := converted.value;
        WriteKeepsValid(s, typed, d, growOk);
        if r.result.Ok? && Length(values) > 0 {
          assert Length(typed) == Length(values);
          ReadAfterWrite(s, typed, d, growOk);
        }
      }
    }
  }

  /** `tensor.index(index)`: the index must have one entry per stride; an
      unregistered tensor gives nothing; otherwise the element at
      `Σ index[i] · strides[i]` is read, and a position outside the view
      gives nothing (there is no bounds check of the index itself). The
      result is the position read. */
  function Index(s: Store, t: TensorValue, index: seq<int>): (r: Result<Option<int>>)
    ensures |index| != |t.strides| ==> r.Err?
    ensures |index| == |t.strides| && t.id !in s.registry ==> r == Ok(None)
    ensures r.Ok? && r.value.Some? ==> r.value.value == Dot(index, t.strides)
  {
    if |t.strides| != |index| then Err(AssertionError("strides and index must be the same length"))
    else
      match Read(s, t.id)
      case Err(e) => Err(e)
      case Ok(None) => Ok(None)
      case Ok(Some(view)) =>
        var offset := Dot(index, t.strides);
        if 0 <= offset < view.length then Ok(Some(offset)) else Ok(None)
  }

  /** For a tensor holding exactly as many elements as its shape says, an
      in-bounds index reads the element at its row-major position. */
  lemma IndexInBounds(s: Store, t: TensorValue, shape: seq<nat>, index: seq<int>)
    requires Valid(s) && t.id in s.registry && t.shape == shape
    requires t.strides == FullStrides(shape) && |shape| == |t.strides|
    requires s.registry[t.id].byteLength == Product(shape) * ElementSize(s.registry[t.id].dtype)
    requires InBounds(index, shape)
    ensures Index(s, t, index) == Ok(Some(Flat(index, shape)))
  {
    var rec := s.registry[t.id];
    var n := Product(shape);
    FlatInRange(index, shape);
    DotFullStridesIsFlat(index, shape);
    ScaleBack(n, rec.dtype);
    ReadRegistered(s, t.id);
    assert Read(s, t.id) == Ok(Some(View(ViewKind(rec.dtype), n)));
  }

  /** Multiplying a positive element count by an element size and dividing
      back gives the count, and the product stays positive. */
  lemma ScaleBack(n: int, dtype: DType)
    requires n > 0
    ensures n * ElementSize(dtype) > 0 && (n * ElementSize(dtype)) / ElementSize(dtype) == n
  {
    if dtype == I32 {
      assert n * 4 == 4 * n;
    } else {
      assert n * 8 == 8 * n;
    }
  }
}
