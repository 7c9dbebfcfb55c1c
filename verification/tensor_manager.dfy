/** `TensorManager` of src/TensorManager.ts: a registry from handles to
    records, with an element accessor computed from strides. A handle object
    `{}` is modelled as a fresh natural number. The memory the manager
    creates is never used by its stub allocator, so it is not modelled. */
module TensorManager {
  import opened Wrappers
  import opened JsValues
  import opened Shapes
  import opened Records

  type Handle = nat

  datatype Manager = Manager(registry: map<Handle, TensorRecord>, nextHandle: nat)

  /** An accessor returned by `index`: the record it reads and the element
      offset it addresses. */
  datatype Accessor = Accessor(handle: Handle, offset: int)

  /** What the stub `allocateMemory` returns. */
  datatype Allocation = Allocation(offset: int, length: int, view: TypedView)

  /** Every handle in use was minted before `nextHandle`. */
  predicate Valid(m: Manager)
  {
    forall h :: h in m.registry ==> h < m.nextHandle
  }

  function New(): (m: Manager)
    ensures Valid(m) && m.registry == map[]
  {
    Manager(map[], 0)
  }

  /** `allocateMemory(memory, values, dtype)`: a placeholder that ignores its
      inputs and returns offset 0, length 0 and an empty `Float64Array`. */
  function AllocateMemory(values: JsValue, dtype: DType): (a: Allocation)
    ensures a.offset == 0 && a.length == 0 && a.view == TypedView(Float64, [])
  {
    Allocation(0, 0, TypedView(Float64, []))
  }

  /** `allocate(values, dtype)`: mints a handle not yet in the registry and
      maps it to a new record; every other entry is kept. */
  function Allocate(m: Manager, values: JsValue, dtype: DType): (r: (Manager, Handle))
    requires Valid(m)
    ensures Valid(r.0)
    ensures r.1 !in m.registry && r.1 in r.0.registry
    ensures r.0.registry == m.registry[r.1 := r.0.registry[r.1]]
    ensures r.0.registry[r.1] == TensorRecord(0, 0, dtype, TypedView(Float64, []))
  {
    var a := AllocateMemory(values, dtype);
    var handle := m.nextHandle;
    (Manager(m.registry[handle := TensorRecord(a.offset, a.length, dtype, a.view)], m.nextHandle + 1), handle)
  }

  /** `index(handle, strides, index)`: the handle must be registered and the
      index must have one entry per stride; the accessor's offset is
      `Σ index[i] · strides[i]`, with no bounds check. */
  function Index(m: Manager, handle: Handle, strides: seq<int>, index: seq<int>): (r: Result<Accessor>)
    ensures r.Ok? <==> handle in m.registry && |strides| == |index|
    ensures r.Ok? ==> r.value.handle == handle && r.value.offset == Dot(index, strides)
  {
    if handle !in m.registry then Err(AssertionError("handle is not managed by this tensor manager"))
    else if |strides| != |index| then Err(AssertionError("strides and index must be the same length"))
    else Ok(Accessor(handle, Dot(index, strides)))
  }

  /** The accessor's `get()`: the record's view at the offset. */
  function Get(m: Manager, a: Accessor): (r: Option<int>)
    requires a.handle in m.registry
    ensures r.Some? <==> 0 <= a.offset < |m.registry[a.handle].view.data|
    ensures r.Some? ==> r.value == m.registry[a.handle].view.data[a.offset]
  {
    ViewGet(m.registry[a.handle].view, a.offset)
  }

  /** The accessor's `set(value)`: writes the record's view at the offset;
      every other record is untouched. */
  function Set(m: Manager, a: Accessor, value: int): (w: Manager)
    requires a.handle in m.registry
    ensures w.nextHandle == m.nextHandle && w.registry.Keys == m.registry.Keys
    ensures forall h :: h in m.registry && h != a.handle ==> w.registry[h] == m.registry[h]
    ensures w.registry[a.handle].view == ViewSet(m.registry[a.handle].view, a.offset, value)
  {
    var record := m.registry[a.handle];
    Manager(m.registry[a.handle := record.(view := ViewSet(record.view, a.offset, value))], m.nextHandle)
  }

  /** After `set(v)`, `get()` through any accessor of the same record sees
      `v` at that offset when it lies inside the view, and what it saw
      before everywhere else. */
  lemma GetAfterSetAccessor(m: Manager, a: Accessor, b: Accessor, value: int)
    requires a.handle in m.registry && b.handle in m.registry
    ensures var view := m.registry[a.handle].view;
      Get(Set(m, a, value), b)
        == if b == a && 0 <= a.offset < |view.data| then Some(Store(view.kind, value)) else Get(m, b)
  {
    GetAfterSet(m.registry[a.handle].view, a.offset, b.offset, value);
  }

  /** `read(handle)`: the record's view, for a registered handle only. */
  function Read(m: Manager, handle: Handle): (r: Result<TypedView>)
    ensures r.Ok? <==> handle in m.registry
    ensures r.Ok? ==> r.value == m.registry[handle].view
  {
    if handle !in m.registry then Err(AssertionError("handle is not managed by this tensor manager"))
    else Ok(m.registry[handle].view)
  }

  /** Every view a manager hands out has no elements. */
  predicate AllEmpty(m: Manager)
  {
    forall h :: h in m.registry ==> m.registry[h].view.data == []
  }

  /** With the stub allocator every record is empty, so every accessor reads
      nothing and every write through it is dropped. */
  lemma StubRecordsStayEmpty(m: Manager, values: JsValue, dtype: DType, a: Accessor, value: int)
    requires Valid(m) && AllEmpty(m)
    ensures AllEmpty(Allocate(m, values, dtype).0)
    ensures a.handle in m.registry ==> Get(m, a).None? && Set(m, a, value) == m
  {
    if a.handle in m.registry {
      assert m.registry[a.handle := m.registry[a.handle]] == m.registry;
    }
  }
}
