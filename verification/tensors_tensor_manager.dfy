/** `TensorManager` of src/tensors/TensorManager.ts: a registry from handles
    to records with asserting `read` and `view`. Handles are fresh natural
    numbers; the memory the manager creates is never used by its stub
    allocator, so it is not modelled. */
module TensorsTensorManager {
  import opened Wrappers
  import opened JsValues
  import opened Records

  type Handle = nat

  datatype Manager = Manager(registry: map<Handle, TensorRecord>, nextHandle: nat)

  datatype Allocation = Allocation(offset: int, length: int, view: TypedView)

  /** Every handle in use was minted before `nextHandle`. */
  predicate Valid(m: Manager)
  {
    forall h :: h in m.registry ==> h < m.nextHandle
  }

  function New(): (m: Manager)
    ensures Valid(m) && m.registry == map[]
  {
    Manager(map[], 0)
  }

  /** `allocateMemory(values, dtype)`: a placeholder returning offset 0,
      length 0 and an empty `Float64Array` whatever it is given. */
  function AllocateMemory(values: JsValue, dtype: DType): (a: Allocation)
    ensures a == Allocation(0, 0, TypedView(Float64, []))
  {
    Allocation(0, 0, TypedView(Float64, []))
  }

  /** The placeholder does not depend on its inputs. */
  lemma AllocateMemoryIgnoresInputs(v1: JsValue, d1: DType, v2: JsValue, d2: DType)
    ensures AllocateMemory(v1, d1) == AllocateMemory(v2, d2)
  {
  }

  /** `allocate(values, dtype)`: registers a fresh handle with a new record
      and leaves every other entry as it was. */
  function Allocate(m: Manager, values: JsValue, dtype: DType): (r: (Manager, Handle))
    requires Valid(m)
    ensures Valid(r.0)
    ensures r.1 !in m.registry && r.1 in r.0.registry
    ensures r.0.registry == m.registry[r.1 := r.0.registry[r.1]]
    ensures r.0.registry[r.1] == TensorRecord(0, 0, dtype, TypedView(Float64, []))
  {
    var a := AllocateMemory(values, dtype);
    var handle := m.nextHandle;
    (Manager(m.registry[handle := TensorRecord(a.offset, a.length, dtype, a.view)], m.nextHandle + 1), handle)
  }

  /** `read(handle)`: the record's view, for a registered handle only. */
  function Read(m: Manager, handle: Handle): (r: Result<TypedView>)
    ensures r.Ok? <==> handle in m.registry
    ensures r.Ok? ==> r.value == m.registry[handle].view
  {
    if handle !in m.registry then Err(AssertionError("handle is not managed by this tensor manager"))
    else Ok(m.registry[handle].view)
  }

  /** `view(handle)`: the same check and the same value as `read`. */
  function View(m: Manager, handle: Handle): (r: Result<TypedView>)
    ensures r.Ok? <==> handle in m.registry
    ensures r.Ok? ==> r.value == m.registry[handle].view
  {
    if handle !in m.registry then Err(AssertionError("handle is not managed by this tensor manager"))
    else Ok(m.registry[handle].view)
  }

  lemma ViewIsRead(m: Manager, handle: Handle)
    ensures View(m, handle) == Read(m, handle)
  {
  }

  /** Writes an element of a registered record's view: the record of the
      accessor `Tensor.index` hands out. */
  function SetElement(m: Manager, handle: Handle, i: int, value: int): (w: Manager)
    requires handle in m.registry
    ensures w.nextHandle == m.nextHandle && w.registry.Keys == m.registry.Keys
    ensures forall h :: h in m.registry && h != handle ==> w.registry[h] == m.registry[h]
    ensures w.registry[handle].view == ViewSet(m.registry[handle].view, i, value)
  {
    var record := m.registry[handle];
    Manager(m.registry[handle := record.(view := ViewSet(record.view, i, value))], m.nextHandle)
  }

  /** Allocating a handle leaves what every other handle reads unchanged. */
  lemma AllocateKeepsReads(m: Manager, values: JsValue, dtype: DType, h: Handle)
    requires Valid(m) && h in m.registry
    ensures Read(Allocate(m, values, dtype).0, h) == Read(m, h)
  {
  }
}
