/** `DataStorage<T>` of src/exclude/Kernel.ts: a map from tensor handles to
    kernel data, with a handle counter that `set` and `delete` bump without
    looking at the map. The data mover is a function parameter giving the
    storage after `moveData` has run. */
module KernelStorage {
  import opened Wrappers

  type Handle = nat

  datatype Storage<T> = Storage(data: map<Handle, T>, handlesCount: int)

  /** What `get` returns: the storage afterwards, the value looked up
      (`undefined` is `None`), and whether the mover was called. */
  datatype Lookup<T> = Lookup(storage: Storage<T>, value: Option<T>, moved: bool)

  function Empty<T>(): (s: Storage<T>)
    ensures s.data == map[] && s.handlesCount == 0
  {
    Storage(map[], 0)
  }

  /** `get(handle)`: a stored handle is looked up directly; otherwise the
      mover runs once and the handle is looked up in what it leaves. */
  function Get<T>(s: Storage<T>, handle: Handle, moveData: Storage<T> -> Storage<T>): (r: Lookup<T>)
    ensures handle in s.data ==> r == Lookup(s, Some(s.data[handle]), false)
    ensures handle !in s.data ==> r.moved && r.storage == moveData(s)
    ensures handle !in s.data ==>
      r.value == if handle in moveData(s).data then Some(moveData(s).data[handle]) else None
  {
    var after := if handle !in s.data then moveData(s) else s;
    var value := if handle in after.data then Some(after.data[handle]) else None;
    Lookup(after, value, handle !in s.data)
  }

  /** `set(handle, value)`: stores the value and counts one more handle,
      whether or not the handle was already stored. */
  function Set<T>(s: Storage<T>, handle: Handle, value: T): (w: Storage<T>)
    ensures Has(w, handle) && w.data[handle] == value
    ensures w.handlesCount == s.handlesCount + 1
    ensures forall h :: h != handle ==> (h in w.data <==> h in s.data)
    ensures forall h :: h != handle && h in s.data ==> w.data[h] == s.data[h]
  {
    Storage(s.data[handle := value], s.handlesCount + 1)
  }

  /** `has(handle)`: consults the map, never the counter. A handle it
      reports is one `get` serves without moving data, and one whose
      `delete` removes an entry. */
  predicate Has<T>(s: Storage<T>, handle: Handle): (b: bool)
    ensures b <==> !Get(s, handle, _ => s).moved
    ensures b ==> Get(s, handle, _ => s).value == Some(s.data[handle])
    ensures b <==> |Delete(s, handle).0.data.Keys| == |s.data.Keys| - 1
  {
    handle in s.data
  }

  /** `delete(handle)`: counts one handle fewer, whether or not the handle
      was stored, removes it, and reports whether it was stored. */
  function Delete<T>(s: Storage<T>, handle: Handle): (r: (Storage<T>, bool))
    ensures r.1 == (handle in s.data) && handle !in r.0.data
    ensures r.0.handlesCount == s.handlesCount - 1
    ensures forall h :: h != handle ==> (h in r.0.data <==> h in s.data)
    ensures forall h :: h != handle && h in s.data ==> r.0.data[h] == s.data[h]
  {
    (Storage(s.data - {handle}, s.handlesCount - 1), handle in s.data)
  }

  /** `numHandles()`: the counter, which matches the number of stored
      handles exactly when there is no drift. */
  function NumHandles<T>(s: Storage<T>): (n: int)
    ensures n == |s.data.Keys| <==> Drift(s) == 0
    ensures n - Drift(s) == |s.data.Keys|
  {
    s.handlesCount
  }

  /** How far the counter is from the true number of stored handles. */
  function Drift<T>(s: Storage<T>): int
  {
    s.handlesCount - |s.data.Keys|
  }

  /** A `set` on a fresh handle keeps the drift; a `set` on a stored handle
      raises it by one. */
  lemma SetDrift<T>(s: Storage<T>, handle: Handle, value: T)
    ensures Drift(Set(s, handle, value)) == Drift(s) + (if Has(s, handle) then 1 else 0)
  {
    if handle in s.data {
      assert Set(s, handle, value).data.Keys == s.data.Keys;
    } else {
      assert Set(s, handle, value).data.Keys == s.data.Keys + {handle};
    }
  }

  /** A `delete` of a stored handle keeps the drift; a `delete` of a missing
      handle lowers it by one. */
  lemma DeleteDrift<T>(s: Storage<T>, handle: Handle)
    ensures Drift(Delete(s, handle).0) == Drift(s) - (if Has(s, handle) then 0 else 1)
  {
    if handle in s.data {
      assert s.data.Keys == Delete(s, handle).0.data.Keys + {handle};
    } else {
      assert Delete(s, handle).0.data.Keys == s.data.Keys;
    }
  }

  /** A call of `set` or `delete`. */
  datatype Op<T> = SetOp(handle: Handle, value: T) | DeleteOp(handle: Handle)

  function Apply<T>(s: Storage<T>, op: Op<T>): Storage<T>
  {
    match op
    case SetOp(h, v) => Set(s, h, v)
    case DeleteOp(h) => Delete(s, h).0
  }

  /** The storage after a sequence of calls, in order. */
  function Run<T>(s: Storage<T>, ops: seq<Op<T>>): Storage<T>
    decreases |ops|
  {
    if |ops| == 0 then s else Run(Apply(s, ops[0]), ops[1..])
  }

  /** +1 for each `set` of a handle already stored, −1 for each `delete`
      of a handle not stored, at the moment of the call. */
  function Spurious<T>(s: Storage<T>, ops: seq<Op<T>>): int
    decreases |ops|
  {
    if |ops| == 0 then 0
    else
      var step := match ops[0]
        case SetOp(h, _) => if Has(s, h) then 1 else 0
        case DeleteOp(h) => if Has(s, h) then 0 else -1;
      step + Spurious(Apply(s, ops[0]), ops[1..])
  }

  /** `numHandles` ends up off from the true count by exactly the spurious
      calls made; with none, a counter that started right stays right. */
  lemma {:induction false} RunDrift<T>(s: Storage<T>, ops: seq<Op<T>>)
    ensures Drift(Run(s, ops)) == Drift(s) + Spurious(s, ops)
    ensures Drift(s) == 0 && Spurious(s, ops) == 0 ==> NumHandles(Run(s, ops)) == |Run(s, ops).data.Keys|
    decreases |ops|
  {
    if |ops| > 0 {
      RunDrift(Apply(s, ops[0]), ops[1..]);
      match ops[0]
      case SetOp(h, v) => SetDrift(s, h, v);
      case DeleteOp(h) => DeleteDrift(s, h);
    }
  }

  /** Setting the same handle twice counts two handles for one entry. */
  lemma DoubleSetDrifts<T>(handle: Handle, v1: T, v2: T)
    ensures var s := Set(Set(Empty<T>(), handle, v1), handle, v2);
      NumHandles(s) == 2 && |s.data.Keys| == 1
  {
    var s := Set(Set(Empty<T>(), handle, v1), handle, v2);
    assert s.data.Keys == {handle};
  }
}
