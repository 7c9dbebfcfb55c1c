/** The records the two tensor managers keep (src/TensorRecord.ts and
    src/tensors/TensorRecord.ts), and element access on the typed array a
    record holds. */
module Records {
  import opened Wrappers
  import opened JsValues

  /** An `Int32Array` or `Float64Array`, by kind and elements. */
  datatype TypedView = TypedView(kind: TypedKind, data: seq<int>)

  /** `TensorRecord`: byte offset and length in the manager's memory, the
      element type name, and the typed array over the tensor's elements. */
  datatype TensorRecord = TensorRecord(offset: int, length: int, dtype: DType, view: TypedView)

  /** `view[i]`: the element at an index inside the array, `undefined`
      (here `None`) anywhere else, negative indices included. */
  function ViewGet(view: TypedView, i: int): (r: Option<int>)
    ensures r.Some? <==> 0 <= i < |view.data|
    ensures r.Some? ==> r.value == view.data[i]
  {
    if 0 <= i < |view.data| then Some(view.data[i]) else None
  }

  /** `view[i] = x`: stores `x` as the array's kind stores it at an index
      inside the array; any other index is dropped without effect. */
  function ViewSet(view: TypedView, i: int, x: int): (w: TypedView)
    ensures w.kind == view.kind && |w.data| == |view.data|
    ensures 0 <= i < |view.data| ==> w.data[i] == Store(view.kind, x)
    ensures forall j :: 0 <= j < |view.data| && j != i ==> w.data[j] == view.data[j]
    ensures !(0 <= i < |view.data|) ==> w == view
  {
    if 0 <= i < |view.data| then TypedView(view.kind, view.data[i := Store(view.kind, x)]) else view
  }

  /** Reading an element just written gives the stored value; an element
      written outside the array stays unreadable. */
  lemma GetAfterSet(view: TypedView, i: int, j: int, x: int)
    ensures ViewGet(ViewSet(view, i, x), j)
      == if i == j && 0 <= i < |view.data| then Some(Store(view.kind, x)) else ViewGet(view, j)
  {
  }

  /** In a `Float64Array` an integer is stored as it is. */
  lemma Float64GetAfterSet(view: TypedView, i: int, x: int)
    requires view.kind == Float64 && 0 <= i < |view.data|
    ensures ViewGet(ViewSet(view, i, x), i) == Some(x)
  {
  }
}
