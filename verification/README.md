# math-core tensor storage, in Dafny

This project models the tensor storage layer of exomath/math-core. The
source has three successive iterations of it. Around them sit two small
registries and two stateful expression-tree nodes.

- **The first-fit allocator of `src/Tensor.ts`.**
  - `TensorMemory` keeps a chain of free blocks over a WebAssembly heap that
    grows in 64 KiB pages, plus a map from each allocated start offset to its
    byte length.
  - The `Tensor` class around it records every tensor's byte range in a
    registry and indexes its elements with row-major strides.
  - The allocator is modelled twice:
    - as written, where three defects show up (see Findings);
    - corrected, with its invariant proved: free blocks and allocations are
      pairwise disjoint and lie inside the heap. The `Tensor` layer uses the
      corrected allocator.
- **The tensor front end of `src/exclude/Tensor.ts`.** It covers:
  - recursive flattening;
  - shape inference and the deep shape-consistency check;
  - the provided-versus-inferred shape check of `Tensor.new`;
  - element-type inference and the conversion to typed arrays.

  All of these are pure functions over a JavaScript value datatype
  (`JsValues.JsValue`).
- **The later iterations.** These are `src/tensors/Tensor.ts` and the two
  `TensorManager`s. Each manager is a registry from handles to records, and
  its allocator is a stub that hands out empty views.
- **`DataStorage` of `src/exclude/Kernel.ts`.** A map plus a handle counter
  that drifts from the true number of entries.
- **The `Engine` kernel registry of `src/exclude/Engine.ts`.**
- **`EqualityNode` and `ResultNode`.** Expression-tree nodes with a
  three-valued action and a nullable result slot.

Modules follow the source:

- `Wrappers`: errors, `Result`, `Outcome`, `Option`.
- `JsValues`: JavaScript values, element types, typed-array coercion.
- `Shapes`: sizes, both stride conventions, flat offsets.
- `TensorMemory`.
- `TensorHelpers`: `getDataType` / `getDtype` and `getTypedArray`, which
  `src/Tensor.ts` and `src/tensors/Tensor.ts` share verbatim.
- `Tensor`.
- `ExcludeTensor`.
- `Records`.
- `TensorManager`.
- `TensorsTensorManager`.
- `TensorsTensor`.
- `KernelStorage`.
- `Engine`.
- `EqualityNode`.
- `ResultNode`.

A thrown assertion becomes an `Err` result, or a `Fail` outcome. A mutable
object becomes a state value that each operation returns updated. A fresh
`{}` used as an identity becomes a fresh natural number.

## Model

| member | source | states |
|---|---|---|
| Shapes.GetLength | src/Tensor.ts:341-343 | the reduce over the shape is the product of all dimensions, and 1 for the empty shape; `getSize` (src/exclude/Tensor.ts:214-218) and `getLength` (src/tensors/Tensor.ts:159-161) are the same reduce |
| Shapes.ProductZeroIff | src/Tensor.ts:341-343 | a shape has no elements exactly when one of its dimensions is 0 |
| Shapes.GetFullStrides | src/Tensor.ts:359-379 | the loop's strides have one entry per axis, the last being 1 and each earlier one the product of the dimensions after it |
| Shapes.GetTrailingStrides | src/exclude/Tensor.ts:220-237 | no strides below rank 2; otherwise rank−1 strides, the last being the last dimension and each the product of the dimensions after its axis (the same function is src/tensors/Tensor.ts:163-180) |
| Shapes.StrideConventions | src/tensors/Tensor.ts:163-180 | the rank−1 strides are the full strides of src/Tensor.ts with the final stride of 1 dropped |
| Shapes.Offset | src/TensorManager.ts:40-44 | the accumulation loop yields `Σ index[i]·strides[i]` |
| Shapes.DotFullStridesIsFlat | src/Tensor.ts:220-226 | dotting an index with the full strides gives its row-major position |
| Shapes.FlatInRange | src/Tensor.ts:220-226 | an index with `0 ≤ index[i] < shape[i]` addresses an element below the tensor's length |
| Shapes.FlatInjective | src/Tensor.ts:359-379 | distinct in-bounds indices address distinct elements under the full strides |
| TensorMemory.FirstFit | src/Tensor.ts:145-157 | the returned block is the first in chain order at least `n` long, and every earlier block is shorter; none is returned exactly when no block is long enough |
| TensorMemory.Allocate | src/Tensor.ts:104-131 | as written: with a non-empty chain it always succeeds; it records the returned offset with length `n`, and it grows at most one page, only when the grow succeeds |
| TensorMemory.Split | src/Tensor.ts:121-126 | as written, the remaining block starts `n` bytes later and gets length minus its old start, negative for any block not at offset 0 |
| TensorMemory.AllocateWithoutGrowth | src/Tensor.ts:119-130 | off the grow path, the first fitting block's start is returned and recorded; an exact fit removes the block; otherwise the block advances by `n` and, as written, gets the length minus its old start |
| TensorMemory.AllocateGrowPath | src/Tensor.ts:107-117 | on the grow path, the first block's start is returned, and the heap grows by one page if the grow succeeds and by none if it fails |
| TensorMemory.SplitLosesRemainder | src/Tensor.ts:121-126 | the first 16-byte allocation leaves a zero-length free block instead of 65520 free bytes, so the second one grows the heap |
| TensorMemory.GrowPathOverlaps | src/Tensor.ts:107-117 | a sequence of allocate, free, allocate, allocate ends with two allocated ranges that overlap, because the grow path stretches a freed block that is not at the heap end |
| TensorMemory.GrowShortfall | src/Tensor.ts:107-117 | a request larger than one page is recorded past the heap end, and `buffer` then returns fewer bytes than recorded; a failed grow still returns an offset |
| TensorMemory.AllocateFixed | src/Tensor.ts:104-131 | the corrected allocator: a failure changes nothing, success records the returned offset with length `n`, and the heap never shrinks |
| TensorMemory.AllocateFixedKeepsValid | src/Tensor.ts:101-131 | the corrected allocator preserves the invariant: free blocks and allocations are pairwise disjoint, lie inside the heap, and the first block ends at the heap end; it fails only when the grow fails, and a returned range lies inside the heap |
| TensorMemory.AllocateFixedFreshOffset | src/Tensor.ts:119-130 | the corrected allocator never returns the start of a live non-empty allocation |
| TensorMemory.AllocateFixedReuses | src/Tensor.ts:119-130 | a request that fits a block, other than an exactly-fitting first block, is served from the first such block without growing |
| TensorMemory.NewValid | src/Tensor.ts:96-102 | a new memory, one page with one free block covering it, satisfies the invariant |
| TensorMemory.Free | src/Tensor.ts:159-171 | `free(o)` succeeds exactly when `o` is allocated; it adds a free block of the recorded length, forgets `o` and keeps every other allocation |
| TensorMemory.FreeTwiceFails | src/Tensor.ts:159-171 | a second `free` of the same offset fails |
| TensorMemory.FreeKeepsValid | src/Tensor.ts:159-171 | freeing a live allocation preserves the invariant |
| TensorMemory.Buffer | src/Tensor.ts:133-143 | `buffer(o)` succeeds exactly when `o` is allocated; it returns the recorded length when the range lies in the heap, and fewer bytes (the slice is cut at the heap end) otherwise |
| TensorMemory.SliceLength | src/Tensor.ts:142 | the slice of a buffer copies the requested length when the range fits, only the bytes up to the buffer end when it overhangs, and nothing when it starts past the end |
| TensorMemory.BufferAfterAllocateFixed | src/Tensor.ts:133-143 | a range the corrected allocator hands out is returned whole by `buffer` |
| TensorHelpers.InferDataType | src/Tensor.ts:321-339 | as written, inference only ever names i32 or f64 (the same function is src/tensors/Tensor.ts:139-157) |
| TensorHelpers.InferDataTypeIsAlwaysF64 | src/Tensor.ts:321-339 | as written, element-type inference yields f64 for every value, an `Int32Array` included (the same function is src/tensors/Tensor.ts:139-157) |
| TensorHelpers.InferDataTypeFixed | src/Tensor.ts:321-339 | corrected inference only ever yields i32 or f64 |
| TensorHelpers.InferDataTypeFixedKeepsTag | src/tensors/Tensor.ts:139-157 | the corrected inference reports i32 for an `Int32Array`, even nested at the head of arrays, where the inference as written reports f64 |
| TensorHelpers.GetTypedArray | src/tensors/Tensor.ts:186-199 | succeeds exactly for a number array with element type i32 or f64; the result is an `Int32Array` or `Float64Array` of the same length holding each number as that array stores it (wrapped to 32 bits for i32); the same function is src/Tensor.ts:381-394 |
| JsValues.ToInt32 | src/tensors/Tensor.ts:194 | storing into an `Int32Array` yields a signed 32-bit value congruent to the input modulo 2^32 |
| JsValues.Store | src/tensors/Tensor.ts:193-197 | an `Int32Array` stores a signed 32-bit value congruent to the number modulo 2^32, a `Float64Array` the number itself, a `Uint8Array` the number modulo 256 |
| JsValues.Utf16Length | src/Tensor.ts:298 | a string's `length` counts UTF-16 code units: between its character count and twice that, equal to the character count exactly when no character lies above U+FFFF, and twice it exactly when every one does |
| Tensor.ByteLength | src/Tensor.ts:298 | at `getSize` bytes per element (4 for i32, 8 for anything else), a number takes one element, a string one element per UTF-16 code unit (two for a character above U+FFFF), a typed array or array one per element; a value without a length has none (NaN in the source); the byte length is a multiple of the element size |
| Tensor.Write | src/Tensor.ts:295-308 | allocating through the corrected allocator, a fresh id is returned and recorded with the byte length and element type; every other registry entry is unchanged; on failure nothing changes |
| Tensor.WriteIgnoresContents | src/Tensor.ts:295-308 | values with the same byte length are written identically: their contents are never copied |
| Tensor.WriteKeepsValid | src/Tensor.ts:295-308 | with the corrected allocator, `write` keeps every record's range allocated with its own length; the id it mints was not in use |
| Tensor.Read | src/Tensor.ts:269-293 | an unknown id reads as nothing; a view read has the record's kind (`Int32Array` for i32, else `Float64Array`) and exactly the record's byte length |
| Tensor.ReadRegistered | src/Tensor.ts:269-293 | with the corrected allocator, every registered non-empty tensor passes the length assertion and reads as a view of its byte length over its element size |
| Tensor.ReadAfterWrite | src/Tensor.ts:269-308 | with the corrected allocator, a written non-empty array reads back as a view with as many elements as were written |
| Tensor.EmptyTensorReadFails | src/Tensor.ts:269-308 | an empty tensor shares its offset with the next tensor written, so reading it fails the length assertion |
| Tensor.New | src/Tensor.ts:193-203 | the constructor's length is the product of the shape, its strides are the full strides, its rank the shape's length, and its id the freshly written record of the values' byte length |
| Tensor.FromScalar | src/Tensor.ts:237-249 | anything but a number, string or boolean is refused with the store unchanged; the tensor has shape `[]`, length 1, no strides, rank 0; a number takes one element |
| Tensor.FromArray | src/Tensor.ts:251-267 | values other than a number array, `Int32Array` or `Float64Array` are refused, and so is a shape that is not a number array; the tensor has the given shape and a record of one element per value; a missing element type is inferred with the corrected inference |
| Tensor.FromScalarKeepsValid | src/Tensor.ts:237-249 | with the corrected allocator, `fromScalar` keeps the store's invariant, and a number reads back as a one-element view, a non-empty string as a view of one element per UTF-16 code unit |
| Tensor.FromArrayKeepsValid | src/Tensor.ts:251-267 | with the corrected allocator, `fromArray` keeps the store's invariant, and a non-empty array reads back as a view of as many elements as were given |
| Tensor.Index | src/Tensor.ts:205-227 | an index of the wrong length fails; an unregistered tensor gives nothing; a position read is `Σ index[i]·strides[i]` |
| Tensor.IndexInBounds | src/Tensor.ts:205-227 | with the corrected allocator, for a tensor holding as many elements as its shape, an in-bounds index reads the element at its row-major position |
| ExcludeTensor.Flatten | src/exclude/Tensor.ts:196-212 | the result is the leaves of the input, depth first and left to right, with typed arrays kept whole when skipped; a non-array input yields itself alone |
| ExcludeTensor.FlattenAppendsLeaves | src/exclude/Tensor.ts:196-212 | flattening onto a result appends exactly the input's leaves to it |
| ExcludeTensor.CheckDeep | src/exclude/Tensor.ts:162-186 | a primitive passes exactly against the empty shape; an array or typed array that passes has `shape[0]` elements, and each array element passes against the rest of the shape |
| ExcludeTensor.CheckDeepIff | src/exclude/Tensor.ts:162-186 | the deep check passes exactly when every array at depth d has `shape[d]` elements and primitives sit exactly at depth `|shape|` |
| ExcludeTensor.LeafCount | src/exclude/Tensor.ts:162-212 | a value that passes the deep check flattens to exactly as many leaves as the shape's size |
| ExcludeTensor.FirstPath | src/exclude/Tensor.ts:274-278 | the first-element path is empty exactly when the value is not entered, and otherwise starts with the value's length |
| ExcludeTensor.InferShape | src/exclude/Tensor.ts:259-285 | a typed array gives `[length]` (`[]` for strings), a scalar `[]`, and an array its first-element path, accepted exactly when the deep check passes on it |
| ExcludeTensor.InferShapeSoundAndUnique | src/exclude/Tensor.ts:259-285 | the inferred shape is a shape the value has, and for a non-string element type it is the only shape without empty leading dimensions that the value has |
| ExcludeTensor.EncodedStringArrayRejected | src/exclude/Tensor.ts:259-285 | an array of encoded strings read with element type str fails the deep check |
| ExcludeTensor.CheckDims | src/exclude/Tensor.ts:188-194 | passes exactly when every dimension is a non-negative integer |
| ExcludeTensor.CheckAgreement | src/exclude/Tensor.ts:119-128 | passes exactly when every inferred dimension equals the provided one, or is the last one and equals the size of the provided dimensions from there on |
| ExcludeTensor.CheckProvidedShape | src/exclude/Tensor.ts:109-129 | a provided shape passes exactly when its dimensions are non-negative integers, its size equals the inferred size, and every dimension agrees |
| ExcludeTensor.SameShapeAccepted | src/exclude/Tensor.ts:109-129 | a provided shape equal to the inferred one is accepted |
| ExcludeTensor.FlatShapeAccepted | src/exclude/Tensor.ts:109-129 | a flat inferred shape is accepted under any provided shape of the same size |
| ExcludeTensor.TransposedShapeRejected | src/exclude/Tensor.ts:109-129 | a provided shape `[3, 2]` is rejected for a value of shape `[2, 3]` |
| ExcludeTensor.InferDtype | src/exclude/Tensor.ts:239-257 | inference always names one of i32, f64, bool or str |
| ExcludeTensor.InferDtypeIsFirstLeaf | src/exclude/Tensor.ts:239-257 | on a value with no empty array on the way down, the inferred type is that of the first leaf when typed arrays are kept whole |
| ExcludeTensor.LeafNumbers | src/exclude/Tensor.ts:318-331 | the leaves convert exactly when each is a number or boolean, into one number per leaf |
| ExcludeTensor.ToTypedArray | src/exclude/Tensor.ts:293-335 | str and unknown element types are refused; a typed array already of the requested tag is returned as it is; otherwise the result has the requested tag and one element per leaf, holding each leaf's or element's number for f64, that number wrapped to 32 bits for i32, and 1 exactly where the leaf or element is nonzero (0 elsewhere) for bool |
| ExcludeTensor.Construct | src/exclude/Tensor.ts:71-86 | the constructor succeeds exactly when an engine is set and the values are a typed array or an array whose element 0 is a string; size, strides (rank−1) and rank come from the shape |
| ExcludeTensor.New | src/exclude/Tensor.ts:92-141 | values that are not a number, boolean, string, array or typed array are refused; a provided shape that is accepted consists of non-negative integers, has been checked against the inferred shape (equal sizes, every dimension agreeing) and becomes the tensor's shape |
| ExcludeTensor.NewSizeMatchesValues | src/exclude/Tensor.ts:92-141 | a constructed non-string tensor holds exactly as many values as its size |
| ExcludeTensor.Scalar | src/exclude/Tensor.ts:143-155 | arrays, and typed arrays not read as strings, are refused; a scalar has shape `[]`, size 1 and rank 0 |
| ExcludeTensor.EncodedStringScalarRejected | src/exclude/Tensor.ts:143-155 | an encoded string scalar passes the checks of `scalar` but the constructor refuses it |
| Records.ViewGet | src/TensorManager.ts:46-48 | reading a typed array gives an element exactly at an index inside it, and `undefined` anywhere else |
| Records.ViewSet | src/TensorManager.ts:49-52 | writing a typed array changes only the element at an index inside it, to the value as the array stores it; a write outside it is dropped |
| Records.GetAfterSet | src/TensorManager.ts:46-53 | after a write, reading the written index gives the stored value and every other read is unchanged |
| Records.Float64GetAfterSet | src/TensorManager.ts:46-53 | a `Float64Array` gives back the integer written |
| TensorManager.New | src/TensorManager.ts:17-20 | a new manager has an empty registry |
| TensorManager.Allocate | src/TensorManager.ts:22-30 | the handle is not yet registered, is then mapped to a record built from the stub's result, and every other entry is unchanged |
| TensorManager.Index | src/TensorManager.ts:32-54 | succeeds exactly when the handle is registered and index and strides have the same length; the accessor's offset is `Σ index[i]·strides[i]` |
| TensorManager.Get | src/TensorManager.ts:46-48 | the accessor's `get()` gives an element exactly when the record's view has one at the offset, and it is that element |
| TensorManager.Set | src/TensorManager.ts:49-52 | the accessor's `set(v)` writes the record's view at its offset and leaves every other record untouched |
| TensorManager.GetAfterSetAccessor | src/TensorManager.ts:46-53 | after `set(v)`, `get()` gives the stored `v` when the offset lies inside the view, and every other read is unchanged |
| TensorManager.Read | src/TensorManager.ts:56-62 | succeeds exactly on a registered handle, with its record's view |
| TensorManager.StubRecordsStayEmpty | src/TensorManager.ts:69-76 | with the stub allocator every record stays empty, so every `get()` is `undefined` and every `set()` is dropped |
| TensorsTensorManager.New | src/tensors/TensorManager.ts:10-13 | a new manager has an empty registry |
| TensorsTensorManager.AllocateMemoryIgnoresInputs | src/tensors/TensorManager.ts:46-53 | the stub's result does not depend on the values or the element type |
| TensorsTensorManager.Allocate | src/tensors/TensorManager.ts:15-23 | the handle is fresh, then registered with a new record; every other entry is unchanged |
| TensorsTensorManager.Read | src/tensors/TensorManager.ts:25-31 | succeeds exactly on a registered handle, with its record's view |
| TensorsTensorManager.View | src/tensors/TensorManager.ts:33-39 | succeeds exactly on a registered handle, with its record's view |
| TensorsTensorManager.ViewIsRead | src/tensors/TensorManager.ts:25-39 | `view` and `read` agree on every handle |
| TensorsTensorManager.SetElement | src/tensors/Tensor.ts:84-86 | writing through an accessor changes only its own record's view, as a typed-array write does, and keeps every handle and every other record |
| TensorsTensorManager.AllocateKeepsReads | src/tensors/TensorManager.ts:15-23 | allocating leaves what every registered handle reads unchanged |
| TensorsTensor.New | src/tensors/Tensor.ts:62-74 | fails, changing nothing, when no manager is set; otherwise length, strides (rank−1) and rank come from the shape and the handle is freshly registered |
| TensorsTensor.Index | src/tensors/Tensor.ts:76-88 | succeeds exactly on a registered tensor and addresses element 0 |
| TensorsTensor.Get | src/tensors/Tensor.ts:81-83 | `get()` gives an element exactly when the view has one at the accessor's index, and it is that element |
| TensorsTensor.Set | src/tensors/Tensor.ts:84-86 | `set(v)` keeps the registered handles and writes the view at the accessor's index as the view stores it, dropping a write outside it |
| TensorsTensor.IndexIgnoresArgument | src/tensors/Tensor.ts:76-88 | the index argument does not affect the accessor |
| TensorsTensor.SetThenGet | src/tensors/Tensor.ts:76-88 | `set(v)` then `get()` gives `v` as stored when the view has an element 0, and `undefined` before and after when it is empty |
| TensorsTensor.NewTensorUnreadable | src/tensors/Tensor.ts:62-88 | under the stub allocator, element 0 of a new tensor cannot be read |
| TensorsTensor.ChooseDtype | src/tensors/Tensor.ts:111 | a given non-empty element type is kept; a missing or empty one is inferred with the corrected inference |
| TensorsTensor.FromScalar | src/tensors/Tensor.ts:102-116 | succeeds exactly when a manager is set and the value is a number, string or boolean; the tensor has shape `[]`, length 1, no strides, rank 0 |
| TensorsTensor.FromArray | src/tensors/Tensor.ts:118-136 | values other than a number array, `Int32Array` or `Float64Array` are refused, and so is a non-number-array shape; the tensor takes the given shape and its product as length, and a number array yields element type i32 or f64; a missing element type is inferred with the corrected inference |
| TensorsTensor.FromScalarKeepsReads | src/tensors/Tensor.ts:102-116 | `fromScalar` keeps the manager's invariant and what every registered handle reads; the new tensor's record reads as the stub's empty view |
| TensorsTensor.FromArrayKeepsReads | src/tensors/Tensor.ts:118-136 | `fromArray` keeps the manager's invariant and what every registered handle reads; the new tensor's record reads as the stub's empty view |
| KernelStorage.Empty | src/exclude/Kernel.ts:15-16 | a new storage has no entries and a counter of 0 |
| KernelStorage.Get | src/exclude/Kernel.ts:20-26 | a stored handle is returned without calling the mover; otherwise the mover runs once and the handle is looked up in what it leaves |
| KernelStorage.Set | src/exclude/Kernel.ts:28-31 | the handle then holds the value, the counter goes up by one unconditionally, and every other entry is unchanged |
| KernelStorage.Has | src/exclude/Kernel.ts:33-35 | a handle is reported exactly when `get` serves it without moving data, and exactly when `delete` of it removes one entry; a reported handle's `get` is its stored value |
| KernelStorage.Delete | src/exclude/Kernel.ts:37-41 | reports whether the handle was stored, removes it, lowers the counter unconditionally and keeps every other entry |
| KernelStorage.NumHandles | src/exclude/Kernel.ts:43-45 | the counter equals the number of stored handles plus the drift, and equals that number exactly when there is no drift |
| KernelStorage.SetDrift | src/exclude/Kernel.ts:28-31 | a `set` of a stored handle pushes the counter one above the true count; one of a fresh handle keeps the gap |
| KernelStorage.DeleteDrift | src/exclude/Kernel.ts:37-41 | a `delete` of a missing handle pulls the counter one below the true count; one of a stored handle keeps the gap |
| KernelStorage.RunDrift | src/exclude/Kernel.ts:28-45 | after any sequence of calls, the counter is off by exactly the number of re-sets minus the number of missing deletes, so it stays exact when there are none |
| KernelStorage.DoubleSetDrifts | src/exclude/Kernel.ts:28-45 | setting one handle twice counts two handles for one entry |
| Engine.AddKernel | src/exclude/Engine.ts:15-25 | a taken name is refused with nothing changed; a new name is mapped to the factory with every other name kept |
| Engine.RemoveKernel | src/exclude/Engine.ts:50-52 | reports whether the name was registered and leaves it unregistered, every other name kept |
| Engine.SetKernel | src/exclude/Engine.ts:54-62 | an unknown name is refused with nothing changed; otherwise the current kernel is created by the name's factory |
| Engine.AddAllFirstWins | src/exclude/Engine.ts:9-13 | adding a list keeps the names already registered and registers each new name with the factory of its first entry |
| Engine.New | src/exclude/Engine.ts:9-13 | the constructor fails exactly on an empty list |
| Engine.NewRegistry | src/exclude/Engine.ts:9-13 | a constructed engine registers exactly the listed names, each with its first factory, and its kernel comes from the first entry's factory |
| EqualityNode.New | src/nodes/EqualityNode.ts:8 | a new node's action is `'unknown'` |
| EqualityNode.Reset | src/nodes/EqualityNode.ts:16-18 | `reset` sets the action to `'unknown'` |
| EqualityNode.Update | src/nodes/EqualityNode.ts:20-30 | succeeds exactly on a string among assign, evaluate and unknown, which becomes the action; anything else throws a `TypeError` and leaves the node as it was |
| EqualityNode.RunKeepsValid | src/nodes/EqualityNode.ts:3-30 | whatever calls are made, the action stays one of the three valid values |
| EqualityNode.RunIsLastAccepted | src/nodes/EqualityNode.ts:16-30 | if call k is a reset or an accepted update and no later call is, the action after all calls is `'unknown'` or that update's string; if no call is, the node is unchanged |
| ResultNode.New | src/nodes/ResultNode.ts:11-13 | a new node is frozen, and its result is null |
| ResultNode.Reset | src/nodes/ResultNode.ts:24-26 | `reset` sets the result to null |
| ResultNode.Update | src/nodes/ResultNode.ts:28-32 | succeeds exactly on a value whose `typeof` is object, which becomes the result, frozen node or not; anything else throws and leaves the node as it was |
| ResultNode.UpdateAcceptsNull | src/utils/is.ts:25-27 | null is accepted as a result; numbers, strings, booleans and `undefined` are refused |
| ResultNode.CallsKeepValid | src/nodes/ResultNode.ts:24-32 | every call keeps the slot an object or null |

## Left out

- The bytes of the WebAssembly heap, `ArrayBuffer.slice` and the
  reinterpretation of bytes as typed-array elements. The heap is a page
  count, and in `Tensor` a view is its kind and element count only.
- `ChainManager` (`insert`, `remove`, `first`) comes from `@exomath/core`,
  which is not part of this model. `remove` deletes the block from the
  sequence. `insert` is taken to append: the order `insert` really uses is
  unknown, and first fit depends on it.
- Free-block coalescing and `dispose`, which do not exist in the source.
- Floating point. Numbers are integers, so fractions, NaN, infinities and
  `Math.round` in the bool conversion are not modelled.
- `Tensor.Write`: a boolean scalar has no `length`, so the source allocates
  NaN bytes and goes on with a corrupted chain. Here it is an error.
- Tensor.Write: allocates through `TensorMemory.AllocateFixed`, the corrected
  allocator, where src/Tensor.ts:299 calls `allocate` as written. A failed
  or short grow is therefore an `OutOfMemory` error here, where the source
  records a range past the heap end (see `TensorMemory.GrowShortfall`).
- Tensor.WriteKeepsValid: holds only with the corrected allocator. As
  written, `TensorMemory.GrowShortfall` and `TensorMemory.GrowPathOverlaps`
  break the invariant.
- Tensor.ReadRegistered: holds only with the corrected allocator. As
  written, a 200000-byte record lies past a 131072-byte heap, and its `read`
  fails the assertion at src/Tensor.ts:280.
- Tensor.ReadAfterWrite: holds only with the corrected allocator, for the
  same reason as `Tensor.ReadRegistered`.
- Tensor.IndexInBounds: rests on `Tensor.Valid`, which the corrected
  allocator keeps and the allocator as written does not.
- Tensor.FromScalarKeepsValid: holds only with the corrected allocator.
- Tensor.FromArrayKeepsValid: holds only with the corrected allocator.
- Tensor.FromArray: infers a missing element type with
  `TensorHelpers.InferDataTypeFixed`, where src/Tensor.ts:260 calls
  `getDataType` as written. An `Int32Array` gets i32 and a 4-byte element
  here, and f64 with an 8-byte element in the source.
- TensorsTensor.ChooseDtype: infers with `TensorHelpers.InferDataTypeFixed`,
  where src/tensors/Tensor.ts:111 and :129 call `getDtype` as written
  (`TensorHelpers.InferDataType`).
- TensorsTensor.FromArray: an `Int32Array` without an element type gets i32
  here and f64 in the source, through `TensorsTensor.ChooseDtype`.
- `ExcludeTensor.ToTypedArray`: in the source, a string or other non-numeric
  leaf converts to a parsed number or NaN. Here it is an error.
- `ExcludeTensor.ToTypedArray`: requires an array or typed array. Its only
  caller wraps scalars first.
- `Tensor.Index`: the `isNumber(values)` branch (src/Tensor.ts:216-218) is
  left out. `read` only returns typed arrays, so the branch cannot be taken.
- `TensorMemory.Allocate`: the `WebAssembly.Memory.grow` outcome is a boolean
  parameter. The maximum heap size is not modelled.
- `Engine.allocateTensor`, the abstract `Kernel` class and `console.warn`
  are left out. String encoding and `kernel.write` are calls into code this
  model does not see. The handle `allocateTensor` returns is a parameter of
  `ExcludeTensor.New`, and the engine is a flag.
- `KernelStorage.Get`: the `DataMover.moveData` body is not shown. It is a
  function parameter giving the storage after it runs.
- `Tensor.values`, `Tensor.memory`, `Tensor.registry`, `Tensor.tensor` and
  `setManager` / `setEngine` are left out. Each only forwards or sets a
  module variable.
- `src/utils/is.ts`, `src/utils/has.ts` and the encoding helpers are
  left out. They are JavaScript reflection and `TextEncoder` wrappers; the
  `JsValue` datatype answers the type tests directly.
- The type-guard expression-tree nodes, `Node.ts`, the REPL and the tests
  are left out.
- `Object.freeze`: a frozen `EqualityNode` is not modelled; its mutable
  instance is. A frozen `ResultNode` is modelled as a flag, because its
  freeze is shallow.
- WeakMap garbage collection is not modelled.
- The commented-out code at src/Tensor.ts:396-476 and
  src/tensors/Tensor.ts:201-281 is not modelled.
- `ExcludeTensor.New`: a provided shape is a sequence of reals, so the
  integer check has something to reject. Negative zero and non-finite
  dimensions are not modelled.

## Findings

| source | as written | input that shows it | evidently intended | confidence | as-written member | corrected member |
|---|---|---|---|---|---|---|
| src/Tensor.ts:125 | a split free block gets length `byteLength − newOffset` | on a new memory, `allocate(16)` leaves the free block `(16, 0)`, and the next `allocate(16)` grows the heap | length `oldLength − byteLength` | high, not executed | TensorMemory.SplitLosesRemainder | TensorMemory.AllocateFixedKeepsValid |
| src/Tensor.ts:107-117 | the grow path stretches the first block, wherever it is, to the heap end | `allocate(16)`, `free(0)`, `allocate(131056)`, `allocate(32)`: the ranges `[0, 32)` and `[16, 131072)` are both allocated | extend only the block that ends at the heap end | high, not executed | TensorMemory.GrowPathOverlaps | TensorMemory.AllocateFixedKeepsValid |
| src/Tensor.ts:107-117 | the grow path grows one page and swallows a failed grow | `allocate(200000)` on a new memory returns 0 with a 131072-byte heap; `allocate(65537)` with a failing grow returns 0 | grow enough pages, and report a failed grow | high, not executed | TensorMemory.GrowShortfall | TensorMemory.AllocateFixedKeepsValid |
| src/Tensor.ts:321-339 | every typed array is recursed into before the `Int32Array` test | `getDataType(new Int32Array([1]))` is `'f64'`; this assumes `isTypedArray` of `@exomath/core` covers `Int32Array`, as src/exclude/Tensor.ts:287-291 does | `Int32Array` gives `'i32'` | medium, not executed | TensorHelpers.InferDataTypeIsAlwaysF64 | TensorHelpers.InferDataTypeFixedKeepsTag |
| src/tensors/Tensor.ts:139-157 | `getDtype` has the same recursion | `getDtype(new Int32Array([1]))` is `'f64'` | `Int32Array` gives `'i32'` | medium, not executed | TensorHelpers.InferDataTypeIsAlwaysF64 | TensorHelpers.InferDataTypeFixedKeepsTag |

`Tensor.FromScalar`, `Tensor.FromArray`, `TensorsTensor.FromScalar` and
`TensorsTensor.FromArray` use the corrected inference, and `Tensor` allocates
through `TensorMemory.AllocateFixed`. A zero-length tensor is recorded at the
start of a free block, and the next allocation reuses that offset. Reading
the empty tensor then fails its length assertion (`Tensor.EmptyTensorReadFails`).
