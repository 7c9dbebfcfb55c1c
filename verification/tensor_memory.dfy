/** `TensorMemory` of src/Tensor.ts: a free-block chain over a WebAssembly
    heap that grows in 64 KiB pages, plus the map from every allocated start
    offset to its byte length.

    The heap's bytes are not modelled, only its size in pages. Whether
    `WebAssembly.Memory.grow` succeeds is a parameter (`growOk`). The chain is
    a `seq<Block>` in chain order; `ChainManager.insert` is not part of this
    model and is taken to append, `ChainManager.remove` deletes the block.

    Two allocators are given: `Allocate` follows the source as written, and
    `AllocateFixed` is the corrected one the tensor layer uses. */
module TensorMemory {
  import opened Wrappers

  /** Bytes per WebAssembly page. */
  const PAGE_SIZE: nat := 65536

  /** A free byte range `[offset, offset + length)`. The length is an `int`
      because the source's split can make it negative. */
  datatype Block = Block(offset: nat, length: int) {
    function End(): int { offset + length }
  }

  datatype Memory = Memory(chain: seq<Block>, allocations: map<nat, nat>, pages: nat) {
    function HeapLength(): nat { pages * PAGE_SIZE }
  }

  /** The memory after an allocation (a throw midway keeps the mutations made
      before it) together with the returned offset or the thrown error. */
  datatype Allocation = Allocation(memory: Memory, result: Result<nat>)

  /** A new `TensorMemory`: one page, and one free block covering all of it. */
  function New(): Memory
  {
    Memory([Block(0, PAGE_SIZE)], map[], 1)
  }

  /** `firstFit(n)`: the first block in chain order whose length is at least
      `n`, or none. */
  function FirstFit(chain: seq<Block>, n: int): (r: Option<nat>)
    ensures r.Some? ==> r.value < |chain| && chain[r.value].length >= n
    ensures r.Some? ==> forall j :: 0 <= j < r.value ==> chain[j].length < n
    ensures r.None? <==> forall j :: 0 <= j < |chain| ==> chain[j].length < n
  {
    FirstFitFrom(chain, n, 0)
  }

  /** The scan of `firstFit` from position `i` on. */
  function FirstFitFrom(chain: seq<Block>, n: int, i: nat): (r: Option<nat>)
    requires i <= |chain|
    ensures r.Some? ==> i <= r.value < |chain| && chain[r.value].length >= n
    ensures r.Some? ==> forall j :: i <= j < r.value ==> chain[j].length < n
    ensures r.None? <==> forall j :: i <= j < |chain| ==> chain[j].length < n
    decreases |chain| - i
  {
    if i == |chain| then None
    else if chain[i].length < n then FirstFitFrom(chain, n, i + 1)
    else Some(i)
  }

  /** The chain without its block at position `b`. */
  function RemoveAt(chain: seq<Block>, b: nat): (r: seq<Block>)
    requires b < |chain|
    ensures |r| == |chain| - 1
    ensures forall x :: 0 <= x < b ==> r[x] == chain[x]
    ensures forall x :: b <= x < |r| ==> r[x] == chain[x + 1]
  {
    chain[..b] + chain[b + 1..]
  }

  /** Hands out the first `n` bytes of the block at position `b`: an exact
      fit leaves the chain, otherwise `rest` takes its place; the start
      offset is recorded with length `n` and returned. */
  function Take(m: Memory, b: nat, n: nat, rest: Block): (a: Allocation)
    requires b < |m.chain|
    ensures a.result == Ok(m.chain[b].offset)
    ensures a.memory.allocations == m.allocations[m.chain[b].offset := n]
    ensures a.memory.pages == m.pages
  {
    var block := m.chain[b];
    var chain := if block.length == n then RemoveAt(m.chain, b) else m.chain[b := rest];
    Allocation(Memory(chain, m.allocations[block.offset := n], m.pages), Ok(block.offset))
  }

  /** Grows the heap by `g` pages and stretches the first block to its end. */
  function Stretch(m: Memory, g: nat): (r: Memory)
    requires |m.chain| > 0
    ensures r.pages == m.pages + g && |r.chain| == |m.chain| && r.allocations == m.allocations
    ensures r.chain[0].offset == m.chain[0].offset && r.chain[0].End() == r.HeapLength()
    ensures forall i :: 0 < i < |m.chain| ==> r.chain[i] == m.chain[i]
  {
    var first := m.chain[0];
    var pages := m.pages + g;
    m.(pages := pages, chain := m.chain[0 := Block(first.offset, pages * PAGE_SIZE - first.offset)])
  }

  // ---------------------------------------------------------------------
  // The allocator as written
  // ---------------------------------------------------------------------

  /** The remainder as written: the offset is advanced by `n`, and the
      length becomes `n` minus the advanced offset. */
  function Split(block: Block, n: nat): (r: Block)
    ensures r.offset == block.offset + n
    ensures r.length == -(block.offset as int)
    ensures block.offset > 0 ==> r.length < 0
  {
    Block(block.offset + n, n - (block.offset + n))
  }

  /** Whether `allocate` takes its grow path for this first-fit result. */
  predicate GrowPath(chain: seq<Block>, n: nat, fit: Option<nat>)
  {
    fit.None? || (fit.value == 0 && |chain| > 0 && chain[0].length == n)
  }

  /** `allocate(n)` as written. When no block fits, or the first block fits
      exactly, it grows the heap by one page (a failed grow is swallowed)
      and stretches the first block to the heap end; with an empty chain
      that first block is null and the stretch throws. */
  function Allocate(m: Memory, n: nat, growOk: bool): (a: Allocation)
    ensures |m.chain| > 0 ==> a.result.Ok?
    ensures a.result.Ok? ==> a.memory.allocations == m.allocations[a.result.value := n]
    ensures a.memory.pages == m.pages || (growOk && a.memory.pages == m.pages + 1)
  {
    var fit := FirstFit(m.chain, n);
    if GrowPath(m.chain, n, fit) then
      var g: nat := if growOk then 1 else 0;
      if |m.chain| == 0 then
        Allocation(m.(pages := m.pages + g), Err(TypeError("the first free block is null")))
      else
        var s := Stretch(m, g);
        Take(s, 0, n, Split(s.chain[0], n))
    else
      Take(m, fit.value, n, Split(m.chain[fit.value], n))
  }

  /** Without growing: the first fitting block's start is returned and
      recorded; an exact fit leaves the chain, otherwise the block's start
      advances by `n` and, as written, its length becomes minus its old
      start instead of its old length minus `n`. */
  lemma AllocateWithoutGrowth(m: Memory, n: nat, growOk: bool, k: nat)
    requires FirstFit(m.chain, n) == Some(k)
    requires k != 0 || m.chain[0].length != n
    ensures var a := Allocate(m, n, growOk);
      && a.result == Ok(m.chain[k].offset)
      && a.memory.allocations == m.allocations[m.chain[k].offset := n]
      && a.memory.pages == m.pages
      && (m.chain[k].length == n ==> a.memory.chain == RemoveAt(m.chain, k))
      && (m.chain[k].length != n ==>
            a.memory.chain == m.chain[k := Block(m.chain[k].offset + n, -(m.chain[k].offset as int))])
  {
  }

  /** The grow path grows at most one page and then carves the request out
      of whichever block is first, stretched to the heap end, whether or not
      that block ended at the old heap end. */
  lemma AllocateGrowPath(m: Memory, n: nat, growOk: bool)
    requires |m.chain| > 0
    requires GrowPath(m.chain, n, FirstFit(m.chain, n))
    ensures var a := Allocate(m, n, growOk);
      && a.result == Ok(m.chain[0].offset)
      && a.memory.pages == (if growOk then m.pages + 1 else m.pages)
      && a.memory.allocations == m.allocations[m.chain[0].offset := n]
  {
  }

  /** `free(o)`: fails unless `o` is allocated; otherwise a free block of
      exactly the recorded length joins the chain and `o` is no longer
      allocated. */
  function Free(m: Memory, o: nat): (r: Result<Memory>)
    ensures r.Ok? <==> o in m.allocations
    ensures r.Ok? ==> o !in r.value.allocations && r.value.pages == m.pages
    ensures r.Ok? ==> r.value.chain == m.chain + [Block(o, m.allocations[o])]
    ensures r.Ok? ==> forall p :: p != o ==> (p in r.value.allocations <==> p in m.allocations)
    ensures r.Ok? ==> forall p :: p in r.value.allocations ==> r.value.allocations[p] == m.allocations[p]
  {
    if o !in m.allocations then Err(AssertionError("byteOffset is not allocated"))
    else Ok(m.(chain := m.chain + [Block(o, m.allocations[o])], allocations := m.allocations - {o}))
  }

  /** A second `free` of the same offset fails. */
  lemma FreeTwiceFails(m: Memory, o: nat)
    requires Free(m, o).Ok?
    ensures Free(Free(m, o).value, o).Err?
  {
  }

  /** The number of bytes `ArrayBuffer.slice(start, start + length)` copies
      out of a buffer of `size` bytes: both ends are clamped to the buffer. */
  function SliceLength(size: nat, start: nat, length: nat): (r: nat)
    ensures start + length <= size ==> r == length
    ensures start + length > size && length > 0 ==> r < length
    ensures r <= length && (start >= size ==> r == 0)
    ensures start < size < start + length ==> r == size - start
  {
    var s := if start < size then start else size;
    var e := if start + length < size then start + length else size;
    if e > s then e - s else 0
  }

  /** `buffer(o)`: fails unless `o` is allocated; otherwise the size of the
      copy of the recorded range, which is the recorded length exactly when
      that range lies inside the heap. */
  function Buffer(m: Memory, o: nat): (r: Result<nat>)
    ensures r.Ok? <==> o in m.allocations
    ensures r.Ok? && o + m.allocations[o] <= m.HeapLength() ==> r.value == m.allocations[o]
    ensures r.Ok? && o + m.allocations[o] > m.HeapLength() ==> r.value < m.allocations[o] || r.value == 0
  {
    if o !in m.allocations then Err(AssertionError("byteOffset is not allocated"))
    else Ok(SliceLength(m.HeapLength(), o, m.allocations[o]))
  }

  // ---------------------------------------------------------------------
  // What the allocator as written gets wrong
  // ---------------------------------------------------------------------

  /** The first 16-byte allocation leaves a free block of length 0 where
      65520 bytes are free, so the next 16-byte request grows the heap. */
  lemma SplitLosesRemainder()
    ensures Allocate(New(), 16, true).memory.chain == [Block(16, 0)]
    ensures Allocate(Allocate(New(), 16, true).memory, 16, true).memory.pages == 2
  {
    var a1 := Allocate(New(), 16, true);
    assert FirstFit(New().chain, 16) == Some(0);
    assert a1.memory == Memory([Block(16, 0)], map[0 := 16], 1);
    assert FirstFit(a1.memory.chain, 16) == None;
  }

  /** Allocate 16 bytes, free them, take exactly what one grown page leaves
      in the first block (it is removed), then allocate 32: the grow path
      stretches the freed block at offset 0 over the live allocation at
      offset 16, and the two allocated ranges overlap. */
  lemma GrowPathOverlaps()
    ensures var m1 := Allocate(New(), 16, true).memory;
      var m2 := Free(m1, 0).value;
      var m3 := Allocate(m2, 131056, true).memory;
      var m4 := Allocate(m3, 32, true).memory;
      && m4.allocations == map[16 := 131056, 0 := 32]
      && 0 + m4.allocations[0] > 16
  {
    var m1 := Allocate(New(), 16, true).memory;
    assert FirstFit(New().chain, 16) == Some(0);
    assert m1 == Memory([Block(16, 0)], map[0 := 16], 1);
    var m2 := Free(m1, 0).value;
    assert m2 == Memory([Block(16, 0), Block(0, 16)], map[], 1);
    assert FirstFit(m2.chain, 131056) == None;
    var m3 := Allocate(m2, 131056, true).memory;
    assert m3 == Memory([Block(0, 16)], map[16 := 131056], 2);
    assert FirstFit(m3.chain, 32) == None;
    var m4 := Allocate(m3, 32, true).memory;
    assert m4 == Memory([Block(32, 0)], map[16 := 131056, 0 := 32], 3);
  }

  /** One page is not always enough and a failed grow goes unreported: the
      allocation is recorded past the heap end and `buffer` then returns
      fewer bytes than were recorded. */
  lemma GrowShortfall()
    ensures Allocate(New(), 200000, true).result == Ok(0)
    ensures Allocate(New(), 200000, true).memory.HeapLength() == 131072
    ensures Buffer(Allocate(New(), 200000, true).memory, 0) == Ok(131072)
    ensures Allocate(New(), 65537, false).result == Ok(0)
    ensures Allocate(New(), 65537, false).memory.HeapLength() == 65536
  {
    assert FirstFit(New().chain, 200000) == None;
    assert FirstFit(New().chain, 65537) == None;
  }

  // ---------------------------------------------------------------------
  // The corrected allocator
  // ---------------------------------------------------------------------

  /** The remainder after taking `n` bytes from the front of a block. */
  function SplitFixed(block: Block, n: nat): (r: Block)
    ensures r.offset == block.offset + n && r.End() == block.End()
  {
    Block(block.offset + n, block.length - n)
  }

  /** Pages to grow so that a last block of `length` bytes exceeds `n`. */
  function GrowPages(length: int, n: nat): (g: nat)
    ensures g >= 1 && length + g * PAGE_SIZE > n
  {
    if n >= length then
      var q := (n - length) / PAGE_SIZE;
      assert n - length == q * PAGE_SIZE + (n - length) % PAGE_SIZE;
      q + 1
    else 1
  }

  /** `allocate(n)` corrected: the remainder keeps the block's old length
      minus `n`; the grow path grows as many pages as the request needs and
      extends the first block, which always ends at the heap end; a failed
      grow is reported as out of memory and changes nothing. */
  function AllocateFixed(m: Memory, n: nat, growOk: bool): (a: Allocation)
    ensures a.result.Err? ==> a.memory == m
    ensures a.result.Ok? ==> a.memory.allocations == m.allocations[a.result.value := n]
    ensures a.memory.pages >= m.pages
  {
    if |m.chain| == 0 then
      Allocation(m, Err(TypeError("the first free block is null")))
    else
      var fit := FirstFit(m.chain, n);
      if !GrowPath(m.chain, n, fit) then
        Take(m, fit.value, n, SplitFixed(m.chain[fit.value], n))
      else if !growOk then
        Allocation(m, Err(OutOfMemory))
      else
        var s := Stretch(m, GrowPages(m.chain[0].length, n));
        Take(s, 0, n, SplitFixed(s.chain[0], n))
  }

  /** Two ranges share no byte (an empty range shares none with anything). */
  predicate Disjoint(a: Block, b: Block)
  {
    a.length == 0 || b.length == 0 || a.End() <= b.offset || b.End() <= a.offset
  }

  predicate Within(b: Block, size: int)
  {
    0 <= b.length && b.End() <= size
  }

  /** The allocated range starting at `o`. */
  function Used(m: Memory, o: nat): Block
    requires o in m.allocations
  {
    Block(o, m.allocations[o])
  }

  ghost predicate FreeDisjoint(chain: seq<Block>)
  {
    forall i, j :: 0 <= i < j < |chain| ==> Disjoint(chain[i], chain[j])
  }

  ghost predicate UsedDisjoint(m: Memory)
  {
    forall o, p :: o in m.allocations && p in m.allocations && o != p ==> Disjoint(Used(m, o), Used(m, p))
  }

  ghost predicate Separate(m: Memory)
  {
    forall i, o :: 0 <= i < |m.chain| && o in m.allocations ==> Disjoint(m.chain[i], Used(m, o))
  }

  ghost predicate InHeap(m: Memory)
  {
    && (forall i :: 0 <= i < |m.chain| ==> Within(m.chain[i], m.HeapLength()))
    && (forall o :: o in m.allocations ==> Within(Used(m, o), m.HeapLength()))
  }

  /** The allocator's invariant: the first block is a non-empty block
      ending at the heap end; free blocks and allocated ranges lie inside the heap and
      are pairwise disjoint. */
  ghost predicate Valid(m: Memory)
  {
    && |m.chain| > 0
    && m.chain[0].length > 0
    && m.chain[0].End() == m.HeapLength()
    && InHeap(m)
    && FreeDisjoint(m.chain)
    && UsedDisjoint(m)
    && Separate(m)
  }

  lemma NewValid()
    ensures Valid(New())
  {
  }

  lemma StretchKeepsValid(m: Memory, g: nat)
    requires Valid(m)
    ensures Valid(Stretch(m, g))
  {
    var s := Stretch(m, g);
    var old0 := m.chain[0];
    assert s.HeapLength() >= m.HeapLength();
    forall i | 0 < i < |s.chain|
      ensures Disjoint(s.chain[0], s.chain[i])
    {
      assert Disjoint(old0, m.chain[i]) && Within(m.chain[i], m.HeapLength());
    }
    forall o | o in s.allocations
      ensures Disjoint(s.chain[0], Used(s, o))
    {
      assert Used(s, o) == Used(m, o);
      assert Disjoint(old0, Used(m, o)) && Within(Used(m, o), m.HeapLength());
    }
    forall i, j | 0 <= i < j < |s.chain|
      ensures Disjoint(s.chain[i], s.chain[j])
    {
      if i > 0 {
        assert Disjoint(m.chain[i], m.chain[j]);
      }
    }
    forall i, o | 0 <= i < |s.chain| && o in s.allocations
      ensures Disjoint(s.chain[i], Used(s, o))
    {
      if i > 0 {
        assert Disjoint(m.chain[i], Used(m, o));
      }
    }
    assert UsedDisjoint(s) by {
      forall o, p | o in s.allocations && p in s.allocations && o != p
        ensures Disjoint(Used(s, o), Used(s, p))
      {
        assert Disjoint(Used(m, o), Used(m, p));
      }
    }
  }

  /** A range inside `big` is disjoint from whatever `big` is disjoint from. */
  lemma DisjointPart(x: Block, big: Block, part: Block)
    requires Disjoint(x, big) && 0 <= part.length
    requires big.offset <= part.offset && part.End() <= big.End()
    ensures Disjoint(x, part)
  {
  }

  /** The chain after taking `n` bytes from block `b` stays pairwise
      disjoint. */
  lemma TakeChainDisjoint(m: Memory, b: nat, n: nat)
    requires Valid(m) && b < |m.chain| && n <= m.chain[b].length
    ensures var c := Take(m, b, n, SplitFixed(m.chain[b], n)).memory.chain;
      FreeDisjoint(c) && forall x :: 0 <= x < |c| ==> Within(c[x], m.HeapLength())
  {
    var blk := m.chain[b];
    var rest := SplitFixed(blk, n);
    var c := Take(m, b, n, rest).memory.chain;
    if blk.length == n {
      assert c == RemoveAt(m.chain, b);
      forall i, j | 0 <= i < j < |c|
        ensures Disjoint(c[i], c[j])
      {
        var i' := if i < b then i else i + 1;
        var j' := if j < b then j else j + 1;
        assert c[i] == m.chain[i'] && c[j] == m.chain[j'];
        assert Disjoint(m.chain[i'], m.chain[j']);
      }
    } else {
      assert c == m.chain[b := rest];
      forall i, j | 0 <= i < j < |c|
        ensures Disjoint(c[i], c[j])
      {
        if i == b {
          assert Disjoint(m.chain[j], blk);
          DisjointPart(m.chain[j], blk, rest);
        } else if j == b {
          assert Disjoint(m.chain[i], blk);
          DisjointPart(m.chain[i], blk, rest);
        } else {
          assert Disjoint(m.chain[i], m.chain[j]);
        }
      }
    }
  }

  /** Taking `n` bytes from block `b` keeps the invariant, provided the
      first block is never taken whole. */
  lemma TakeKeepsValid(m: Memory, b: nat, n: nat)
    requires Valid(m) && b < |m.chain| && n <= m.chain[b].length
    requires b == 0 ==> n < m.chain[0].length
    ensures Valid(Take(m, b, n, SplitFixed(m.chain[b], n)).memory)
  {
    var blk := m.chain[b];
    var rest := SplitFixed(blk, n);
    var r := Take(m, b, n, rest).memory;
    var u := Block(blk.offset, n);
    TakeChainDisjoint(m, b, n);
    assert r.HeapLength() == m.HeapLength();
    assert r.chain[0].End() == r.HeapLength() by {
      if b == 0 {
        assert r.chain[0] == rest;
      } else {
        assert r.chain[0] == m.chain[0];
      }
    }
    // Every block of the new chain is one of the old ones or the remainder.
    assert forall x :: 0 <= x < |r.chain| ==>
      (exists y :: 0 <= y < |m.chain| && y != b && r.chain[x] == m.chain[y]) || r.chain[x] == rest by {
      forall x | 0 <= x < |r.chain|
        ensures (exists y :: 0 <= y < |m.chain| && y != b && r.chain[x] == m.chain[y]) || r.chain[x] == rest
      {
        if blk.length == n {
          var y := if x < b then x else x + 1;
          assert r.chain[x] == m.chain[y];
        } else if x != b {
          assert r.chain[x] == m.chain[x];
        }
      }
    }
    forall o | o in r.allocations
      ensures Within(Used(r, o), r.HeapLength())
    {
      if o != blk.offset {
        assert Used(r, o) == Used(m, o);
      }
    }
    forall o, p | o in r.allocations && p in r.allocations && o != p
      ensures Disjoint(Used(r, o), Used(r, p))
    {
      if o == blk.offset {
        assert Used(r, p) == Used(m, p) && Disjoint(blk, Used(m, p));
        DisjointPart(Used(m, p), blk, u);
      } else if p == blk.offset {
        assert Used(r, o) == Used(m, o) && Disjoint(blk, Used(m, o));
        DisjointPart(Used(m, o), blk, u);
      } else {
        assert Disjoint(Used(m, o), Used(m, p));
      }
    }
    forall x, o | 0 <= x < |r.chain| && o in r.allocations
      ensures Disjoint(r.chain[x], Used(r, o))
    {
      if r.chain[x] == rest {
        if o == blk.offset {
          assert Used(r, o) == u;
        } else {
          assert Used(r, o) == Used(m, o) && Disjoint(blk, Used(m, o));
          DisjointPart(Used(m, o), blk, rest);
        }
      } else {
        var y :| 0 <= y < |m.chain| && y != b && r.chain[x] == m.chain[y];
        if o == blk.offset {
          assert Disjoint(m.chain[y], blk) by {
            if y < b {
              assert Disjoint(m.chain[y], m.chain[b]);
            } else {
              assert Disjoint(m.chain[b], m.chain[y]);
            }
          }
          DisjointPart(m.chain[y], blk, u);
        } else {
          assert Used(r, o) == Used(m, o) && Disjoint(m.chain[y], Used(m, o));
        }
      }
    }
  }

  /** The corrected allocator keeps the invariant. On success the returned
      range lies inside the heap, is recorded, and shares no byte with any
      free block or other allocation; on failure nothing changed. */
  lemma AllocateFixedKeepsValid(m: Memory, n: nat, growOk: bool)
    requires Valid(m)
    ensures var a := AllocateFixed(m, n, growOk);
      && Valid(a.memory)
      && (a.result.Err? <==> a.result == Err(OutOfMemory))
      && (a.result.Err? ==> !growOk)
      && (a.result.Ok? ==> a.result.value + n <= a.memory.HeapLength())
  {
    var fit := FirstFit(m.chain, n);
    if !GrowPath(m.chain, n, fit) {
      TakeKeepsValid(m, fit.value, n);
      var a := AllocateFixed(m, n, growOk);
      assert a.result.value in a.memory.allocations;
      assert Within(Used(a.memory, a.result.value), a.memory.HeapLength());
    } else if growOk {
      var s := Stretch(m, GrowPages(m.chain[0].length, n));
      StretchKeepsValid(m, GrowPages(m.chain[0].length, n));
      TakeKeepsValid(s, 0, n);
      var a := AllocateFixed(m, n, growOk);
      assert a.result.value in a.memory.allocations;
      assert Within(Used(a.memory, a.result.value), a.memory.HeapLength());
    }
  }

  /** The corrected allocator never returns the start of a live non-empty
      allocation: the range it hands out starts in a non-empty free block. */
  lemma AllocateFixedFreshOffset(m: Memory, n: nat, growOk: bool, p: nat)
    requires Valid(m) && p in m.allocations && m.allocations[p] > 0
    requires AllocateFixed(m, n, growOk).result.Ok?
    ensures AllocateFixed(m, n, growOk).result.value != p
  {
    var fit := FirstFit(m.chain, n);
    var k := if GrowPath(m.chain, n, fit) then 0 else fit.value;
    assert m.chain[k].length > 0;
    assert Disjoint(m.chain[k], Used(m, p));
  }

  /** A request some block other than an exactly-fitting first block can
      satisfy is served from the first such block without growing. */
  lemma AllocateFixedReuses(m: Memory, n: nat, growOk: bool, k: nat)
    requires FirstFit(m.chain, n) == Some(k)
    requires k != 0 || m.chain[0].length != n
    ensures AllocateFixed(m, n, growOk).result == Ok(m.chain[k].offset)
    ensures AllocateFixed(m, n, growOk).memory.pages == m.pages
  {
  }

  /** `free` keeps the invariant. */
  lemma FreeKeepsValid(m: Memory, o: nat)
    requires Valid(m) && o in m.allocations
    ensures Valid(Free(m, o).value)
  {
    var r := Free(m, o).value;
    var u := Used(m, o);
    forall i, j | 0 <= i < j < |r.chain|
      ensures Disjoint(r.chain[i], r.chain[j])
    {
      if j == |m.chain| {
        assert r.chain[j] == u;
      } else {
        assert Disjoint(m.chain[i], m.chain[j]);
      }
    }
    forall i, p | 0 <= i < |r.chain| && p in r.allocations
      ensures Disjoint(r.chain[i], Used(r, p))
    {
      assert Used(r, p) == Used(m, p);
      if i == |m.chain| {
        assert Disjoint(Used(m, o), Used(m, p));
      } else {
        assert Disjoint(m.chain[i], Used(m, p));
      }
    }
    forall p, q | p in r.allocations && q in r.allocations && p != q
      ensures Disjoint(Used(r, p), Used(r, q))
    {
      assert Disjoint(Used(m, p), Used(m, q));
    }
    forall i | 0 <= i < |r.chain|
      ensures Within(r.chain[i], r.HeapLength())
    {
      if i == |m.chain| {
        assert Within(Used(m, o), m.HeapLength());
      }
    }
    forall p | p in r.allocations
      ensures Within(Used(r, p), r.HeapLength())
    {
      assert Used(r, p) == Used(m, p);
    }
  }

  /** A range the corrected allocator hands out is returned whole by
      `buffer`. */
  lemma BufferAfterAllocateFixed(m: Memory, n: nat, growOk: bool)
    requires Valid(m) && AllocateFixed(m, n, growOk).result.Ok?
    ensures var a := AllocateFixed(m, n, growOk);
      Buffer(a.memory, a.result.value) == Ok(n)
  {
    AllocateFixedKeepsValid(m, n, growOk);
  }
}
