/** The malloc driver: it replays a trace three times over the naive allocator, first checking every
    block it is given, then measuring utilisation, then for speed. */
module MDriver {
  import opened Bits
  import opened MemLib
  import opened MmNaive
  import opened RangeList
  import opened Trace

  /** trace_t: the requests and, per id, the last payload address and size. */
  class TraceFile {
    const ops: seq<TraceOp>
    const numIds: nat
    const blocks: array<int>
    const blockSizes: array<int>

    ghost predicate Valid() {
      && blocks.Length == numIds && blockSizes.Length == numIds && blocks != blockSizes
      && WellFormed(ops, numIds)
    }

    constructor (ops: seq<TraceOp>, numIds: nat)
      requires WellFormed(ops, numIds)
      ensures this.ops == ops && this.numIds == numIds && Valid() && fresh(blocks) && fresh(blockSizes)
    {
      this.ops, this.numIds := ops, numIds;
      blocks := new int[numIds];
      blockSizes := new int[numIds];
    }
  }

  // ---- the three parts of the state, each after n requests

  ghost predicate HeapInStep(a: Allocator, ops: seq<TraceOp>, n: nat)
    requires n <= |ops|
    reads a, a.heap, a.heap.mem
  {
    && a.Valid()
    && a.heap.brk == a.heap.start + Demand(ops, n)
    && a.chunks == ChunksOf(a.heap.start, ops, n)
  }

  ghost predicate BlocksInStep(blocks: seq<int>, start: int, ops: seq<TraceOp>, n: nat)
    requires n <= |ops|
  {
    var m := Placed(ops, n);
    forall id :: id in m ==> id < |blocks| && blocks[id] == start + m[id].offset
  }

  ghost predicate SizesInStep(sizes: seq<int>, ops: seq<TraceOp>, n: nat)
    requires n <= |ops|
  {
    var m := Placed(ops, n);
    forall id :: id in m ==> id < |sizes| && sizes[id] == m[id].size
  }

  /** The driver's list is the one the trace calls for. */
  ghost predicate ListInStep(ranges: List, start: int, ops: seq<TraceOp>, n: nat)
    requires n <= |ops|
    reads ranges, ranges.nodes
  {
    ranges.Valid() && ranges.Contents() == RangesAfter(start, ops, n)
  }

  /** The payload of block b holds nothing but the low byte of its id. */
  ghost predicate BlockFilled(mem: seq<Byte>, b: Block, id: nat) {
    b.offset + b.size <= |mem| && forall o :: b.offset <= o < b.offset + b.size ==> mem[o] == id % 256
  }

  ghost predicate Filled(mem: seq<Byte>, ops: seq<TraceOp>, n: nat)
    requires n <= |ops|
  {
    forall id :: id in Live(ops, n) && id in Placed(ops, n) ==> BlockFilled(mem, Placed(ops, n)[id], id)
  }

  /** Serving request i keeps every live payload filled, if the bytes below the old break are kept
      (apart from the header of the block that is given up) and the new block is filled. */
  lemma FilledStep(mem: seq<Byte>, mem': seq<Byte>, ops: seq<TraceOp>, i: nat, numIds: nat)
    requires i < |ops| && WellFormed(ops, numIds) && Filled(mem, ops, i)
    requires KeptBelow(mem, mem', ops, i)
    requires !ops[i].kind.FREE? ==> BlockFilled(mem', Placed(ops, i + 1)[ops[i].index], ops[i].index)
    ensures Filled(mem', ops, i + 1)
  {
    var id := ops[i].index;
    assert OpOk(ops, i, numIds);
    LiveArePlaced(ops, i, numIds);
    var m' := Placed(ops, i + 1);
    forall k | k in m' && k in Live(ops, i + 1)
      ensures BlockFilled(mem', m'[k], k)
    {
      if k != id {
        OthersKept(mem, mem', ops, i, numIds, k);
      }
    }
  }

  /** Offset o lies in the header of the block that request i frees or moves. */
  ghost predicate GivenUpHeader(ops: seq<TraceOp>, i: nat, o: int)
    requires i < |ops|
  {
    && !ops[i].kind.ALLOC? && ops[i].index in Placed(ops, i)
    && Placed(ops, i)[ops[i].index].offset - HEADER <= o < Placed(ops, i)[ops[i].index].offset
  }

  /** Below the old break, only the header given up by request i may have changed. */
  ghost predicate KeptBelow(mem: seq<Byte>, mem': seq<Byte>, ops: seq<TraceOp>, i: nat)
    requires i < |ops|
  {
    |mem'| == |mem| &&
    forall o :: 0 <= o < |mem| && o < Demand(ops, i) && !GivenUpHeader(ops, i, o) ==> mem'[o] == mem[o]
  }

  lemma OthersKept(mem: seq<Byte>, mem': seq<Byte>, ops: seq<TraceOp>, i: nat, numIds: nat, k: nat)
    requires i < |ops| && WellFormed(ops, numIds)
    requires KeptBelow(mem, mem', ops, i)
    requires k in Placed(ops, i) && k != ops[i].index && BlockFilled(mem, Placed(ops, i)[k], k)
    ensures BlockFilled(mem', Placed(ops, i)[k], k)
  {
    hide Demand, Placed, RoundUp;
    var b := Placed(ops, i)[k];
    PlacedInHeap(ops, i, numIds, k);
    assert b.size <= RoundUp(b.size) by { RoundUpBounds(b.size); }
    forall o | b.offset <= o < b.offset + b.size
      ensures mem'[o] == k % 256
    {
      if GivenUpHeader(ops, i, o) {
        PlacedDisjoint(ops, i, numIds, k, ops[i].index);
      }
    }
  }

  lemma RoundUpBounds(n: nat)
    ensures n <= RoundUp(n) && RoundUp(n) % ALIGNMENT == 0
  {
  }

  // ---- one request at the allocator

  /** What mm_malloc does for request i: its 32-bit chunk size is the demand it adds, or mem_sbrk refuses. */
  lemma SizeServed(ops: seq<TraceOp>, i: nat, numIds: nat)
    requires i < |ops| && WellFormed(ops, numIds) && !ops[i].kind.FREE?
    ensures 0 < ops[i].size < TWO_31 && NewSize(ops[i].size) != 0
    ensures NewSize(ops[i].size) < 0 || Demand(ops, i) + NewSize(ops[i].size) > MAX_HEAP <==>
            Demand(ops, i + 1) > MAX_HEAP
    ensures Demand(ops, i + 1) <= MAX_HEAP ==>
      && NewSize(ops[i].size) == Cost(ops[i]) == Demand(ops, i + 1) - Demand(ops, i)
      && ops[i].size <= NewSize(ops[i].size) - HEADER
  {
    hide NewSize;
    assert OpOk(ops, i, numIds);
    NewSizeOfInt(ops[i].size);
    RoundUpBounds(ops[i].size);
  }

  method ServeAlloc(a: Allocator, ghost ops: seq<TraceOp>, ghost i: nat, ghost numIds: nat, size: nat) returns (p: int)
    requires i < |ops| && WellFormed(ops, numIds) && ops[i].kind.ALLOC? && ops[i].size == size
    requires HeapInStep(a, ops, i)
    modifies a, a.heap`brk, a.heap.mem
    ensures a.Valid()
    ensures p == NULL <==> Demand(ops, i + 1) > MAX_HEAP
    ensures p != NULL ==>
      && p == a.heap.start + Demand(ops, i) + HEADER
      && HeapInStep(a, ops, i + 1)
      && a.heap.OnlyChanged(p - HEADER, 8)
  {
    hide NewSize, Tiles, HeadersIn, Agree, Demand, ChunksOf, Cost, IsAligned;
    SizeServed(ops, i, numIds);
    ChunksUnfold(a.heap.start, ops, i);
    p := a.Malloc(size);
  }

  method ServeRealloc(a: Allocator, ghost ops: seq<TraceOp>, ghost i: nat, ghost numIds: nat, oldp: int, size: nat)
    returns (newp: int)
    requires i < |ops| && WellFormed(ops, numIds) && ops[i].kind.REALLOC? && ops[i].size == size
    requires HeapInStep(a, ops, i)
    requires ops[i].index in Placed(ops, i) && oldp == a.heap.start + Placed(ops, i)[ops[i].index].offset
    modifies a, a.heap`brk, a.heap.mem
    ensures a.Valid()
    ensures newp == NULL <==> Demand(ops, i + 1) > MAX_HEAP
    ensures newp != NULL ==>
      && newp == a.heap.start + Demand(ops, i) + HEADER
      && HeapInStep(a, ops, i + 1)
      && Relocated(old(a.heap.mem[..]), a.heap.mem[..], oldp - a.heap.start, newp - a.heap.start,
                   Min(size, RoundUp(Placed(ops, i)[ops[i].index].size)))
  {
    hide NewSize, Tiles, HeadersIn, Agree, Demand, ChunksOf, Cost, IsAligned, Relocated, Placed, RoundUp, Live;
    SizeServed(ops, i, numIds);
    ChunksUnfold(a.heap.start, ops, i);
    ghost var b := Placed(ops, i)[ops[i].index];
    ChunkOfPlaced(a.heap.start, ops, i, numIds, ops[i].index);
    PlacedInHeap(ops, i, numIds, ops[i].index);
    newp := a.Realloc(oldp, size, b.number);
  }

  method ServeFree(a: Allocator, ghost ops: seq<TraceOp>, ghost i: nat, ghost numIds: nat, p: int)
    requires i < |ops| && WellFormed(ops, numIds) && ops[i].kind.FREE?
    requires HeapInStep(a, ops, i)
    requires ops[i].index in Placed(ops, i) && p == a.heap.start + Placed(ops, i)[ops[i].index].offset
    modifies a, a.heap.mem
    ensures HeapInStep(a, ops, i + 1)
    ensures a.heap.OnlyChanged(p - HEADER, 8)
  {
    hide Tiles, HeadersIn, Agree, Demand, ChunksOf, Cost, IsAligned, Placed, RoundUp, Live;
    ghost var b := Placed(ops, i)[ops[i].index];
    RequestUnfolds(ops, i);
    ChunksUnfold(a.heap.start, ops, i);
    ChunkOfPlaced(a.heap.start, ops, i, numIds, ops[i].index);
    PlacedInHeap(ops, i, numIds, ops[i].index);
    RoundUpBounds(b.size);
    a.Free(p, b.number);
  }

  // ---- eval_mm_valid

  /** The state between two iterations of eval_mm_valid. */
  ghost predicate CheckedInStep(t: TraceFile, a: Allocator, ranges: List, n: nat)
    reads t.blocks, t.blockSizes, a, a.heap, a.heap.mem, ranges, ranges.nodes
  {
    && t.Valid() && n <= |t.ops|
    && HeapInStep(a, t.ops, n)
    && BlocksInStep(t.blocks[..], a.heap.start, t.ops, n)
    && SizesInStep(t.blockSizes[..], t.ops, n)
    && Filled(a.heap.mem[..], t.ops, n)
    && ListInStep(ranges, a.heap.start, t.ops, n)
  }

  /** Every range of rs is one of `all`. */
  ghost predicate Among(rs: seq<Range>, all: seq<Range>) {
    forall r :: r in rs ==> r in all
  }

  lemma {:induction false} RemoveFirstAmong(rs: seq<Range>, lo: int)
    ensures Among(RemoveFirst(rs, lo), rs)
  {
    if rs != [] && rs[0].lo != lo {
      RemoveFirstAmong(rs[1..], lo);
    }
  }

  /** add_range accepts the block of request i against any part of the current list. */
  lemma NewRangeAccepted(start: int, ops: seq<TraceOp>, i: nat, numIds: nat, rs: seq<Range>)
    requires i < |ops| && WellFormed(ops, numIds) && !ops[i].kind.FREE? && IsAligned(start)
    requires Among(rs, RangesAfter(start, ops, i))
    ensures Accepts(rs, RangeOf(start + Demand(ops, i) + HEADER, ops[i].size), start, start + Demand(ops, i + 1) - 1)
  {
    hide RangesAfter, RoundUp;
    assert OpOk(ops, i, numIds);
    DemandAligned(ops, i);
    RoundUpBounds(ops[i].size);
    RangesDisjoint(start, ops, i, numIds);
    var a := RangeOf(start + Demand(ops, i) + HEADER, ops[i].size);
    forall j | 0 <= j < |rs|
      ensures !Hits(a, rs[j])
    {
      assert rs[j] in RangesAfter(start, ops, i);
    }
  }

  /** memset(p, index & 0xFF, size) over the block just placed. */
  method FillBlock(a: Allocator, ghost ops: seq<TraceOp>, ghost n: nat, ghost numIds: nat,
                   index: nat, p: int, size: nat)
    requires n <= |ops| && WellFormed(ops, numIds) && HeapInStep(a, ops, n)
    requires index in Placed(ops, n) && Placed(ops, n)[index].size == size
    requires p == a.heap.start + Placed(ops, n)[index].offset
    modifies a.heap.mem
    ensures HeapInStep(a, ops, n)
    ensures a.heap.OnlyChanged(p, size)
    ensures BlockFilled(a.heap.mem[..], Placed(ops, n)[index], index)
  {
    hide RoundUp, Tiles, HeadersIn, And, Demand, Placed, ChunksOf;
    ghost var b := Placed(ops, n)[index];
    PlacedInHeap(ops, n, numIds, index);
    RoundUpBounds(size);
    AndLowByte(index);
    a.heap.Memset(p, And(index, 0xFF), size);
    ChunkOfPlaced(a.heap.start, ops, n, numIds, index);
    PayloadWritten(old(a.heap.mem[..]), a.heap.mem[..], a.heap.start, a.chunks, a.heap.brk, b.number, p, size);
    SliceFilled(a.heap.mem[..], b, index);
  }

  lemma SliceFilled(mem: seq<Byte>, b: Block, id: nat)
    requires b.offset + b.size <= |mem|
    requires mem[b.offset..b.offset + b.size] == seq(b.size, _ => id % 256)
    ensures BlockFilled(mem, b, id)
  {
    forall o | b.offset <= o < b.offset + b.size
      ensures mem[o] == id % 256
    {
      assert mem[o] == mem[b.offset..b.offset + b.size][o - b.offset];
    }
  }

  /** The value of a memory byte read through a plain `char`. */
  function CharValue(b: Byte, signedChar: bool): int {
    if signedChar && b >= 128 then b - 256 else b
  }

  /** Recording the block of request i keeps the books in step. */
  lemma BooksStep(blocks: seq<int>, sizes: seq<int>, start: int, ops: seq<TraceOp>, i: nat, p: int)
    requires i < |ops| && BlocksInStep(blocks, start, ops, i) && !ops[i].kind.FREE?
    requires ops[i].index < |blocks| && p == start + Demand(ops, i) + HEADER
    ensures BlocksInStep(blocks[ops[i].index := p], start, ops, i + 1)
    ensures ops[i].index < |sizes| && SizesInStep(sizes, ops, i) ==>
              SizesInStep(sizes[ops[i].index := ops[i].size], ops, i + 1)
  {
    hide Demand, Requests, Placed;
    RequestUnfolds(ops, i);
  }

  lemma BlockAt(blocks: seq<int>, start: int, ops: seq<TraceOp>, n: nat, id: nat)
    requires n <= |ops| && id in Placed(ops, n) && BlocksInStep(blocks, start, ops, n)
    ensures id < |blocks| && blocks[id] == start + Placed(ops, n)[id].offset
  {
  }

  /** "Remember region" */
  method Remember(t: TraceFile, index: nat, p: int, size: int)
    requires t.Valid() && index < t.numIds
    modifies t.blocks, t.blockSizes
    ensures t.blocks[..] == old(t.blocks[..])[index := p]
    ensures t.blockSizes[..] == old(t.blockSizes[..])[index := size]
  {
    t.blocks[index] := p;
    t.blockSizes[index] := size;
  }

  /** Where request i puts its block. */
  lemma PlacedStep(ops: seq<TraceOp>, i: nat, numIds: nat)
    requires i < |ops| && WellFormed(ops, numIds)
    ensures ops[i].index < numIds
    ensures !ops[i].kind.FREE? ==>
              && 0 < ops[i].size < TWO_31
              && ops[i].index in Placed(ops, i + 1)
              && Placed(ops, i + 1)[ops[i].index].offset == Demand(ops, i) + HEADER
              && Placed(ops, i + 1)[ops[i].index].size == ops[i].size
    ensures !ops[i].kind.ALLOC? ==> ops[i].index in Placed(ops, i)
  {
    assert OpOk(ops, i, numIds);
    LiveArePlaced(ops, i, numIds);
  }

  /** What the driver does with an accepted block: fill it and remember it. `before` is the memory
      as it was before the request. */
  method FillAndRemember(t: TraceFile, a: Allocator, i: nat, p: int, ghost before: seq<Byte>)
    requires t.Valid() && i < |t.ops| && !t.ops[i].kind.FREE?
    requires HeapInStep(a, t.ops, i + 1) && p == a.heap.start + Demand(t.ops, i) + HEADER
    requires BlocksInStep(t.blocks[..], a.heap.start, t.ops, i) && SizesInStep(t.blockSizes[..], t.ops, i)
    requires |before| == a.heap.mem.Length && Filled(before, t.ops, i)
    requires KeptBelow(before, a.heap.mem[..], t.ops, i)
    modifies a.heap.mem, t.blocks, t.blockSizes
    ensures HeapInStep(a, t.ops, i + 1)
    ensures BlocksInStep(t.blocks[..], a.heap.start, t.ops, i + 1) && SizesInStep(t.blockSizes[..], t.ops, i + 1)
    ensures Filled(a.heap.mem[..], t.ops, i + 1)
  {
    hide BlocksInStep, SizesInStep, Filled, Demand, Placed, BlockFilled, HeapInStep, GivenUpHeader;
    var index, size := t.ops[i].index, t.ops[i].size;
    PlacedStep(t.ops, i, t.numIds);
    FillBlock(a, t.ops, i + 1, t.numIds, index, p, size);
    FilledStep(before, a.heap.mem[..], t.ops, i, t.numIds);
    BooksStep(t.blocks[..], t.blockSizes[..], a.heap.start, t.ops, i, p);
    Remember(t, index, p, size);
  }

  /** add_range on the block of request i, against any part of the list: it is always accepted. */
  method RecordNewRange(a: Allocator, ranges: List, ghost ops: seq<TraceOp>, ghost i: nat, ghost numIds: nat,
                        p: int, size: nat)
    returns (added: bool)
    requires i < |ops| && WellFormed(ops, numIds) && !ops[i].kind.FREE? && ops[i].size == size
    requires HeapInStep(a, ops, i + 1) && p == a.heap.start + Demand(ops, i) + HEADER
    requires ranges.Valid() && Among(ranges.Contents(), RangesAfter(a.heap.start, ops, i))
    modifies ranges
    ensures added && ranges.Valid() && fresh(ranges.Repr() - old(ranges.Repr()))
    ensures ranges.Contents() == [RangeOf(p, size)] + old(ranges.Contents())
  {
    hide Accepts, Among, RangesAfter, Demand, RangesOf, RangeOf, Tiles, HeadersIn, ChunksOf, Linked;
    SizeServed(ops, i, numIds);
    NewRangeAccepted(a.heap.start, ops, i, numIds, ranges.Contents());
    added := ranges.AddRange(a.heap, p, size);
  }

  method RecordAlloc(a: Allocator, ranges: List, ghost ops: seq<TraceOp>, ghost i: nat, ghost numIds: nat,
                     p: int, size: nat)
    returns (added: bool)
    requires i < |ops| && WellFormed(ops, numIds) && ops[i].kind.ALLOC? && ops[i].size == size
    requires HeapInStep(a, ops, i + 1) && p == a.heap.start + Demand(ops, i) + HEADER
    requires ListInStep(ranges, a.heap.start, ops, i)
    modifies ranges
    ensures added && ListInStep(ranges, a.heap.start, ops, i + 1)
    ensures ranges.Valid() && fresh(ranges.Repr() - old(ranges.Repr()))
  {
    hide RangesAfter, Demand, RangesOf, RangeOf, HeapInStep, Linked;
    RangesUnfold(a.heap.start, ops, i);
    added := RecordNewRange(a, ranges, ops, i, numIds, p, size);
  }

  lemma RecordedRealloc(start: int, ops: seq<TraceOp>, i: nat, rs: seq<Range>)
    requires i < |ops| && ops[i].kind.REALLOC? && ops[i].index in Placed(ops, i)
    ensures Recorded(start, ops, i, rs) ==
            [RangeOf(start + Demand(ops, i) + HEADER, ops[i].size)] +
            RemoveFirst(rs, start + Placed(ops, i)[ops[i].index].offset)
  {
    hide RangeOf, RemoveFirst, Placed, Demand;
  }

  /** Drop the old range, then add the new one. */
  method RecordRealloc(a: Allocator, ranges: List, ghost ops: seq<TraceOp>, ghost i: nat, ghost numIds: nat,
                       oldp: int, p: int, size: nat)
    returns (added: bool)
    requires i < |ops| && WellFormed(ops, numIds) && ops[i].kind.REALLOC? && ops[i].size == size
    requires HeapInStep(a, ops, i + 1) && p == a.heap.start + Demand(ops, i) + HEADER
    requires ops[i].index in Placed(ops, i) && oldp == a.heap.start + Placed(ops, i)[ops[i].index].offset
    requires ListInStep(ranges, a.heap.start, ops, i)
    modifies ranges, ranges.Repr()
    ensures added && ListInStep(ranges, a.heap.start, ops, i + 1)
    ensures ranges.Valid() && fresh(ranges.Repr() - old(ranges.Repr()))
  {
    hide RangesAfter, Demand, RangesOf, RangeOf, HeapInStep, RemoveFirst, Placed, Among, Linked, WellFormed, Recorded;
    RangesUnfold(a.heap.start, ops, i);
    RecordedRealloc(a.heap.start, ops, i, ranges.Contents());
    RemoveFirstAmong(ranges.Contents(), oldp);
    ranges.RemoveRange(oldp);
    added := RecordNewRange(a, ranges, ops, i, numIds, p, size);
  }

  lemma StepValid(a: Allocator, ranges: List, ops: seq<TraceOp>, n: nat)
    requires n <= |ops| && HeapInStep(a, ops, n) && ListInStep(ranges, a.heap.start, ops, n)
    ensures a.heap.Valid() && ranges.Valid()
  {
    hide ChunksOf, RangesAfter, Demand, Tiles, HeadersIn, Linked;
  }

  /** A header store at the old break. */
  lemma AllocKeepsBelow(mem: seq<Byte>, mem': seq<Byte>, ops: seq<TraceOp>, i: nat)
    requires i < |ops| && Agree(mem, mem', Demand(ops, i), 8)
    ensures KeptBelow(mem, mem', ops, i)
  {
    hide Demand, GivenUpHeader;
  }

  /** The ALLOC case of eval_mm_valid. */
  method CheckAlloc(t: TraceFile, a: Allocator, ranges: List, i: nat) returns (ok: bool)
    requires CheckedInStep(t, a, ranges, i) && i < |t.ops| && t.ops[i].kind.ALLOC?
    modifies a, a.heap`brk, a.heap.mem, t.blocks, t.blockSizes, ranges
    ensures a.heap.Valid() && ranges.Valid() && fresh(ranges.Repr() - old(ranges.Repr()))
    ensures ok <==> Demand(t.ops, i + 1) <= MAX_HEAP
    ensures ok ==> CheckedInStep(t, a, ranges, i + 1)
  {
    hide ListInStep, Demand, KeptBelow, Agree, HeapInStep, Placed, Filled, BlocksInStep, SizesInStep;
    hide WellFormed, Linked, Live;
    StepValid(a, ranges, t.ops, i);
    ok := false;
    var size := t.ops[i].size;
    var p := ServeAlloc(a, t.ops, i, t.numIds, size);
    if p != NULL {
      var added := RecordAlloc(a, ranges, t.ops, i, t.numIds, p, size);
      if added {
        AllocKeepsBelow(old(a.heap.mem[..]), a.heap.mem[..], t.ops, i);
        FillAndRemember(t, a, i, p, old(a.heap.mem[..]));
        ok := true;
      }
    }
  }

  /** The comparison loop after mm_realloc, reading memory through a plain `char`. */
  method SameBytes(a: Allocator, p: int, n: nat, index: nat, signedChar: bool) returns (same: bool)
    requires a.heap.InBuffer(p, n)
    ensures same <==> ReadAs(a.heap.Bytes(p, n), index % 256, signedChar)
  {
    hide And, CharValue;
    AndLowByte(index);
    var o := p - a.heap.start;
    var j := 0;
    while j < n
      invariant j <= n
      invariant forall k :: 0 <= k < j ==> CharValue(a.heap.Bytes(p, n)[k], signedChar) == index % 256
    {
      assert a.heap.Bytes(p, n)[j] == a.heap.mem[o + j];
      if CharValue(a.heap.mem[o + j], signedChar) != And(index, 0xFF) {
        return false;
      }
      j := j + 1;
    }
    return true;
  }

  ghost predicate AllAre(s: seq<Byte>, v: int) {
    forall k :: 0 <= k < |s| ==> s[k] == v
  }

  ghost predicate ReadAs(s: seq<Byte>, v: int, signedChar: bool) {
    forall k :: 0 <= k < |s| ==> CharValue(s[k], signedChar) == v
  }

  /** A move changes nothing below the old break but the header of the block given up, and the new
      block starts with the fill of the old one. */
  lemma MovedBlock(mem: seq<Byte>, mem': seq<Byte>, ops: seq<TraceOp>, i: nat, numIds: nat)
    requires i < |ops| && WellFormed(ops, numIds) && ops[i].kind.REALLOC? && Filled(mem, ops, i)
    requires ops[i].index in Placed(ops, i)
    requires Relocated(mem, mem', Placed(ops, i)[ops[i].index].offset, Demand(ops, i) + HEADER,
                       Min(ops[i].size, RoundUp(Placed(ops, i)[ops[i].index].size)))
    ensures KeptBelow(mem, mem', ops, i)
    ensures FillArrived(mem', Demand(ops, i) + HEADER,
                        Min(ops[i].size, Placed(ops, i)[ops[i].index].size), ops[i].index)
  {
    hide RoundUp, Demand, Placed, Live;
    var id := ops[i].index;
    assert id in Live(ops, i) && 0 < ops[i].size by { assert OpOk(ops, i, numIds); }
    var b := Placed(ops, i)[id];
    PlacedInHeap(ops, i, numIds, id);
    RoundUpBounds(b.size);
    assert BlockFilled(mem, b, id);
    var to, n, copied := Demand(ops, i) + HEADER, Min(ops[i].size, b.size), Min(ops[i].size, RoundUp(b.size));
    MovedFill(mem, mem', b, id, to, copied, n);
  }

  lemma MovedFill(mem: seq<Byte>, mem': seq<Byte>, b: Block, id: nat, to: nat, copied: nat, n: nat)
    requires BlockFilled(mem, b, id) && n <= b.size && n <= copied
    requires to + copied <= |mem'| && b.offset + copied <= |mem|
    requires mem'[to..to + copied] == mem[b.offset..b.offset + copied]
    ensures AllAre(mem'[to..to + n], id % 256)
  {
    var moved := mem'[to..to + n];
    forall k | 0 <= k < |moved|
      ensures moved[k] == id % 256
    {
      assert moved[k] == mem'[to..to + copied][k] == mem[b.offset + k];
    }
  }

  /** The comparison can only fail for a reason that has nothing to do with the allocator. */
  lemma FillReadsBack(bytes: seq<Byte>, index: nat, signedChar: bool)
    requires bytes != [] && AllAre(bytes, index % 256)
    ensures ReadAs(bytes, index % 256, signedChar) <==> !(signedChar && index % 256 >= 128)
  {
    assert bytes[0] == index % 256;
  }

  /** Has the start of the old payload arrived in the new block? */
  method CheckCopied(a: Allocator, newp: int, index: nat, size: int, oldSize: int, signedChar: bool, ghost to: nat)
    returns (same: bool)
    requires newp == a.heap.start + to && FillArrived(a.heap.mem[..], to, Min(size, oldSize), index)
    ensures same <==> !(signedChar && index % 256 >= 128)
  {
    hide CharValue;
    var n := oldSize;
    if size < n {
      n := size;
    }
    assert a.heap.mem[..][to..to + n] == a.heap.Bytes(newp, n);
    FillReadsBack(a.heap.Bytes(newp, n), index, signedChar);
    same := SameBytes(a, newp, n, index, signedChar);
  }

  /** mm_realloc on a filled heap: the start of the new block carries the old fill. */
  method ServeFilledRealloc(a: Allocator, ghost ops: seq<TraceOp>, ghost i: nat, ghost numIds: nat,
                            oldp: int, size: nat)
    returns (newp: int)
    requires i < |ops| && WellFormed(ops, numIds) && ops[i].kind.REALLOC? && ops[i].size == size
    requires HeapInStep(a, ops, i) && Filled(a.heap.mem[..], ops, i)
    requires ops[i].index in Placed(ops, i) && oldp == a.heap.start + Placed(ops, i)[ops[i].index].offset
    modifies a, a.heap`brk, a.heap.mem
    ensures a.heap.Valid()
    ensures newp == NULL <==> Demand(ops, i + 1) > MAX_HEAP
    ensures newp != NULL ==>
      && newp == a.heap.start + (Demand(ops, i) + HEADER)
      && HeapInStep(a, ops, i + 1)
      && KeptBelow(old(a.heap.mem[..]), a.heap.mem[..], ops, i)
      && FillArrived(a.heap.mem[..], Demand(ops, i) + HEADER,
                     Min(size, Placed(ops, i)[ops[i].index].size), ops[i].index)
  {
    hide HeapInStep, Filled, Relocated, KeptBelow, Placed, Demand, RoundUp;
    newp := ServeRealloc(a, ops, i, numIds, oldp, size);
    if newp != NULL {
      MovedBlock(old(a.heap.mem[..]), a.heap.mem[..], ops, i, numIds);
    }
  }

  /** The n > 0 bytes at offset `to` are the low byte of the id. */
  ghost predicate FillArrived(mem: seq<Byte>, to: nat, n: int, id: nat) {
    n > 0 && to + n <= |mem| && AllAre(mem[to..to + n], id % 256)
  }

  /** The two checks on a moved block: its range, then its bytes. */
  method CheckMoved(t: TraceFile, a: Allocator, ranges: List, i: nat, oldp: int, newp: int, signedChar: bool)
    returns (ok: bool)
    requires t.Valid() && i < |t.ops| && t.ops[i].kind.REALLOC? && t.ops[i].index in Placed(t.ops, i)
    requires HeapInStep(a, t.ops, i + 1) && newp == a.heap.start + (Demand(t.ops, i) + HEADER)
    requires SizesInStep(t.blockSizes[..], t.ops, i)
    requires oldp == a.heap.start + Placed(t.ops, i)[t.ops[i].index].offset
    requires FillArrived(a.heap.mem[..], Demand(t.ops, i) + HEADER,
                         Min(t.ops[i].size, Placed(t.ops, i)[t.ops[i].index].size), t.ops[i].index)
    requires ListInStep(ranges, a.heap.start, t.ops, i)
    modifies ranges, ranges.Repr()
    ensures ListInStep(ranges, a.heap.start, t.ops, i + 1)
    ensures ranges.Valid() && fresh(ranges.Repr() - old(ranges.Repr()))
    ensures ok <==> !(signedChar && t.ops[i].index % 256 >= 128)
  {
    hide ListInStep, Demand, HeapInStep, Placed, FillArrived, Min;
    var index, size := t.ops[i].index, t.ops[i].size;
    assert index < t.numIds by { PlacedStep(t.ops, i, t.numIds); }
    ghost var moved := a.heap.mem[..];
    ghost var to, size0 := Demand(t.ops, i) + HEADER, Placed(t.ops, i)[index].size;
    assert t.blockSizes[index] == size0 && FillArrived(moved, to, Min(size, size0), index);
    ok := RecordRealloc(a, ranges, t.ops, i, t.numIds, oldp, newp, size);
    if ok {
      var oldSize := t.blockSizes[index];
      assert oldSize == size0;
      assert a.heap.mem[..] == moved;
      assert newp == a.heap.start + to;
      assert FillArrived(a.heap.mem[..], to, Min(size, size0), index);
      ok := CheckCopied(a, newp, index, size, oldSize, signedChar, to);
    }
  }

  /** The REALLOC case of eval_mm_valid. */
  method CheckRealloc(t: TraceFile, a: Allocator, ranges: List, i: nat, signedChar: bool) returns (ok: bool)
    requires CheckedInStep(t, a, ranges, i) && i < |t.ops| && t.ops[i].kind.REALLOC?
    modifies a, a.heap`brk, a.heap.mem, t.blocks, t.blockSizes, ranges, ranges.Repr()
    ensures a.heap.Valid() && ranges.Valid() && fresh(ranges.Repr() - old(ranges.Repr()))
    ensures ok <==> Demand(t.ops, i + 1) <= MAX_HEAP && !(signedChar && t.ops[i].index % 256 >= 128)
    ensures ok ==> CheckedInStep(t, a, ranges, i + 1)
  {
    hide ListInStep, Demand, KeptBelow, HeapInStep, Placed, Filled, FillArrived, Min, BlocksInStep, SizesInStep;
    hide WellFormed, Linked, Live;
    StepValid(a, ranges, t.ops, i);
    ok := false;
    var index, size := t.ops[i].index, t.ops[i].size;
    PlacedStep(t.ops, i, t.numIds);
    BlockAt(t.blocks[..], a.heap.start, t.ops, i, index);
    var oldp := t.blocks[index];
    ghost var before := a.heap.mem[..];
    var newp := ServeFilledRealloc(a, t.ops, i, t.numIds, oldp, size);
    if newp != NULL {
      ghost var moved := a.heap.mem[..];
      ok := CheckMoved(t, a, ranges, i, oldp, newp, signedChar);
      if ok {
        assert a.heap.mem[..] == moved;
        FillAndRemember(t, a, i, newp, before);
      }
    }
  }

  /** remove_range for a block that is freed. */
  method RecordFree(ranges: List, ghost start: int, ghost ops: seq<TraceOp>, ghost i: nat, p: int)
    requires i < |ops| && ops[i].kind.FREE?
    requires ops[i].index in Placed(ops, i) && p == start + Placed(ops, i)[ops[i].index].offset
    requires ListInStep(ranges, start, ops, i)
    modifies ranges, ranges.Repr()
    ensures ListInStep(ranges, start, ops, i + 1)
    ensures ranges.Valid() && fresh(ranges.Repr() - old(ranges.Repr()))
  {
    hide RangesOf, RemoveFirst, RangesAfter, Linked;
    RangesUnfold(start, ops, i);
    ranges.RemoveRange(p);
  }

  /** A free forgets no address and no size. */
  lemma BooksKept(blocks: seq<int>, sizes: seq<int>, start: int, ops: seq<TraceOp>, i: nat)
    requires i < |ops| && ops[i].kind.FREE? && BlocksInStep(blocks, start, ops, i)
    ensures BlocksInStep(blocks, start, ops, i + 1)
    ensures SizesInStep(sizes, ops, i) ==> SizesInStep(sizes, ops, i + 1)
  {
    hide Demand, Requests, Placed;
    RequestUnfolds(ops, i);
  }

  /** A store in the header of the block that request i frees. */
  lemma FreeKeepsBelow(mem: seq<Byte>, mem': seq<Byte>, ops: seq<TraceOp>, i: nat)
    requires i < |ops| && ops[i].kind.FREE? && ops[i].index in Placed(ops, i)
    requires Agree(mem, mem', Placed(ops, i)[ops[i].index].offset - HEADER, 8)
    ensures KeptBelow(mem, mem', ops, i)
  {
    hide Demand, Placed;
  }

  /** The FREE case of eval_mm_valid. */
  method CheckFree(t: TraceFile, a: Allocator, ranges: List, i: nat)
    requires CheckedInStep(t, a, ranges, i) && i < |t.ops| && t.ops[i].kind.FREE?
    modifies a, a.heap.mem, ranges, ranges.Repr()
    ensures a.heap.Valid() && ranges.Valid() && fresh(ranges.Repr() - old(ranges.Repr()))
    ensures CheckedInStep(t, a, ranges, i + 1)
  {
    hide ListInStep, Demand, KeptBelow, Agree, HeapInStep, Placed, Filled, BlocksInStep, SizesInStep;
    hide WellFormed, Linked, Live;
    StepValid(a, ranges, t.ops, i);
    PlacedStep(t.ops, i, t.numIds);
    BlockAt(t.blocks[..], a.heap.start, t.ops, i, t.ops[i].index);
    var p := t.blocks[t.ops[i].index];
    ghost var before := a.heap.mem[..];
    RecordFree(ranges, a.heap.start, t.ops, i, p);
    ServeFree(a, t.ops, i, t.numIds, p);
    FreeKeepsBelow(before, a.heap.mem[..], t.ops, i);
    FilledStep(before, a.heap.mem[..], t.ops, i, t.numIds);
    BooksKept(t.blocks[..], t.blockSizes[..], a.heap.start, t.ops, i);
  }

  /** No reallocated id has a low byte that a plain signed `char` reads back as negative. */
  predicate FillsReadBack(ops: seq<TraceOp>, n: nat, signedChar: bool)
    requires n <= |ops|
  {
    forall i :: 0 <= i < n && ops[i].kind.REALLOC? ==> !(signedChar && ops[i].index % 256 >= 128)
  }

  lemma NothingRead(ops: seq<TraceOp>, signedChar: bool)
    ensures FillsReadBack(ops, 0, signedChar)
  {
  }

  lemma ReadBackMeaning(ops: seq<TraceOp>, signedChar: bool)
    ensures FillsReadBack(ops, |ops|, signedChar) <==>
            forall i :: 0 <= i < |ops| && ops[i].kind.REALLOC? ==> !(signedChar && ops[i].index % 256 >= 128)
  {
  }

  /** One unreadable reallocation spoils the whole trace. */
  lemma ReadBackStep(ops: seq<TraceOp>, i: nat, signedChar: bool)
    requires i < |ops| && FillsReadBack(ops, i, signedChar)
    ensures FillsReadBack(ops, i + 1, signedChar) <==>
            !(ops[i].kind.REALLOC? && signedChar && ops[i].index % 256 >= 128)
    ensures FillsReadBack(ops, |ops|, signedChar) ==> FillsReadBack(ops, i + 1, signedChar)
  {
  }

  /** A trace that fits the heap many times over and still fails the check where `char` is signed. */
  lemma SignedCharExample()
    ensures var ops := [TraceOp(ALLOC, 128, 1), TraceOp(REALLOC, 128, 1)];
            && WellFormed(ops, 129)
            && Demand(ops, 2) == 64 <= MAX_HEAP
            && !FillsReadBack(ops, 2, true) && FillsReadBack(ops, 2, false)
  {
    var ops := [TraceOp(ALLOC, 128, 1), TraceOp(REALLOC, 128, 1)];
    assert Live(ops, 0) == {} && Live(ops, 1) == {128};
    assert OpOk(ops, 0, 129) && OpOk(ops, 1, 129);
    assert Demand(ops, 1) == 32;
    assert ops[1].kind.REALLOC?;
  }

  /** One iteration of the loop of eval_mm_valid. */
  method CheckRequest(t: TraceFile, a: Allocator, ranges: List, i: nat, signedChar: bool) returns (ok: bool)
    requires CheckedInStep(t, a, ranges, i) && i < |t.ops|
    modifies a, a.heap`brk, a.heap.mem, t.blocks, t.blockSizes, ranges, ranges.Repr()
    ensures a.heap.Valid() && ranges.Valid() && fresh(ranges.Repr() - old(ranges.Repr()))
    ensures ok <==> Demand(t.ops, i + 1) <= MAX_HEAP
                    && !(t.ops[i].kind.REALLOC? && signedChar && t.ops[i].index % 256 >= 128)
    ensures ok ==> CheckedInStep(t, a, ranges, i + 1)
  {
    hide CheckedInStep;
    if t.ops[i].kind.FREE? {
      DemandFits(t, a, ranges, i);
      RequestUnfolds(t.ops, i);
    }
    ok := true;
    match t.ops[i].kind {
      case ALLOC => ok := CheckAlloc(t, a, ranges, i);
      case REALLOC => ok := CheckRealloc(t, a, ranges, i, signedChar);
      case FREE => CheckFree(t, a, ranges, i);
    }
  }

  lemma EmptyInStep(t: TraceFile, a: Allocator, ranges: List)
    requires t.Valid() && a.Valid() && a.heap.brk == a.heap.start && a.chunks == []
    requires ranges.Valid() && ranges.Contents() == []
    ensures CheckedInStep(t, a, ranges, 0)
  {
  }

  lemma DemandFits(t: TraceFile, a: Allocator, ranges: List, n: nat)
    requires CheckedInStep(t, a, ranges, n)
    ensures a.heap.Valid() && ranges.Valid()
    ensures Demand(t.ops, n) <= MAX_HEAP
  {
    hide ChunksOf, RangesAfter, Filled, BlocksInStep, SizesInStep;
  }

  /** mm_checkheap in the middle of a validated run: it counts one used chunk per recorded range and
      one free chunk for every block given up, and the chunks are all the demand so far. */
  method CheckServedHeap(t: TraceFile, a: Allocator, ranges: List, ghost n: nat)
    returns (nUsed: nat, nFree: nat, usedSize: nat, freeSize: nat)
    requires CheckedInStep(t, a, ranges, n)
    ensures nUsed == |Live(t.ops, n)| == |ranges.nodes|
    ensures nUsed + nFree == Requests(t.ops, n)
    ensures usedSize + freeSize == Demand(t.ops, n)
  {
    hide ChunksOf, Live, Demand, RangesAfter, Requests, Tiles, HeadersIn, Filled, BlocksInStep, SizesInStep, Linked;
    UsedChunksAreLive(a.heap.start, t.ops, n, t.numIds);
    RangesCount(a.heap.start, t.ops, n, t.numIds);
    nUsed, nFree, usedSize, freeSize := a.CheckHeap();
  }

  /** The beginning of eval_mm_valid: an empty heap and an empty list, whatever was there before. */
  method StartCheck(t: TraceFile, a: Allocator, ranges: List)
    requires t.Valid() && a.heap.Valid() && ranges.Valid()
    modifies a, a.heap`brk, ranges, ranges.Repr()
    ensures ranges.Repr() == {} && CheckedInStep(t, a, ranges, 0)
  {
    hide CheckedInStep, RangesOf, Tiles, HeadersIn, Linked, WellFormed;
    a.heap.ResetBrk();
    ranges.ClearRanges();
    var r := a.Init();
    assert r >= 0;
    EmptyInStep(t, a, ranges);
  }

  /** eval_mm_valid: the naive allocator passes exactly when the requests fit the heap and the fill
      pattern survives being read through `char`. */
  method EvalMmValid(t: TraceFile, a: Allocator, ranges: List, signedChar: bool) returns (valid: int)
    requires t.Valid() && a.heap.Valid() && ranges.Valid()
    modifies a, a.heap`brk, a.heap.mem, t.blocks, t.blockSizes, ranges, ranges.Repr()
    ensures a.heap.Valid() && ranges.Valid() && fresh(ranges.Repr())
    ensures valid == 0 || valid == 1
    ensures valid == 1 <==>
            && Demand(t.ops, |t.ops|) <= 209_715_200
            && forall i :: 0 <= i < |t.ops| && t.ops[i].kind.REALLOC? ==>
                 !(signedChar && t.ops[i].index % 256 >= 128)
    ensures valid == 1 ==> CheckedInStep(t, a, ranges, |t.ops|)
  {
    hide Demand, CheckedInStep, Linked, WellFormed, FillsReadBack;
    StartCheck(t, a, ranges);
    NothingRead(t.ops, signedChar);
    ReadBackMeaning(t.ops, signedChar);
    var i := 0;
    while i < |t.ops|
      invariant i <= |t.ops| && CheckedInStep(t, a, ranges, i) && fresh(ranges.Repr())
      invariant FillsReadBack(t.ops, i, signedChar)
    {
      DemandMonotone(t.ops, i + 1, |t.ops|);
      ReadBackStep(t.ops, i, signedChar);
      var ok := CheckRequest(t, a, ranges, i, signedChar);
      if !ok {
        return 0;
      }
      i := i + 1;
    }
    DemandFits(t, a, ranges, i);
    return 1;
  }

  // ---- eval_mm_util and eval_mm_speed

  /** What eval_mm_util gives back: the program may exit, or 0.0/0.0 may make the quotient undefined. */
  datatype Utilisation = AppError | NotANumber | Quotient(value: real)

  /** The state both replays keep: the heap and the block addresses. */
  ghost predicate ReplayedInStep(t: TraceFile, a: Allocator, n: nat)
    reads t.blocks, a, a.heap, a.heap.mem
  {
    && t.Valid() && n <= |t.ops|
    && HeapInStep(a, t.ops, n)
    && BlocksInStep(t.blocks[..], a.heap.start, t.ops, n)
  }

  method ReplayAlloc(t: TraceFile, a: Allocator, i: nat) returns (ok: bool)
    requires ReplayedInStep(t, a, i) && i < |t.ops| && t.ops[i].kind.ALLOC?
    modifies a, a.heap`brk, a.heap.mem, t.blocks
    ensures a.heap.Valid()
    ensures ok <==> Demand(t.ops, i + 1) <= MAX_HEAP
    ensures ok ==> ReplayedInStep(t, a, i + 1)
  {
    hide Demand, BlocksInStep, ChunksOf, Tiles, HeadersIn;
    PlacedStep(t.ops, i, t.numIds);
    var p := ServeAlloc(a, t.ops, i, t.numIds, t.ops[i].size);
    ok := p != NULL;
    if ok {
      BooksStep(t.blocks[..], [], a.heap.start, t.ops, i, p);
      ghost var books := t.blocks[..];
      t.blocks[t.ops[i].index] := p;
      assert t.blocks[..] == books[t.ops[i].index := p];
    }
  }

  method ReplayRealloc(t: TraceFile, a: Allocator, i: nat) returns (ok: bool)
    requires ReplayedInStep(t, a, i) && i < |t.ops| && t.ops[i].kind.REALLOC?
    modifies a, a.heap`brk, a.heap.mem, t.blocks
    ensures a.heap.Valid()
    ensures ok <==> Demand(t.ops, i + 1) <= MAX_HEAP
    ensures ok ==> ReplayedInStep(t, a, i + 1)
  {
    hide Demand, ChunksOf, Tiles, HeadersIn, Relocated, RoundUp, Placed, BlocksInStep;
    PlacedStep(t.ops, i, t.numIds);
    BlockAt(t.blocks[..], a.heap.start, t.ops, i, t.ops[i].index);
    var oldp := t.blocks[t.ops[i].index];
    var newp := ServeRealloc(a, t.ops, i, t.numIds, oldp, t.ops[i].size);
    ok := newp != NULL;
    if ok {
      BooksStep(t.blocks[..], [], a.heap.start, t.ops, i, newp);
      ghost var books := t.blocks[..];
      t.blocks[t.ops[i].index] := newp;
      assert t.blocks[..] == books[t.ops[i].index := newp];
    }
  }

  method ReplayFree(t: TraceFile, a: Allocator, i: nat)
    requires ReplayedInStep(t, a, i) && i < |t.ops| && t.ops[i].kind.FREE?
    modifies a, a.heap.mem
    ensures a.heap.Valid() && ReplayedInStep(t, a, i + 1)
  {
    hide Demand, ChunksOf, Tiles, HeadersIn, Placed, BlocksInStep;
    PlacedStep(t.ops, i, t.numIds);
    BlockAt(t.blocks[..], a.heap.start, t.ops, i, t.ops[i].index);
    BooksKept(t.blocks[..], [], a.heap.start, t.ops, i);
    var p := t.blocks[t.ops[i].index];
    ServeFree(a, t.ops, i, t.numIds, p);
  }

  /** One request without any checking; `ok` is false where the driver calls app_error. */
  method ReplayRequest(t: TraceFile, a: Allocator, i: nat) returns (ok: bool)
    requires ReplayedInStep(t, a, i) && i < |t.ops|
    modifies a, a.heap`brk, a.heap.mem, t.blocks
    ensures a.heap.Valid()
    ensures ok <==> Demand(t.ops, i + 1) <= MAX_HEAP
    ensures ok ==> ReplayedInStep(t, a, i + 1)
  {
    hide ReplayedInStep;
    if t.ops[i].kind.FREE? {
      ReplayFits(t, a, i);
      RequestUnfolds(t.ops, i);
    }
    ok := true;
    match t.ops[i].kind {
      case ALLOC => ok := ReplayAlloc(t, a, i);
      case REALLOC => ok := ReplayRealloc(t, a, i);
      case FREE => ReplayFree(t, a, i);
    }
  }

  lemma ReplayFits(t: TraceFile, a: Allocator, n: nat)
    requires ReplayedInStep(t, a, n)
    ensures a.heap.Valid() && Demand(t.ops, n) <= MAX_HEAP
    ensures a.heap.HeapSize() == Demand(t.ops, n)
  {
    hide ChunksOf, BlocksInStep;
  }

  lemma ReplayValid(t: TraceFile, a: Allocator, i: nat)
    requires ReplayedInStep(t, a, i) && i < |t.ops|
    ensures t.Valid() && t.ops[i].index < t.numIds
  {
    hide HeapInStep, BlocksInStep;
    assert OpOk(t.ops, i, t.numIds);
  }

  lemma EmptyReplay(t: TraceFile, a: Allocator)
    requires t.Valid() && a.Valid() && a.heap.brk == a.heap.start && a.chunks == []
    ensures ReplayedInStep(t, a, 0) && SizesInStep(t.blockSizes[..], t.ops, 0)
  {
  }

  /** The bookkeeping of eval_mm_util for one request: remember the size, adjust the total. */
  method Account(t: TraceFile, i: nat, total: int, oldsize: int) returns (newTotal: int)
    requires t.Valid() && i < |t.ops| && SizesInStep(t.blockSizes[..], t.ops, i)
    requires total == RunningTotal(t.ops, i)
    requires t.ops[i].index < t.numIds && (!t.ops[i].kind.ALLOC? ==> oldsize == t.blockSizes[t.ops[i].index])
    modifies t.blockSizes
    ensures SizesInStep(t.blockSizes[..], t.ops, i + 1)
    ensures newTotal == RunningTotal(t.ops, i + 1)
  {
    PlacedStep(t.ops, i, t.numIds);
    var index, size := t.ops[i].index, t.ops[i].size;
    ghost var sizes := t.blockSizes[..];
    match t.ops[i].kind {
      case ALLOC =>
        t.blockSizes[index] := size;
        newTotal := total + size;
      case REALLOC =>
        t.blockSizes[index] := size;
        newTotal := total + (size - oldsize);
      case FREE =>
        newTotal := total - oldsize;
    }
    assert t.blockSizes[..] == if t.ops[i].kind.FREE? then sizes else sizes[index := size];
  }

  /** A free cannot raise the mark, and while the requests fit the heap both totals fit an `int`. */
  lemma TotalsStep(ops: seq<TraceOp>, i: nat, numIds: nat)
    requires i < |ops| && WellFormed(ops, numIds)
    ensures Peak(ops, i + 1) == if !ops[i].kind.FREE? && RunningTotal(ops, i + 1) > Peak(ops, i)
                                then RunningTotal(ops, i + 1) else Peak(ops, i)
    ensures Demand(ops, i + 1) <= MAX_HEAP ==> IsInt32(RunningTotal(ops, i + 1)) && IsInt32(Peak(ops, i + 1))
  {
    RunningTotalFits(ops, i + 1, numIds);
    RunningTotalIsLive(ops, i + 1, numIds);
    PeakFits(ops, i + 1, numIds);
    PeakFits(ops, i, numIds);
    if i > 0 || !ops[i].kind.FREE? {
      assert RunningTotal(ops, i) <= Peak(ops, i);
    }
  }

  lemma TotalsEnd(ops: seq<TraceOp>, numIds: nat)
    requires WellFormed(ops, numIds)
    ensures 0 <= Peak(ops, |ops|)
    ensures ops != [] ==> Peak(ops, |ops|) < Demand(ops, |ops|)
    ensures Demand(ops, |ops|) == 0 <==> ops == []
  {
    PeakFits(ops, |ops|, numIds);
  }

  lemma QuotientBounds(num: int, den: int)
    requires 0 <= num < den
    ensures 0.0 <= num as real / den as real < 1.0
    ensures (num as real / den as real) * (den as real) == num as real
  {
  }

  /** The quotient eval_mm_util returns: of the high-water mark and the heap size. */
  method Ratio(ghost ops: seq<TraceOp>, ghost numIds: nat, maxTotal: int, heapSize: int) returns (r: Utilisation)
    requires WellFormed(ops, numIds) && maxTotal == Peak(ops, |ops|) && heapSize == Demand(ops, |ops|)
    ensures !r.AppError? && (r.NotANumber? <==> ops == [])
    ensures r.Quotient? ==> 0.0 <= r.value < 1.0 && r.value * (heapSize as real) == maxTotal as real
  {
    hide Demand, Peak, WellFormed;
    TotalsEnd(ops, numIds);
    if heapSize == 0 {
      r := NotANumber;
    } else {
      r := Quotient(maxTotal as real / heapSize as real);
      QuotientBounds(maxTotal, heapSize);
    }
  }

  /** The state between two iterations of eval_mm_util. */
  ghost predicate MeasuredInStep(t: TraceFile, a: Allocator, n: nat, total: int, maxTotal: int)
    reads t.blocks, t.blockSizes, a, a.heap, a.heap.mem
  {
    && ReplayedInStep(t, a, n)
    && SizesInStep(t.blockSizes[..], t.ops, n)
    && total == RunningTotal(t.ops, n) && maxTotal == Peak(t.ops, n)
    && IsInt32(total) && IsInt32(maxTotal)
  }

  lemma EmptyMeasure(t: TraceFile, a: Allocator)
    requires t.Valid() && a.Valid() && a.heap.brk == a.heap.start && a.chunks == []
    ensures MeasuredInStep(t, a, 0, 0, 0)
  {
    hide ReplayedInStep, SizesInStep;
    EmptyReplay(t, a);
  }

  /** One iteration of the loop of eval_mm_util. */
  method MeasureRequest(t: TraceFile, a: Allocator, i: nat, total: int, maxTotal: int)
    returns (ok: bool, newTotal: int, newMax: int)
    requires MeasuredInStep(t, a, i, total, maxTotal) && i < |t.ops|
    modifies a, a.heap`brk, a.heap.mem, t.blocks, t.blockSizes
    ensures a.heap.Valid()
    ensures ok <==> Demand(t.ops, i + 1) <= MAX_HEAP
    ensures ok ==> MeasuredInStep(t, a, i + 1, newTotal, newMax)
  {
    hide Demand, ReplayedInStep, SizesInStep, RunningTotal, Peak, WellFormed;
    ReplayValid(t, a, i);
    var oldsize := if t.ops[i].kind.ALLOC? then 0 else t.blockSizes[t.ops[i].index];
    newTotal, newMax := total, maxTotal;
    ok := ReplayRequest(t, a, i);
    if ok {
      newTotal := Account(t, i, total, oldsize);
      TotalsStep(t.ops, i, t.numIds);
      if !t.ops[i].kind.FREE? && newTotal > maxTotal {
        newMax := newTotal;
      }
    }
  }

  /** eval_mm_util. Where the trace fits, the quotient is the high-water mark of live payload over the
      final heap size, below 1; no running total ever leaves the range of `int`. */
  method EvalMmUtil(t: TraceFile, a: Allocator) returns (r: Utilisation)
    requires t.Valid() && a.heap.Valid()
    modifies a, a.heap`brk, a.heap.mem, t.blocks, t.blockSizes
    ensures a.heap.Valid()
    ensures r.AppError? <==> Demand(t.ops, |t.ops|) > MAX_HEAP
    ensures r.NotANumber? <==> t.ops == []
    ensures r.Quotient? ==>
      && 0.0 <= r.value < 1.0
      && r.value * (Demand(t.ops, |t.ops|) as real) == Peak(t.ops, |t.ops|) as real
    ensures !r.AppError? ==> ReplayedInStep(t, a, |t.ops|)
  {
    hide Demand, ReplayedInStep, SizesInStep, RunningTotal, Peak, Tiles, HeadersIn, WellFormed;
    a.heap.ResetBrk();
    var init := a.Init();
    assert init >= 0;
    EmptyMeasure(t, a);
    var maxTotal, total, i := 0, 0, 0;
    while i < |t.ops|
      invariant i <= |t.ops| && MeasuredInStep(t, a, i, total, maxTotal)
    {
      DemandMonotone(t.ops, i + 1, |t.ops|);
      var ok, newTotal, newMax := MeasureRequest(t, a, i, total, maxTotal);
      if !ok {
        return AppError;
      }
      total, maxTotal, i := newTotal, newMax, i + 1;
    }
    ReplayFits(t, a, i);
    r := Ratio(t.ops, t.numIds, maxTotal, a.heap.HeapSize());
  }

  /** eval_mm_speed: the same requests, reaching app_error exactly when they do not fit. */
  method EvalMmSpeed(t: TraceFile, a: Allocator) returns (ok: bool)
    requires t.Valid() && a.heap.Valid()
    modifies a, a.heap`brk, a.heap.mem, t.blocks
    ensures a.heap.Valid()
    ensures ok <==> Demand(t.ops, |t.ops|) <= MAX_HEAP
    ensures ok ==> ReplayedInStep(t, a, |t.ops|)
  {
    hide Demand, ReplayedInStep, Tiles, HeadersIn;
    a.heap.ResetBrk();
    var init := a.Init();
    assert init >= 0;
    EmptyReplay(t, a);
    var i := 0;
    while i < |t.ops|
      invariant i <= |t.ops| && ReplayedInStep(t, a, i)
    {
      DemandMonotone(t.ops, i + 1, |t.ops|);
      ok := ReplayRequest(t, a, i);
      if !ok {
        return;
      }
      i := i + 1;
    }
    ReplayFits(t, a, i);
    ok := true;
  }

  /** What the driver reports for an accepted trace. */
  ghost predicate Measured(util: Utilisation, ops: seq<TraceOp>) {
    && !util.AppError?
    && (util.NotANumber? <==> ops == [])
    && (util.Quotient? ==> util.value * (Demand(ops, |ops|) as real) == Peak(ops, |ops|) as real)
  }

  /** The driver on one trace: validate, then measure, then time `runs` times. Once a trace has been
      accepted no later replay reaches app_error, and each leaves every block where validation left it. */
  method EvalTrace(t: TraceFile, a: Allocator, ranges: List, signedChar: bool, runs: nat)
    returns (valid: int, util: Utilisation, exited: bool)
    requires t.Valid() && a.heap.Valid() && ranges.Valid()
    modifies a, a.heap`brk, a.heap.mem, t.blocks, t.blockSizes, ranges, ranges.Repr()
    ensures a.heap.Valid() && ranges.Valid() && fresh(ranges.Repr())
    ensures !exited
    ensures valid == 0 || valid == 1
    ensures valid == 1 <==>
            && Demand(t.ops, |t.ops|) <= 209_715_200
            && forall i :: 0 <= i < |t.ops| && t.ops[i].kind.REALLOC? ==>
                 !(signedChar && t.ops[i].index % 256 >= 128)
    ensures valid == 1 ==> Measured(util, t.ops) && BlocksInStep(t.blocks[..], a.heap.start, t.ops, |t.ops|)
  {
    hide Demand, Peak, FillsReadBack, HeapInStep, BlocksInStep, ListInStep, Filled, SizesInStep, Linked;
    exited, util := false, NotANumber;
    valid := EvalMmValid(t, a, ranges, signedChar);
    if valid == 1 {
      util := EvalMmUtil(t, a);
      exited := util.AppError?;
      var k := 0;
      while k < runs && !exited
        invariant a.heap.Valid() && ranges.Valid() && fresh(ranges.Repr())
        invariant !exited && ReplayedInStep(t, a, |t.ops|)
      {
        var ok := EvalMmSpeed(t, a);
        exited := !ok;
        k := k + 1;
      }
    }
  }

  /** A trace file as read_trace finds it. */
  datatype Input = Input(ops: seq<TraceOp>, numIds: nat)

  ghost predicate Accepted(input: Input, signedChar: bool) {
    Demand(input.ops, |input.ops|) <= MAX_HEAP && FillsReadBack(input.ops, |input.ops|, signedChar)
  }

  /** Which traces are accepted, from their requests and byte counts alone; `sums` are the partial sums
      of 16 bytes of header and the rounded size of every request that is not a free. */
  lemma AcceptedExactly(input: Input, signedChar: bool, sums: seq<int>)
    requires |sums| == |input.ops| + 1 && sums[0] == 0
    requires forall i :: 0 <= i < |input.ops| ==>
               sums[i + 1] == sums[i] +
               (if input.ops[i].kind.FREE? then 0 else 16 + (input.ops[i].size + 15) / 16 * 16)
    ensures Accepted(input, signedChar) <==>
            && sums[|input.ops|] <= 209_715_200
            && forall i :: 0 <= i < |input.ops| && input.ops[i].kind.REALLOC? ==>
                 !(signedChar && input.ops[i].index % 256 >= 128)
  {
    DemandIsSum(input.ops, sums, |input.ops|);
  }

  lemma EqualWellFormed(ops: seq<TraceOp>, size: nat)
    requires forall i :: 0 <= i < |ops| ==> ops[i] == TraceOp(ALLOC, i, size)
    requires 0 < size < 0x8000_0000
    ensures WellFormed(ops, |ops|)
  {
    hide Demand, Live;
    forall i | 0 <= i < |ops|
      ensures OpOk(ops, i, |ops|)
    {
      EqualDemand(ops, i, size);
    }
  }

  /** The capacity of the heap: n allocations of one size are accepted exactly while n headers and n
      rounded payloads fit 200 MB. */
  lemma Capacity(ops: seq<TraceOp>, size: nat, signedChar: bool)
    requires forall i :: 0 <= i < |ops| ==> ops[i] == TraceOp(ALLOC, i, size)
    requires 0 < size < 0x8000_0000
    ensures WellFormed(ops, |ops|)
    ensures Accepted(Input(ops, |ops|), signedChar) <==> |ops| * (16 + (size + 15) / 16 * 16) <= 209_715_200
  {
    hide Demand, WellFormed;
    EqualWellFormed(ops, size);
    EqualDemand(ops, |ops|, size);
  }

  /** 51200 blocks of 4080 bytes fit, and no more. */
  lemma PagesFit(ops: seq<TraceOp>, signedChar: bool)
    requires forall i :: 0 <= i < |ops| ==> ops[i] == TraceOp(ALLOC, i, 4080)
    ensures Accepted(Input(ops, |ops|), signedChar) <==> |ops| <= 51_200
  {
    hide Accepted, WellFormed;
    Capacity(ops, 4080, signedChar);
  }

  /** The largest single block the driver can be given. */
  lemma LargestBlock(op: TraceOp, signedChar: bool)
    requires op.kind.ALLOC? && op.index == 0 && 0 < op.size < 0x8000_0000
    ensures Accepted(Input([op], 1), signedChar) <==> op.size <= 209_715_184
  {
    hide Accepted, WellFormed;
    Capacity([op], op.size, signedChar);
  }

  /** The trace file short1.rep. */
  function Short1(): seq<TraceOp> {
    [TraceOp(ALLOC, 0, 2040), TraceOp(ALLOC, 1, 2040), TraceOp(FREE, 1, 0), TraceOp(ALLOC, 2, 48),
     TraceOp(ALLOC, 3, 4072), TraceOp(FREE, 3, 0), TraceOp(ALLOC, 4, 4072), TraceOp(FREE, 0, 0),
     TraceOp(FREE, 2, 0), TraceOp(ALLOC, 5, 4072), TraceOp(FREE, 4, 0), TraceOp(FREE, 5, 0)]
  }

  lemma Short1LiveFirst()
    ensures var ops := Short1();
            && Live(ops, 0) == {} && Live(ops, 1) == {0} && Live(ops, 2) == {0, 1}
            && Live(ops, 3) == {0} && Live(ops, 4) == {0, 2} && Live(ops, 5) == {0, 2, 3}
  {
    hide RoundUp;
  }

  lemma Short1LiveLast()
    ensures var ops := Short1();
            && Live(ops, 6) == {0, 2} && Live(ops, 7) == {0, 2, 4} && Live(ops, 8) == {2, 4}
            && Live(ops, 9) == {4} && Live(ops, 10) == {4, 5} && Live(ops, 11) == {5}
  {
    Short1LiveFirst();
  }

  lemma Short1WellFormed()
    ensures WellFormed(Short1(), 6)
  {
    hide Demand, Live;
    Short1LiveFirst();
    Short1LiveLast();
  }

  lemma Short1Demand()
    ensures Demand(Short1(), 12) == 16_480
  {
    assert Demand(Short1(), 5) == 8_288;
  }

  /** It is accepted, needs 16480 bytes of heap, and its live payload never exceeds 8144 bytes. */
  lemma Short1Accepted(signedChar: bool)
    ensures WellFormed(Short1(), 6) && Accepted(Input(Short1(), 6), signedChar)
    ensures Demand(Short1(), 12) == 16_480 && Peak(Short1(), 12) == 8144
  {
    hide Peak, Demand, WellFormed;
    assert forall i :: 0 <= i < 12 ==> !Short1()[i].kind.REALLOC?;
    Short1WellFormed();
    Short1Demand();
    Short1Peak();
  }

  lemma Short1Sizes()
    ensures var ops := Short1();
            && 1 in Placed(ops, 2) && Placed(ops, 2)[1].size == 2040
            && 3 in Placed(ops, 5) && Placed(ops, 5)[3].size == 4072
            && 0 in Placed(ops, 7) && Placed(ops, 7)[0].size == 2040
            && 2 in Placed(ops, 8) && Placed(ops, 8)[2].size == 48
            && 4 in Placed(ops, 10) && Placed(ops, 10)[4].size == 4072
            && 5 in Placed(ops, 11) && Placed(ops, 11)[5].size == 4072
  {
    hide Placed, Demand, Requests;
    var ops := Short1();
    PlacedIsLatest(ops, 2, 1);
    PlacedIsLatest(ops, 5, 4);
    PlacedIsLatest(ops, 7, 0);
    PlacedIsLatest(ops, 8, 3);
    PlacedIsLatest(ops, 10, 6);
    PlacedIsLatest(ops, 11, 9);
  }

  lemma Short1Peak()
    ensures Peak(Short1(), 12) == 8144
  {
    hide Placed, Demand;
    Short1Sizes();
    var ops := Short1();
    TotalsStart(ops);
    assert RunningTotal(ops, 4) == 2088 && Peak(ops, 4) == 4080;
    assert RunningTotal(ops, 8) == 4120 && Peak(ops, 8) == 6160;
  }

  /** The statistics of main after n traces. */
  ghost predicate Reported(inputs: seq<Input>, n: nat, signedChar: bool, valid: seq<int>, utils: seq<Utilisation>) {
    && |valid| == |utils| == n <= |inputs|
    && forall i :: 0 <= i < n ==>
         && (valid[i] == 0 || valid[i] == 1)
         && (valid[i] == 1 <==> Accepted(inputs[i], signedChar))
         && (valid[i] == 1 ==> Measured(utils[i], inputs[i].ops))
  }

  lemma NothingReported(inputs: seq<Input>, signedChar: bool)
    ensures Reported(inputs, 0, signedChar, [], [])
  {
  }

  lemma ReportedStep(inputs: seq<Input>, n: nat, signedChar: bool, valid: seq<int>, utils: seq<Utilisation>,
                     v: int, util: Utilisation)
    requires n < |inputs| && Reported(inputs, n, signedChar, valid, utils)
    requires (v == 0 || v == 1) && (v == 1 <==> Accepted(inputs[n], signedChar))
    requires v == 1 ==> Measured(util, inputs[n].ops)
    ensures Reported(inputs, n + 1, signedChar, valid + [v], utils + [util])
  {
    hide Accepted, Measured;
  }

  /** One round of main: read a trace, then evaluate it. */
  method EvalInput(input: Input, a: Allocator, ranges: List, signedChar: bool, runs: nat)
    returns (valid: int, util: Utilisation, exited: bool)
    requires WellFormed(input.ops, input.numIds) && a.heap.Valid() && ranges.Valid()
    modifies a, a.heap`brk, a.heap.mem, ranges, ranges.Repr()
    ensures a.heap.Valid() && ranges.Valid() && fresh(ranges.Repr())
    ensures !exited
    ensures valid == 0 || valid == 1
    ensures valid == 1 <==> Accepted(input, signedChar)
    ensures valid == 1 ==> Measured(util, input.ops)
  {
    hide Demand, BlocksInStep, Measured, IsAligned, Linked, WellFormed;
    var t := new TraceFile(input.ops, input.numIds);
    valid, util, exited := EvalTrace(t, a, ranges, signedChar, runs);
  }

  /** The loop that counts the traces passed. */
  method CountCorrect(valid: seq<int>) returns (numCorrect: nat)
    ensures numCorrect == |set i | 0 <= i < |valid| && valid[i] != 0|
  {
    numCorrect := 0;
    ghost var counted := {};
    for i := 0 to |valid|
      invariant counted == set k | 0 <= k < i && valid[k] != 0
      invariant numCorrect == |counted|
    {
      if valid[i] != 0 {
        numCorrect := numCorrect + 1;
        counted := counted + {i};
      }
    }
  }

  lemma ReportedMeaning(inputs: seq<Input>, signedChar: bool, valid: seq<int>, utils: seq<Utilisation>)
    requires Reported(inputs, |inputs|, signedChar, valid, utils)
    ensures |valid| == |utils| == |inputs|
    ensures forall i :: 0 <= i < |inputs| ==> (valid[i] == 1 <==> Accepted(inputs[i], signedChar))
    ensures forall i :: 0 <= i < |inputs| && valid[i] == 1 ==>
              && !utils[i].AppError?
              && (utils[i].NotANumber? <==> inputs[i].ops == [])
              && (utils[i].Quotient? ==>
                    utils[i].value * (Demand(inputs[i].ops, |inputs[i].ops|) as real)
                    == Peak(inputs[i].ops, |inputs[i].ops|) as real)
    ensures (set i | 0 <= i < |valid| && valid[i] != 0) == set i | 0 <= i < |inputs| && Accepted(inputs[i], signedChar)
    ensures (set i | 0 <= i < |valid| && valid[i] != 0) == set i | 0 <= i < |valid| && valid[i] == 1
  {
    hide Accepted, Demand, Peak;
  }

  /** The loops of main over all traces, on one heap and one range list: no round depends on the
      rounds before it, no trace makes the program exit, and the number of correct traces is the number
      of those that fit the heap and read back. */
  method EvalTraces(inputs: seq<Input>, base: int, signedChar: bool, runs: nat)
    returns (valid: seq<int>, utils: seq<Utilisation>, exited: bool, numCorrect: nat)
    requires 0 < base && IsAligned(base)
    requires forall i :: 0 <= i < |inputs| ==> WellFormed(inputs[i].ops, inputs[i].numIds)
    ensures !exited && |valid| == |utils| == |inputs|
    ensures forall i :: 0 <= i < |inputs| ==> (valid[i] == 1 <==> Accepted(inputs[i], signedChar))
    ensures forall i :: 0 <= i < |inputs| && valid[i] == 1 ==>
              && !utils[i].AppError?
              && (utils[i].NotANumber? <==> inputs[i].ops == [])
              && (utils[i].Quotient? ==>
                    utils[i].value * (Demand(inputs[i].ops, |inputs[i].ops|) as real)
                    == Peak(inputs[i].ops, |inputs[i].ops|) as real)
    ensures numCorrect == |set i | 0 <= i < |valid| && valid[i] == 1|
    ensures numCorrect == |set i | 0 <= i < |inputs| && Accepted(inputs[i], signedChar)|
  {
    hide Reported, Accepted, Measured, Demand, Peak, IsAligned, Linked, WellFormed;
    valid, utils, exited := [], [], false;
    NothingReported(inputs, signedChar);
    var heap := new Heap(base);
    var a := new Allocator(heap);
    var ranges := new List();
    for i := 0 to |inputs|
      invariant a.heap.Valid() && fresh(a.heap) && fresh(a.heap.mem)
      invariant ranges.Valid() && fresh(ranges.Repr())
      invariant !exited && Reported(inputs, i, signedChar, valid, utils)
    {
      var v, util, exit := EvalInput(inputs[i], a, ranges, signedChar, runs);
      ReportedStep(inputs, i, signedChar, valid, utils, v, util);
      valid, utils, exited := valid + [v], utils + [util], exit;
    }
    ReportedMeaning(inputs, signedChar, valid, utils);
    numCorrect := CountCorrect(valid);
    ranges.ClearRanges();
  }
}
