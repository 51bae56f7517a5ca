/** Traces of allocator requests, and what they mean for the naive allocator: which blocks exist,
    where they lie, what the heap holds and what the driver's books say after each request.
    Every function describes the state after the first n requests of a trace. */
module Trace {
  import opened Bits
  import opened MemLib
  import opened MmNaive
  import opened RangeList

  datatype OpType = ALLOC | FREE | REALLOC

  datatype TraceOp = TraceOp(kind: OpType, index: nat, size: nat)

  /** A block handed out by the `number`-th request, `offset` bytes above the heap's base. */
  datatype Block = Block(number: nat, offset: nat, size: nat)

  /** The heap bytes one request takes. */
  function Cost(op: TraceOp): nat {
    if op.kind.FREE? then 0 else RoundUp(op.size) + HEADER
  }

  function Demand(ops: seq<TraceOp>, n: nat): nat
    requires n <= |ops|
  {
    if n == 0 then 0 else Demand(ops, n - 1) + Cost(ops[n - 1])
  }

  function Requests(ops: seq<TraceOp>, n: nat): nat
    requires n <= |ops|
  {
    if n == 0 then 0 else Requests(ops, n - 1) + (if ops[n - 1].kind.FREE? then 0 else 1)
  }

  /** The latest block of every id requested so far; freeing does not forget it. */
  function Placed(ops: seq<TraceOp>, n: nat): (m: map<nat, Block>)
    requires n <= |ops|
    ensures forall id :: id in m ==> m[id].number < Requests(ops, n)
  {
    if n == 0 then map[]
    else
      var op := ops[n - 1];
      var m := Placed(ops, n - 1);
      if op.kind.FREE? then m
      else m[op.index := Block(Requests(ops, n - 1), Demand(ops, n - 1) + HEADER, op.size)]
  }

  /** The ids that hold a block now. */
  function Live(ops: seq<TraceOp>, n: nat): set<nat>
    requires n <= |ops|
  {
    if n == 0 then {}
    else if ops[n - 1].kind.FREE? then Live(ops, n - 1) - {ops[n - 1].index}
    else Live(ops, n - 1) + {ops[n - 1].index}
  }

  /** A request allocates an id that is not live, or frees or reallocates one that is. */
  predicate OpOk(ops: seq<TraceOp>, i: nat, numIds: nat)
    requires i < |ops|
  {
    var op := ops[i];
    && op.index < numIds
    && (!op.kind.FREE? ==> 0 < op.size < TWO_31)
    && (op.kind.ALLOC? <==> op.index !in Live(ops, i))
  }

  predicate WellFormed(ops: seq<TraceOp>, numIds: nat) {
    forall i :: 0 <= i < |ops| ==> OpOk(ops, i, numIds)
  }

  // ---- placement

  lemma {:induction false} DemandMonotone(ops: seq<TraceOp>, m: nat, n: nat)
    requires m <= n <= |ops|
    ensures Demand(ops, m) <= Demand(ops, n)
  {
    if m < n {
      DemandMonotone(ops, m, n - 1);
    }
  }

  /** What request i does to demand, count and blocks. */
  lemma RequestUnfolds(ops: seq<TraceOp>, i: nat)
    requires i < |ops|
    ensures Demand(ops, i + 1) == Demand(ops, i) + Cost(ops[i])
    ensures Requests(ops, i + 1) == Requests(ops, i) + (if ops[i].kind.FREE? then 0 else 1)
    ensures Placed(ops, i + 1) ==
            if ops[i].kind.FREE? then Placed(ops, i)
            else Placed(ops, i)[ops[i].index := Block(Requests(ops, i), Demand(ops, i) + HEADER, ops[i].size)]
    ensures ops[i].kind.FREE? ==> Cost(ops[i]) == 0
  {
    hide RoundUp;
  }

  /** The demand, request by request: a 16-byte header and the size rounded up to a multiple of 16.
      `sums` may be any sequence of partial sums. */
  lemma {:induction false} DemandIsSum(ops: seq<TraceOp>, sums: seq<int>, n: nat)
    requires n <= |ops| && |sums| == |ops| + 1 && sums[0] == 0
    requires forall i :: 0 <= i < |ops| ==>
               sums[i + 1] == sums[i] + (if ops[i].kind.FREE? then 0 else 16 + (ops[i].size + 15) / 16 * 16)
    ensures Demand(ops, n) == sums[n]
  {
    hide Demand;
    if n == 0 {
      NoDemand(ops);
    } else {
      DemandIsSum(ops, sums, n - 1);
      RequestUnfolds(ops, n - 1);
    }
  }

  lemma NoDemand(ops: seq<TraceOp>)
    ensures Demand(ops, 0) == 0
  {
  }

  /** An id is live when its last allocation or reallocation has no free after it. */
  lemma {:induction false} LiveMeaning(ops: seq<TraceOp>, n: nat, id: nat)
    requires n <= |ops|
    ensures id in Live(ops, n) <==>
            exists i :: 0 <= i < n && ops[i].index == id && !ops[i].kind.FREE? &&
                        forall j :: i < j < n && ops[j].index == id ==> !ops[j].kind.FREE?
  {
    if n > 0 {
      LiveMeaning(ops, n - 1, id);
    }
  }

  /** What a well-formed trace is, from its requests alone: ids in range, sizes that are positive
      `int`s, and an allocation exactly where the id has no block. */
  lemma WellFormedMeaning(ops: seq<TraceOp>, numIds: nat)
    ensures WellFormed(ops, numIds) <==>
            forall i :: 0 <= i < |ops| ==>
              && ops[i].index < numIds
              && (ops[i].kind.FREE? || 0 < ops[i].size < 0x8000_0000)
              && (ops[i].kind.ALLOC? <==>
                  !exists j :: 0 <= j < i && ops[j].index == ops[i].index && !ops[j].kind.FREE? &&
                               forall k :: j < k < i && ops[k].index == ops[i].index ==> !ops[k].kind.FREE?)
  {
    hide Live;
    forall i | 0 <= i < |ops|
      ensures OpOk(ops, i, numIds) <==>
              && ops[i].index < numIds
              && (ops[i].kind.FREE? || 0 < ops[i].size < 0x8000_0000)
              && (ops[i].kind.ALLOC? <==>
                  !exists j :: 0 <= j < i && ops[j].index == ops[i].index && !ops[j].kind.FREE? &&
                               forall k :: j < k < i && ops[k].index == ops[i].index ==> !ops[k].kind.FREE?)
    {
      LiveMeaning(ops, i, ops[i].index);
    }
  }

  /** Allocations of one size, each of its own id. */
  lemma {:induction false} EqualDemand(ops: seq<TraceOp>, n: nat, size: nat)
    requires n <= |ops| && forall i :: 0 <= i < |ops| ==> ops[i] == TraceOp(ALLOC, i, size)
    ensures Demand(ops, n) == n * (16 + (size + 15) / 16 * 16)
    ensures forall id :: id in Live(ops, n) ==> id < n
  {
    hide RoundUp;
    if n > 0 {
      EqualDemand(ops, n - 1, size);
      OneCost(size);
    }
  }

  lemma OneCost(size: nat)
    ensures RoundUp(size) + HEADER == 16 + (size + 15) / 16 * 16
  {
  }

  /** The address law: an id's block is the one of its last request, a header above everything
      requested before it; what is freed in between plays no part. */
  lemma {:induction false} PlacedIsLatest(ops: seq<TraceOp>, n: nat, i: nat)
    requires i < n <= |ops| && !ops[i].kind.FREE?
    requires forall j :: i < j < n ==> ops[j].kind.FREE? || ops[j].index != ops[i].index
    ensures ops[i].index in Placed(ops, n)
    ensures Placed(ops, n)[ops[i].index] == Block(Requests(ops, i), Demand(ops, i) + HEADER, ops[i].size)
    decreases n
  {
    if i < n - 1 {
      PlacedIsLatest(ops, n - 1, i);
    }
  }

  /** Only requested ids have a block. */
  lemma {:induction false} PlacedWasRequested(ops: seq<TraceOp>, n: nat, id: nat)
    requires n <= |ops|
    ensures id in Placed(ops, n) <==> exists i :: 0 <= i < n && !ops[i].kind.FREE? && ops[i].index == id
  {
    if n > 0 {
      PlacedWasRequested(ops, n - 1, id);
    }
  }

  lemma {:induction false} LiveArePlaced(ops: seq<TraceOp>, n: nat, numIds: nat)
    requires n <= |ops| && WellFormed(ops, numIds)
    ensures Live(ops, n) <= Placed(ops, n).Keys
    ensures forall id :: id in Placed(ops, n) ==> id < numIds
  {
    if n > 0 {
      LiveArePlaced(ops, n - 1, numIds);
      assert OpOk(ops, n - 1, numIds);
    }
  }

  /** Blocks are aligned, inside the heap, and never straddle the break. */
  lemma {:induction false} PlacedInHeap(ops: seq<TraceOp>, n: nat, numIds: nat, id: nat)
    requires n <= |ops| && WellFormed(ops, numIds) && id in Placed(ops, n)
    ensures var b := Placed(ops, n)[id];
            && HEADER <= b.offset && b.offset % ALIGNMENT == 0
            && 0 < b.size < TWO_31
            && b.offset + RoundUp(b.size) <= Demand(ops, n)
    decreases n
  {
    hide Demand, Placed, RoundUp;
    assert OpOk(ops, n - 1, numIds);
    RequestUnfolds(ops, n - 1);
    if !ops[n - 1].kind.FREE? && ops[n - 1].index == id {
      DemandAligned(ops, n - 1);
    } else {
      PlacedInHeap(ops, n - 1, numIds, id);
    }
  }

  lemma {:induction false} DemandAligned(ops: seq<TraceOp>, n: nat)
    requires n <= |ops|
    ensures Demand(ops, n) % ALIGNMENT == 0
  {
    if n > 0 {
      DemandAligned(ops, n - 1);
    }
  }

  /** Blocks of different ids come from different requests and do not overlap, headers included. */
  lemma {:induction false} PlacedDisjoint(ops: seq<TraceOp>, n: nat, numIds: nat, id: nat, id': nat)
    requires n <= |ops| && WellFormed(ops, numIds)
    requires id in Placed(ops, n) && id' in Placed(ops, n) && id != id'
    ensures var b, b' := Placed(ops, n)[id], Placed(ops, n)[id'];
            && b.number != b'.number
            && (b.offset + RoundUp(b.size) + HEADER <= b'.offset || b'.offset + RoundUp(b'.size) + HEADER <= b.offset)
    decreases n
  {
    var op := ops[n - 1];
    if !op.kind.FREE? && op.index == id {
      PlacedInHeap(ops, n - 1, numIds, id');
    } else if !op.kind.FREE? && op.index == id' {
      PlacedInHeap(ops, n - 1, numIds, id);
    } else {
      PlacedDisjoint(ops, n - 1, numIds, id, id');
    }
  }

  /** The requests of a trace without its frees. */
  function WithoutFrees(ops: seq<TraceOp>, n: nat): seq<TraceOp>
    requires n <= |ops|
  {
    if n == 0 then []
    else if ops[n - 1].kind.FREE? then WithoutFrees(ops, n - 1)
    else WithoutFrees(ops, n - 1) + [ops[n - 1]]
  }

  lemma {:induction false} DemandPrefix(ops: seq<TraceOp>, more: seq<TraceOp>, n: nat)
    requires n <= |ops|
    ensures Demand(ops + more, n) == Demand(ops, n)
    ensures Requests(ops + more, n) == Requests(ops, n)
    ensures Placed(ops + more, n) == Placed(ops, n)
  {
    if n > 0 {
      DemandPrefix(ops, more, n - 1);
    }
  }

  lemma AppendRequest(ops: seq<TraceOp>, op: TraceOp)
    requires !op.kind.FREE?
    ensures var ops', n := ops + [op], |ops|;
            && Demand(ops', n + 1) == Demand(ops, n) + Cost(op)
            && Requests(ops', n + 1) == Requests(ops, n) + 1
            && Placed(ops', n + 1) ==
               Placed(ops, n)[op.index := Block(Requests(ops, n), Demand(ops, n) + HEADER, op.size)]
  {
    hide Cost;
    DemandPrefix(ops, [op], |ops|);
  }

  ghost predicate SamePlacement(ops': seq<TraceOp>, ops: seq<TraceOp>, n: nat)
    requires n <= |ops|
  {
    && Demand(ops', |ops'|) == Demand(ops, n)
    && Requests(ops', |ops'|) == Requests(ops, n) == |ops'|
    && Placed(ops', |ops'|) == Placed(ops, n)
  }

  /** Frees do not move anything: every address is decided by the other requests alone. */
  lemma {:induction false} AddressesIgnoreFrees(ops: seq<TraceOp>, n: nat)
    requires n <= |ops|
    ensures SamePlacement(WithoutFrees(ops, n), ops, n)
  {
    if n > 0 {
      AddressesIgnoreFrees(ops, n - 1);
      DropFree(WithoutFrees(ops, n - 1), ops, n - 1);
    }
  }

  lemma DropFree(before: seq<TraceOp>, ops: seq<TraceOp>, i: nat)
    requires i < |ops| && SamePlacement(before, ops, i)
    ensures SamePlacement(if ops[i].kind.FREE? then before else before + [ops[i]], ops, i + 1)
  {
    hide Demand, Requests, Placed, Cost;
    RequestUnfolds(ops, i);
    if !ops[i].kind.FREE? {
      AppendRequest(before, ops[i]);
    }
  }

  // ---- the chunks in the heap

  function ChunkFor(start: int, b: Block, used: bool): Chunk {
    Chunk(start + b.offset - HEADER, RoundUp(b.size) + HEADER, used)
  }

  /** The chunk list: one chunk per request, its status cleared when its id is freed or moved. */
  function ChunksOf(start: int, ops: seq<TraceOp>, n: nat): (cs: seq<Chunk>)
    requires n <= |ops|
    ensures |cs| == Requests(ops, n)
  {
    if n == 0 then []
    else
      var op := ops[n - 1];
      var cs := ChunksOf(start, ops, n - 1);
      var m := Placed(ops, n - 1);
      var freed := if !op.kind.ALLOC? && op.index in m then FreedAt(cs, m[op.index].number) else cs;
      if op.kind.FREE? then freed else freed + [Chunk(start + Demand(ops, n - 1), Cost(op), true)]
  }

  /** The chunk of a placed id keeps its place and size for ever, and is in use exactly while the id
      is live. */
  lemma {:induction false} ChunkOfPlaced(start: int, ops: seq<TraceOp>, n: nat, numIds: nat, id: nat)
    requires n <= |ops| && WellFormed(ops, numIds) && id in Placed(ops, n)
    ensures ChunksOf(start, ops, n)[Placed(ops, n)[id].number] ==
            ChunkFor(start, Placed(ops, n)[id], id in Live(ops, n))
    decreases n
  {
    hide RoundUp, ChunksOf, Placed, Live, Demand;
    var i := n - 1;
    assert OpOk(ops, i, numIds);
    RequestUnfolds(ops, i);
    ChunksUnfold(start, ops, i);
    if ops[i].kind.FREE? || ops[i].index != id {
      ChunkOfPlaced(start, ops, i, numIds, id);
      if !ops[i].kind.ALLOC? && ops[i].index != id && ops[i].index in Placed(ops, i) {
        PlacedDisjoint(ops, i, numIds, ops[i].index, id);
      }
    }
  }

  /** What request i does to the chunk list and to the live ids. */
  lemma ChunksUnfold(start: int, ops: seq<TraceOp>, i: nat)
    requires i < |ops|
    ensures var cs, m, id := ChunksOf(start, ops, i), Placed(ops, i), ops[i].index;
            var kept := if !ops[i].kind.ALLOC? && id in m then FreedAt(cs, m[id].number) else cs;
            ChunksOf(start, ops, i + 1) ==
            if ops[i].kind.FREE? then kept else kept + [Chunk(start + Demand(ops, i), Cost(ops[i]), true)]
    ensures Live(ops, i + 1) ==
            if ops[i].kind.FREE? then Live(ops, i) - {ops[i].index} else Live(ops, i) + {ops[i].index}
  {
    hide Demand, Cost, FreedAt, Placed;
  }

  /** Freeing a used chunk moves one from the used to the free. */
  lemma {:induction false} CountFreed(cs: seq<Chunk>, k: nat)
    requires k < |cs| && cs[k].used
    ensures Count(FreedAt(cs, k), true) == Count(cs, true) - 1
  {
    var n := |cs| - 1;
    var cs' := FreedAt(cs, k);
    if k < n {
      CountFreed(cs[..n], k);
      assert cs'[..n] == FreedAt(cs[..n], k);
    } else {
      assert cs'[..n] == cs[..n];
    }
  }

  lemma CountAppend(cs: seq<Chunk>, c: Chunk)
    ensures Count(cs + [c], true) == Count(cs, true) + (if c.used then 1 else 0)
  {
    assert (cs + [c])[..|cs|] == cs;
  }

  /** The heap holds exactly one used chunk per live id. */
  lemma {:induction false} UsedChunksAreLive(start: int, ops: seq<TraceOp>, n: nat, numIds: nat)
    requires n <= |ops| && WellFormed(ops, numIds)
    ensures Count(ChunksOf(start, ops, n), true) == |Live(ops, n)|
  {
    hide Count, ChunksOf, Live;
    if n == 0 {
      NothingUsed(start, ops);
    } else {
      UsedChunksAreLive(start, ops, n - 1, numIds);
      UsedChunksStep(start, ops, n - 1, numIds);
      LiveSize(ops, n - 1, numIds);
    }
  }

  lemma NothingUsed(start: int, ops: seq<TraceOp>)
    ensures Count(ChunksOf(start, ops, 0), true) == 0 == |Live(ops, 0)|
  {
  }

  lemma UsedChunksStep(start: int, ops: seq<TraceOp>, i: nat, numIds: nat)
    requires i < |ops| && WellFormed(ops, numIds)
    ensures Count(ChunksOf(start, ops, i + 1), true) == Count(ChunksOf(start, ops, i), true) +
            (match ops[i].kind case ALLOC => 1 case REALLOC => 0 case FREE => -1)
  {
    hide Count, FreedAt, ChunksOf, Placed, Cost, Demand, Live;
    ChunksUnfold(start, ops, i);
    var cs, c := ChunksOf(start, ops, i), Chunk(start + Demand(ops, i), Cost(ops[i]), true);
    if ops[i].kind.ALLOC? {
      CountAppend(cs, c);
    } else {
      GivenUpUsed(start, ops, i, numIds);
      var k := Placed(ops, i)[ops[i].index].number;
      CountFreed(cs, k);
      CountAppend(FreedAt(cs, k), c);
    }
  }

  /** The chunk that a request gives up was in use. */
  lemma GivenUpUsed(start: int, ops: seq<TraceOp>, i: nat, numIds: nat)
    requires i < |ops| && WellFormed(ops, numIds) && !ops[i].kind.ALLOC?
    ensures ops[i].index in Placed(ops, i)
    ensures ChunksOf(start, ops, i)[Placed(ops, i)[ops[i].index].number].used
  {
    hide ChunksOf, Placed, Live;
    assert OpOk(ops, i, numIds);
    LiveArePlaced(ops, i, numIds);
    ChunkOfPlaced(start, ops, i, numIds, ops[i].index);
  }

  lemma LiveSize(ops: seq<TraceOp>, i: nat, numIds: nat)
    requires i < |ops| && WellFormed(ops, numIds)
    ensures |Live(ops, i + 1)| == |Live(ops, i)| +
            (match ops[i].kind case ALLOC => 1 case REALLOC => 0 case FREE => -1)
  {
    assert OpOk(ops, i, numIds);
    if ops[i].kind.REALLOC? {
      assert Live(ops, i + 1) == Live(ops, i);
    }
  }

  // ---- the driver's range list

  function RangeFor(start: int, b: Block): Range { RangeOf(start + b.offset, b.size) }

  /** The driver's list after n requests. */
  function RangesAfter(start: int, ops: seq<TraceOp>, n: nat): seq<Range>
    requires n <= |ops|
  {
    if n == 0 then [] else Recorded(start, ops, n - 1, RangesAfter(start, ops, n - 1))
  }

  /** What request i makes of the list rs: out with the old range, in with the new one. */
  function Recorded(start: int, ops: seq<TraceOp>, i: nat, rs: seq<Range>): seq<Range>
    requires i < |ops|
  {
    var op, m := ops[i], Placed(ops, i);
    var kept := if !op.kind.ALLOC? && op.index in m then RemoveFirst(rs, start + m[op.index].offset) else rs;
    if op.kind.FREE? then kept else [RangeOf(start + Demand(ops, i) + HEADER, op.size)] + kept
  }

  lemma RangesUnfold(start: int, ops: seq<TraceOp>, i: nat)
    requires i < |ops|
    ensures RangesAfter(start, ops, i + 1) == Recorded(start, ops, i, RangesAfter(start, ops, i))
  {
    hide Recorded;
  }

  function Without(ids: seq<nat>, id: nat): (rest: seq<nat>)
    ensures forall k :: k in rest ==> k in ids
  {
    if ids == [] then []
    else if ids[0] == id then ids[1..]
    else [ids[0]] + Without(ids[1..], id)
  }

  /** The live ids, the most recently placed first. */
  function LiveOrder(ops: seq<TraceOp>, n: nat): seq<nat>
    requires n <= |ops|
  {
    if n == 0 then []
    else
      var op := ops[n - 1];
      var kept := if op.kind.ALLOC? then LiveOrder(ops, n - 1) else Without(LiveOrder(ops, n - 1), op.index);
      if op.kind.FREE? then kept else [op.index] + kept
  }

  /** The ids that stay in the list while request i is served. */
  function KeptIds(ops: seq<TraceOp>, i: nat): seq<nat>
    requires i < |ops|
  {
    if ops[i].kind.ALLOC? then LiveOrder(ops, i) else Without(LiveOrder(ops, i), ops[i].index)
  }

  lemma OrderUnfold(ops: seq<TraceOp>, i: nat)
    requires i < |ops|
    ensures LiveOrder(ops, i + 1) == if ops[i].kind.FREE? then KeptIds(ops, i) else [ops[i].index] + KeptIds(ops, i)
  {
    hide Without;
  }

  predicate Distinct(ids: seq<nat>) {
    forall i, j :: 0 <= i < j < |ids| ==> ids[i] != ids[j]
  }

  lemma {:induction false} WithoutRemoves(ids: seq<nat>, id: nat)
    requires Distinct(ids)
    ensures Distinct(Without(ids, id))
    ensures forall k :: k in Without(ids, id) <==> k in ids && k != id
  {
    if ids != [] {
      var rest := ids[1..];
      assert ids == [ids[0]] + rest;
      assert ids[0] !in rest;
      WithoutRemoves(rest, id);
    }
  }

  lemma NothingLiveYet(ops: seq<TraceOp>)
    ensures Live(ops, 0) == {} && LiveOrder(ops, 0) == []
  {
  }

  lemma {:induction false} LiveOrderIsLive(ops: seq<TraceOp>, n: nat, numIds: nat)
    requires n <= |ops| && WellFormed(ops, numIds)
    ensures Distinct(LiveOrder(ops, n))
    ensures forall id :: id in LiveOrder(ops, n) <==> id in Live(ops, n)
  {
    hide LiveOrder, Without;
    if n == 0 {
      NothingLiveYet(ops);
    } else {
      assert OpOk(ops, n - 1, numIds);
      OrderUnfold(ops, n - 1);
      LiveOrderIsLive(ops, n - 1, numIds);
      WithoutRemoves(LiveOrder(ops, n - 1), ops[n - 1].index);
    }
  }

  lemma {:induction false} WithoutSize(ids: seq<nat>, id: nat)
    requires id in ids
    ensures |Without(ids, id)| == |ids| - 1
  {
    if ids[0] != id {
      assert id in ids[1..];
      WithoutSize(ids[1..], id);
    }
  }

  lemma {:induction false} LiveOrderSize(ops: seq<TraceOp>, n: nat, numIds: nat)
    requires n <= |ops| && WellFormed(ops, numIds)
    ensures |LiveOrder(ops, n)| == |Live(ops, n)|
  {
    hide Live, LiveOrder, Without;
    if n == 0 {
      NothingLiveYet(ops);
    } else {
      OrderUnfold(ops, n - 1);
      LiveOrderSize(ops, n - 1, numIds);
      LiveSize(ops, n - 1, numIds);
      if !ops[n - 1].kind.ALLOC? {
        assert OpOk(ops, n - 1, numIds);
        LiveOrderIsLive(ops, n - 1, numIds);
        WithoutSize(LiveOrder(ops, n - 1), ops[n - 1].index);
      }
    }
  }

  /** The payloads of the given ids, in order. */
  function RangesFor(start: int, m: map<nat, Block>, ids: seq<nat>): (rs: seq<Range>)
    requires forall id :: id in ids ==> id in m
    ensures |rs| == |ids|
    ensures forall i :: 0 <= i < |rs| ==> rs[i] == RangeFor(start, m[ids[i]])
  {
    seq(|ids|, i requires 0 <= i < |ids| => RangeFor(start, m[ids[i]]))
  }

  lemma RangesForCons(start: int, m: map<nat, Block>, id: nat, ids: seq<nat>)
    requires id in m && forall k :: k in ids ==> k in m
    ensures RangesFor(start, m, [id] + ids) == [RangeFor(start, m[id])] + RangesFor(start, m, ids)
  {
  }

  /** Removing by start address removes the block of that id. */
  lemma {:induction false} RemoveById(start: int, m: map<nat, Block>, ids: seq<nat>, id: nat)
    requires id in m && forall k :: k in ids ==> k in m && (k != id ==> m[k].offset != m[id].offset)
    ensures RemoveFirst(RangesFor(start, m, ids), start + m[id].offset) == RangesFor(start, m, Without(ids, id))
  {
    hide RangesFor;
    if ids == [] {
      assert RangesFor(start, m, ids) == [];
    } else {
      var first, rest := ids[0], ids[1..];
      assert ids == [first] + rest;
      RangesForCons(start, m, first, rest);
      if first != id {
        RemoveById(start, m, rest, id);
        RangesForCons(start, m, first, Without(rest, id));
      }
    }
  }

  /** The list is the payloads of the live ids, the newest first. */
  ghost predicate InStep(start: int, ops: seq<TraceOp>, n: nat)
    requires n <= |ops|
  {
    var m, ids := Placed(ops, n), LiveOrder(ops, n);
    (forall id :: id in ids ==> id in m) && RangesAfter(start, ops, n) == RangesFor(start, m, ids)
  }

  /** Coupling: after any request the driver's list is exactly the live blocks. */
  lemma {:induction false} RangesAreLive(start: int, ops: seq<TraceOp>, n: nat, numIds: nat)
    requires n <= |ops| && WellFormed(ops, numIds)
    ensures InStep(start, ops, n)
  {
    hide InStep;
    if n > 0 {
      RangesAreLive(start, ops, n - 1, numIds);
      RequestStep(start, ops, n - 1, numIds);
    } else {
      NothingRecorded(start, ops);
    }
  }

  lemma NothingRecorded(start: int, ops: seq<TraceOp>)
    ensures InStep(start, ops, 0)
  {
  }

  lemma KeptByAlloc(start: int, ops: seq<TraceOp>, i: nat, numIds: nat)
    requires i < |ops| && WellFormed(ops, numIds) && ops[i].kind.ALLOC?
    requires InStep(start, ops, i)
    ensures ops[i].index !in KeptIds(ops, i)
    ensures forall k :: k in KeptIds(ops, i) ==> k in Placed(ops, i)
  {
    assert OpOk(ops, i, numIds);
    LiveOrderIsLive(ops, i, numIds);
  }

  lemma KeptByRemoval(start: int, ops: seq<TraceOp>, i: nat, numIds: nat)
    requires i < |ops| && WellFormed(ops, numIds) && !ops[i].kind.ALLOC?
    requires InStep(start, ops, i)
    ensures ops[i].index in Placed(ops, i) && ops[i].index !in KeptIds(ops, i)
    ensures forall k :: k in KeptIds(ops, i) ==> k in Placed(ops, i)
    ensures RemoveFirst(RangesAfter(start, ops, i), start + Placed(ops, i)[ops[i].index].offset)
         == RangesFor(start, Placed(ops, i), KeptIds(ops, i))
  {
    hide RangesFor, RemoveFirst, Without, RangesAfter, Placed, LiveOrder, Live;
    var id, m, ids := ops[i].index, Placed(ops, i), LiveOrder(ops, i);
    assert OpOk(ops, i, numIds);
    LiveArePlaced(ops, i, numIds);
    LiveOrderIsLive(ops, i, numIds);
    forall k | k in ids && k != id
      ensures m[k].offset != m[id].offset
    {
      PlacedDisjoint(ops, i, numIds, k, id);
    }
    RemoveById(start, m, ids, id);
    WithoutRemoves(ids, id);
  }

  /** Serving request i keeps the list in step. */
  lemma RequestStep(start: int, ops: seq<TraceOp>, i: nat, numIds: nat)
    requires i < |ops| && WellFormed(ops, numIds) && InStep(start, ops, i)
    ensures InStep(start, ops, i + 1)
  {
    hide InStep, KeptIds, Placed, RangesAfter, LiveOrder, RangesFor, RemoveFirst;
    match ops[i].kind
    case ALLOC =>
      KeptByAlloc(start, ops, i, numIds);
      PushStep(start, ops, i);
    case REALLOC =>
      KeptByRemoval(start, ops, i, numIds);
      PushStep(start, ops, i);
    case FREE =>
      KeptByRemoval(start, ops, i, numIds);
      PopStep(start, ops, i);
  }

  lemma PopStep(start: int, ops: seq<TraceOp>, i: nat)
    requires i < |ops| && ops[i].kind.FREE? && InStep(start, ops, i)
    requires forall k :: k in KeptIds(ops, i) ==> k in Placed(ops, i)
    requires ops[i].index in Placed(ops, i)
    requires RemoveFirst(RangesAfter(start, ops, i), start + Placed(ops, i)[ops[i].index].offset)
          == RangesFor(start, Placed(ops, i), KeptIds(ops, i))
    ensures InStep(start, ops, i + 1)
  {
    hide RangesFor, RemoveFirst, Without, RangesAfter, LiveOrder;
    RangesUnfold(start, ops, i);
    OrderUnfold(ops, i);
    assert Placed(ops, i + 1) == Placed(ops, i);
  }

  lemma PushStep(start: int, ops: seq<TraceOp>, i: nat)
    requires i < |ops| && !ops[i].kind.FREE? && InStep(start, ops, i)
    requires ops[i].index !in KeptIds(ops, i)
    requires forall k :: k in KeptIds(ops, i) ==> k in Placed(ops, i)
    requires ops[i].kind.REALLOC? ==>
               && ops[i].index in Placed(ops, i)
               && RemoveFirst(RangesAfter(start, ops, i), start + Placed(ops, i)[ops[i].index].offset)
               == RangesFor(start, Placed(ops, i), KeptIds(ops, i))
    ensures InStep(start, ops, i + 1)
  {
    hide RangesFor, RemoveFirst, Without, RangeOf, Requests, Demand, Placed, LiveOrder, RangesAfter;
    var b := Block(Requests(ops, i), Demand(ops, i) + HEADER, ops[i].size);
    PushUnfolds(start, ops, i);
    RangesForPush(start, Placed(ops, i), KeptIds(ops, i), ops[i].index, b);
  }

  lemma PushUnfolds(start: int, ops: seq<TraceOp>, i: nat)
    requires i < |ops| && !ops[i].kind.FREE?
    requires ops[i].kind.REALLOC? ==> ops[i].index in Placed(ops, i)
    ensures LiveOrder(ops, i + 1) == [ops[i].index] + KeptIds(ops, i)
    ensures Placed(ops, i + 1) ==
            Placed(ops, i)[ops[i].index := Block(Requests(ops, i), Demand(ops, i) + HEADER, ops[i].size)]
    ensures RangesAfter(start, ops, i + 1) ==
            [RangeOf(start + Demand(ops, i) + HEADER, ops[i].size)] +
            (if ops[i].kind.ALLOC? then RangesAfter(start, ops, i)
             else RemoveFirst(RangesAfter(start, ops, i), start + Placed(ops, i)[ops[i].index].offset))
  {
    hide RemoveFirst, Without, RangeOf, Requests, Demand, RangesAfter, LiveOrder, Placed;
    RangesUnfold(start, ops, i);
    OrderUnfold(ops, i);
    RequestUnfolds(ops, i);
  }

  lemma RangesForPush(start: int, m: map<nat, Block>, ids: seq<nat>, id: nat, b: Block)
    requires id !in ids && forall k :: k in ids ==> k in m
    ensures forall k :: k in [id] + ids ==> k in m[id := b]
    ensures RangesFor(start, m[id := b], [id] + ids) == [RangeOf(start + b.offset, b.size)] + RangesFor(start, m, ids)
  {
  }

  /** The driver's list is as long as there are live ids. */
  lemma RangesCount(start: int, ops: seq<TraceOp>, n: nat, numIds: nat)
    requires n <= |ops| && WellFormed(ops, numIds)
    ensures |RangesAfter(start, ops, n)| == |Live(ops, n)|
  {
    hide Live, LiveOrder, Placed, RangesAfter;
    RangesAreLive(start, ops, n, numIds);
    LiveOrderSize(ops, n, numIds);
  }

  /** With the naive allocator no two recorded ranges overlap, and all lie below the break. */
  lemma RangesDisjoint(start: int, ops: seq<TraceOp>, n: nat, numIds: nat)
    requires n <= |ops| && WellFormed(ops, numIds)
    ensures Disjoint(RangesAfter(start, ops, n))
    ensures forall i, j :: 0 <= i < j < |RangesAfter(start, ops, n)| ==>
              var r, r' := RangesAfter(start, ops, n)[i], RangesAfter(start, ops, n)[j];
              r.hi < r'.lo || r'.hi < r.lo
    ensures forall i :: 0 <= i < |RangesAfter(start, ops, n)| ==>
              var r := RangesAfter(start, ops, n)[i];
              start + HEADER <= r.lo <= r.hi < start + Demand(ops, n)
  {
    RangesAreLive(start, ops, n, numIds);
    LiveOrderIsLive(ops, n, numIds);
    var ids, m, rs := LiveOrder(ops, n), Placed(ops, n), RangesAfter(start, ops, n);
    forall i | 0 <= i < |rs|
      ensures start + HEADER <= rs[i].lo <= rs[i].hi < start + Demand(ops, n)
    {
      PlacedInHeap(ops, n, numIds, ids[i]);
    }
    forall i, j | 0 <= i < j < |rs|
      ensures rs[i].hi < rs[j].lo || rs[j].hi < rs[i].lo
    {
      PlacedDisjoint(ops, n, numIds, ids[i], ids[j]);
    }
  }

  // ---- utilisation

  /** Bytes of payload in the live blocks of the ids below `ids`. */
  function LiveBytes(m: map<nat, Block>, live: set<nat>, ids: nat): nat {
    if ids == 0 then 0
    else LiveBytes(m, live, ids - 1) + (if ids - 1 in live && ids - 1 in m then m[ids - 1].size else 0)
  }

  lemma {:induction false} LiveBytesUpdate(m: map<nat, Block>, live: set<nat>,
                                           m': map<nat, Block>, live': set<nat>, ids: nat, id: nat)
    requires forall k :: k != id ==> (k in live <==> k in live') && (k in m <==> k in m') && (k in m ==> m[k] == m'[k])
    ensures LiveBytes(m', live', ids) == LiveBytes(m, live, ids)
              + (if id < ids && id in live' && id in m' then m'[id].size else 0)
              - (if id < ids && id in live && id in m then m[id].size else 0)
  {
    if ids > 0 {
      LiveBytesUpdate(m, live, m', live', ids - 1, id);
    }
  }

  /** The driver's running total: add on allocation, adjust on reallocation, subtract on free. */
  function RunningTotal(ops: seq<TraceOp>, n: nat): int
    requires n <= |ops|
  {
    if n == 0 then 0
    else
      var op := ops[n - 1];
      var m := Placed(ops, n - 1);
      var oldsize := if op.index in m then m[op.index].size else 0;
      match op.kind
      case ALLOC => RunningTotal(ops, n - 1) + op.size
      case REALLOC => RunningTotal(ops, n - 1) + (op.size - oldsize)
      case FREE => RunningTotal(ops, n - 1) - oldsize
  }

  /** The running total is always the number of live payload bytes. */
  lemma {:induction false} RunningTotalIsLive(ops: seq<TraceOp>, n: nat, numIds: nat)
    requires n <= |ops| && WellFormed(ops, numIds)
    ensures RunningTotal(ops, n) == LiveBytes(Placed(ops, n), Live(ops, n), numIds)
  {
    hide LiveBytes;
    if n == 0 {
      LiveBytesOfNone(map[], numIds);
    } else {
      var op := ops[n - 1];
      assert OpOk(ops, n - 1, numIds);
      LiveArePlaced(ops, n - 1, numIds);
      RunningTotalIsLive(ops, n - 1, numIds);
      LiveBytesUpdate(Placed(ops, n - 1), Live(ops, n - 1), Placed(ops, n), Live(ops, n), numIds, op.index);
    }
  }

  /** The heap holds every live payload byte and one header per live block. */
  lemma {:induction false} RunningTotalFits(ops: seq<TraceOp>, n: nat, numIds: nat)
    requires n <= |ops| && WellFormed(ops, numIds)
    ensures RunningTotal(ops, n) + HEADER * |Live(ops, n)| <= Demand(ops, n)
  {
    if n > 0 {
      RunningTotalFits(ops, n - 1, numIds);
      TotalGrowth(ops, n - 1, numIds);
      LiveSize(ops, n - 1, numIds);
    }
  }

  /** One request adds at most its own size to the total, and costs a header more than that. */
  lemma TotalGrowth(ops: seq<TraceOp>, i: nat, numIds: nat)
    requires i < |ops| && WellFormed(ops, numIds)
    ensures RunningTotal(ops, i + 1) - RunningTotal(ops, i) <= if ops[i].kind.FREE? then 0 else ops[i].size
    ensures Demand(ops, i + 1) - Demand(ops, i) >= if ops[i].kind.FREE? then 0 else ops[i].size + HEADER
    ensures ops[i].kind.FREE? && ops[i].index in Placed(ops, i) ==>
              RunningTotal(ops, i + 1) == RunningTotal(ops, i) - Placed(ops, i)[ops[i].index].size
    ensures Demand(ops, i + 1) >= Demand(ops, i)
  {
    hide Placed, Live;
  }

  /** The high-water mark over the states after 0..n requests. */
  function Peak(ops: seq<TraceOp>, n: nat): int
    requires n <= |ops|
  {
    if n == 0 then 0
    else if RunningTotal(ops, n) > Peak(ops, n - 1) then RunningTotal(ops, n) else Peak(ops, n - 1)
  }

  lemma TotalsStart(ops: seq<TraceOp>)
    ensures RunningTotal(ops, 0) == 0 && Peak(ops, 0) == 0
  {
  }

  /** The peak is the maximum of the live payload over all prefixes. */
  lemma {:induction false} PeakIsMaximum(ops: seq<TraceOp>, n: nat, numIds: nat)
    requires n <= |ops| && WellFormed(ops, numIds)
    ensures forall k :: 0 <= k <= n ==> LiveAt(ops, k, numIds) <= Peak(ops, n)
    ensures exists k :: 0 <= k <= n && LiveAt(ops, k, numIds) == Peak(ops, n)
  {
    hide LiveAt, RunningTotal;
    LiveAtIsTotal(ops, n, numIds);
    if n > 0 {
      PeakIsMaximum(ops, n - 1, numIds);
    } else {
      TotalsStart(ops);
    }
  }

  lemma LiveAtIsTotal(ops: seq<TraceOp>, n: nat, numIds: nat)
    requires n <= |ops| && WellFormed(ops, numIds)
    ensures LiveAt(ops, n, numIds) == RunningTotal(ops, n)
  {
    hide RunningTotal, LiveBytes;
    RunningTotalIsLive(ops, n, numIds);
  }

  /** Payload bytes live after k requests. */
  function LiveAt(ops: seq<TraceOp>, k: nat, numIds: nat): nat
    requires k <= |ops|
  {
    LiveBytes(Placed(ops, k), Live(ops, k), numIds)
  }

  /** The peak stays below the heap size as soon as there is one request. */
  lemma {:induction false} PeakFits(ops: seq<TraceOp>, n: nat, numIds: nat)
    requires n <= |ops| && WellFormed(ops, numIds)
    ensures 0 <= Peak(ops, n) <= Demand(ops, n)
    ensures n > 0 ==> Peak(ops, n) < Demand(ops, n)
  {
    hide RunningTotal, Demand, Live;
    if n > 0 {
      PeakFits(ops, n - 1, numIds);
      RunningTotalFits(ops, n, numIds);
      DemandPositive(ops, n, numIds);
      DemandMonotone(ops, n - 1, n);
      if |Live(ops, n)| == 0 {
        NothingLive(ops, n, numIds);
      }
    }
  }

  lemma NothingLive(ops: seq<TraceOp>, n: nat, numIds: nat)
    requires n <= |ops| && WellFormed(ops, numIds) && Live(ops, n) == {}
    ensures RunningTotal(ops, n) == 0
  {
    RunningTotalIsLive(ops, n, numIds);
    LiveBytesOfNone(Placed(ops, n), numIds);
  }

  lemma {:induction false} LiveBytesOfNone(m: map<nat, Block>, ids: nat)
    ensures LiveBytes(m, {}, ids) == 0
  {
    if ids > 0 {
      LiveBytesOfNone(m, ids - 1);
    }
  }

  /** The first request of a well-formed trace is an allocation. */
  lemma DemandPositive(ops: seq<TraceOp>, n: nat, numIds: nat)
    requires 0 < n <= |ops| && WellFormed(ops, numIds)
    ensures Demand(ops, n) >= 2 * HEADER
  {
    assert OpOk(ops, 0, numIds);
    assert Demand(ops, 1) == Cost(ops[0]);
    DemandMonotone(ops, 1, n);
  }
}
