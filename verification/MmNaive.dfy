/** The naive allocator: every request takes a fresh chunk at the break, freeing clears a bit. */
module MmNaive {
  import opened Bits
  import opened MemLib

  const HEADER: int := 16

  /** A chunk as its header describes it. The payload starts HEADER bytes after `addr`. */
  datatype Chunk = Chunk(addr: int, size: nat, used: bool)

  /** The chunks fill [lo, hi) without gaps; each is a positive multiple of ALIGNMENT. */
  predicate Tiles(cs: seq<Chunk>, lo: int, hi: int) {
    if cs == [] then lo == hi
    else
      var last := cs[|cs| - 1];
      && last.size >= HEADER && last.size % ALIGNMENT == 0
      && last.addr + last.size == hi
      && Tiles(cs[..|cs| - 1], lo, last.addr)
  }

  lemma {:induction false} TilesBounds(cs: seq<Chunk>, lo: int, hi: int, i: nat)
    requires Tiles(cs, lo, hi) && i < |cs|
    ensures lo <= cs[i].addr && cs[i].addr + cs[i].size <= hi
    ensures HEADER <= cs[i].size && cs[i].size % ALIGNMENT == 0
    ensures (cs[i].addr - lo) % ALIGNMENT == 0
    ensures i + 1 < |cs| ==> cs[i].addr + cs[i].size == cs[i + 1].addr
    ensures i + 1 == |cs| ==> cs[i].addr + cs[i].size == hi
    ensures i == 0 ==> cs[i].addr == lo
  {
    var n := |cs| - 1;
    var init := cs[..n];
    if n > 0 {
      TilesBounds(init, lo, cs[n].addr, if i < n then i else n - 1);
    }
  }

  lemma TilesAppend(cs: seq<Chunk>, lo: int, c: Chunk)
    requires Tiles(cs, lo, c.addr)
    requires c.size >= HEADER && c.size % ALIGNMENT == 0
    ensures Tiles(cs + [c], lo, c.addr + c.size)
  {
    assert (cs + [c])[..|cs|] == cs;
  }

  /** Distinct chunks do not overlap; they lie in memory in the order of the list. */
  lemma {:induction false} TilesOrdered(cs: seq<Chunk>, lo: int, hi: int, i: nat, j: nat)
    requires Tiles(cs, lo, hi) && i < j < |cs|
    ensures cs[i].addr + cs[i].size <= cs[j].addr
    decreases j - i
  {
    TilesBounds(cs, lo, hi, i);
    if i + 1 < j {
      TilesBounds(cs, lo, hi, i + 1);
      TilesOrdered(cs, lo, hi, i + 1, j);
    }
  }

  lemma TilesDisjoint(cs: seq<Chunk>, lo: int, hi: int, i: nat, j: nat)
    requires Tiles(cs, lo, hi) && i < |cs| && j < |cs| && i != j
    ensures cs[i].addr + cs[i].size <= cs[j].addr || cs[j].addr + cs[j].size <= cs[i].addr
    ensures lo <= cs[i].addr && cs[i].addr + HEADER <= cs[i].addr + cs[i].size <= hi
    ensures lo <= cs[j].addr && cs[j].addr + HEADER <= cs[j].addr + cs[j].size <= hi
  {
    TilesBounds(cs, lo, hi, i);
    TilesBounds(cs, lo, hi, j);
    if i < j {
      TilesOrdered(cs, lo, hi, i, j);
    } else {
      TilesOrdered(cs, lo, hi, j, i);
    }
  }

  /** Chunk k lies below the newest chunk, which ends at the break. */
  lemma NewestAbove(cs: seq<Chunk>, lo: int, hi: int, k: nat)
    requires Tiles(cs, lo, hi) && k + 1 < |cs|
    ensures var c, newest := cs[k], cs[|cs| - 1];
            && lo <= c.addr && HEADER <= c.size && c.addr + c.size <= newest.addr
            && HEADER <= newest.size && newest.addr + newest.size == hi
  {
    hide Tiles;
    TilesBounds(cs, lo, hi, k);
    TilesBounds(cs, lo, hi, |cs| - 1);
    TilesOrdered(cs, lo, hi, k, |cs| - 1);
  }

  lemma {:induction false} TilesSetUsed(cs: seq<Chunk>, lo: int, hi: int, k: nat, used: bool)
    requires Tiles(cs, lo, hi) && k < |cs|
    ensures Tiles(cs[k := cs[k].(used := used)], lo, hi)
  {
    var n := |cs| - 1;
    var cs' := cs[k := cs[k].(used := used)];
    if k == n {
      assert cs'[..n] == cs[..n];
    } else {
      TilesSetUsed(cs[..n], lo, cs[n].addr, k, used);
      assert cs'[..n] == cs[..n][k := cs[k].(used := used)];
    }
  }

  function FreedAt(cs: seq<Chunk>, k: nat): seq<Chunk>
    requires k < |cs|
  {
    cs[k := cs[k].(used := false)]
  }

  /** The bytes covered by the chunks of the given status. */
  function Covered(cs: seq<Chunk>, used: bool): nat {
    if cs == [] then 0
    else Covered(cs[..|cs| - 1], used) + (if cs[|cs| - 1].used == used then cs[|cs| - 1].size else 0)
  }

  function Count(cs: seq<Chunk>, used: bool): nat {
    if cs == [] then 0
    else Count(cs[..|cs| - 1], used) + (if cs[|cs| - 1].used == used then 1 else 0)
  }

  /** Conservation: used and free chunks together account for every byte and every chunk. */
  lemma {:induction false} TilesAccount(cs: seq<Chunk>, lo: int, hi: int)
    requires Tiles(cs, lo, hi)
    ensures Covered(cs, true) + Covered(cs, false) == hi - lo
    ensures Count(cs, true) + Count(cs, false) == |cs|
  {
    if cs != [] {
      TilesAccount(cs[..|cs| - 1], lo, cs[|cs| - 1].addr);
    }
  }

  // ---- sizes

  /** `int newsize = align(size) + sizeof(header)`: computed in 64 bits, kept in 32. */
  function NewSize(size: Word): int {
    ToInt32(Sum64(size))
  }

  /** The sum in 64 bits: it can only wrap for the last 31 sizes. */
  function Sum64(size: Word): Word { (Align(size) + HEADER) % TWO_64 }

  lemma Sum64Exact(size: Word)
    ensures size <= TWO_64 - 32 ==> Sum64(size) == RoundUp(size) + HEADER
    ensures TWO_64 - 32 < size <= TWO_64 - 16 ==> Sum64(size) == 0 && RoundUp(size) == TWO_64 - 16
    ensures TWO_64 - 16 < size ==> Sum64(size) == HEADER && RoundUp(size) == TWO_64
  {
    hide Align;
    AlignRoundsUp(size);
  }

  lemma Sum64Modulo(size: Word)
    ensures Sum64(size) % TWO_32 == (RoundUp(size) + HEADER) % TWO_32
    ensures Sum64(size) % ALIGNMENT == 0
  {
    hide Sum64;
    Sum64Exact(size);
    if size <= TWO_64 - 32 {
      RoundedSum(size);
    }
  }

  lemma RoundedSum(size: Word)
    ensures (RoundUp(size) + HEADER) % ALIGNMENT == 0
  {
  }

  lemma ToInt32Exact(w: Word)
    ensures w < TWO_31 ==> ToInt32(w) == w
    ensures w == TWO_31 || w == TWO_31 + HEADER ==> ToInt32(w) < 0
    ensures -TWO_31 <= ToInt32(w) < TWO_31
  {
  }

  lemma ToInt32Modulo(w: Word)
    ensures ToInt32(w) % TWO_32 == w % TWO_32
    ensures ToInt32(w) == 0 <==> w % TWO_32 == 0
  {
  }

  lemma ToInt32Aligned(w: Word)
    requires w % ALIGNMENT == 0
    ensures ToInt32(w) % ALIGNMENT == 0
  {
    var x := w / 16 - w / TWO_32 * 0x1000_0000;
    SixteenTimes(if w % TWO_32 < TWO_31 then x else x - 0x1000_0000);
  }

  lemma SixteenTimes(x: int)
    ensures 16 * x % ALIGNMENT == 0
  {
  }

  /** The 32-bit chunk size is the intended one exactly up to this bound. */
  lemma NewSizeExact(size: Word)
    ensures NewSize(size) == RoundUp(size) + HEADER <==> size <= 0x7FFF_FFE0
  {
    hide Sum64, ToInt32;
    Sum64Exact(size);
    ToInt32Exact(Sum64(size));
  }

  /** The chunk size is the rounded request plus its header, modulo 2^32, and a multiple of 16. */
  lemma NewSizeModulo(size: Word)
    ensures NewSize(size) % TWO_32 == (RoundUp(size) + HEADER) % TWO_32
    ensures NewSize(size) % ALIGNMENT == 0 && -TWO_31 <= NewSize(size) < TWO_31
    ensures NewSize(size) == 0 <==> (RoundUp(size) + HEADER) % TWO_32 == 0
  {
    hide Sum64, ToInt32, RoundUp;
    Sum64Modulo(size);
    ToInt32Exact(Sum64(size));
    ToInt32Modulo(Sum64(size));
    ToInt32Aligned(Sum64(size));
  }

  /** For every non-negative `int` the chunk size is exact, or negative and then refused by mem_sbrk. */
  lemma NewSizeOfInt(size: int)
    requires 0 <= size < TWO_31
    ensures NewSize(size) != 0
    ensures NewSize(size) == RoundUp(size) + HEADER || (NewSize(size) < 0 && RoundUp(size) + HEADER > MAX_HEAP)
  {
    hide Sum64, ToInt32;
    Sum64Exact(size);
    ToInt32Exact(Sum64(size));
  }

  // ---- header words

  function PackSizeStatus(size: nat, status: bool): nat {
    Or(size, if status then 1 else 0)
  }

  function StatusOf(w: Word): bool { And(w, 1) != 0 }

  function SizeOf(w: Word): nat { And(w, Not64(1)) }

  function MaskStatus(w: Word, status: bool): nat {
    And(w, Not64(1 - (if status then 1 else 0)))
  }

  /** A packed header gives back its size and status, and the mask drops the status only. */
  lemma HeaderRoundTrip(size: nat, status: bool)
    requires size % 2 == 0 && size + 1 < TWO_64
    ensures PackSizeStatus(size, status) == size + (if status then 1 else 0)
    ensures StatusOf(PackSizeStatus(size, status)) == status
    ensures SizeOf(PackSizeStatus(size, status)) == size
  {
    OrLowBit(size, if status then 1 else 0);
    AndBit0(PackSizeStatus(size, status));
    AndClearBit0(PackSizeStatus(size, status));
  }

  /** `size_n_status &= ~(1 - status)` keeps the size; it can clear the status, never set it. */
  lemma MaskMeaning(w: Word, status: bool)
    ensures MaskStatus(w, status) < TWO_64
    ensures SizeOf(MaskStatus(w, status)) == SizeOf(w)
    ensures StatusOf(MaskStatus(w, status)) == (status && StatusOf(w))
  {
    AndBit0(w);
    AndClearBit0(w);
    if status {
      AndAllOnes(w);
    } else {
      AndBit0(w - w % 2);
      AndClearBit0(w - w % 2);
    }
  }

  /** The header words in memory say what the chunks say. */
  predicate HeadersIn(m: seq<Byte>, start: int, cs: seq<Chunk>) {
    forall i :: 0 <= i < |cs| ==> HeaderIn(m, start, cs[i])
  }

  predicate HeaderIn(m: seq<Byte>, start: int, c: Chunk) {
    var o := c.addr - start;
    && 0 <= o && o + HEADER <= |m|
    && SizeOf(WordIn(m, o)) == c.size && StatusOf(WordIn(m, o)) == c.used
  }

  /** Writing a header just after the last chunk adds that chunk and no other. */
  lemma HeaderAdded(m: seq<Byte>, m': seq<Byte>, start: int, cs: seq<Chunk>, c: Chunk)
    requires HeadersIn(m, start, cs) && Tiles(cs, start, c.addr)
    requires Agree(m, m', c.addr - start, 8) && HeaderIn(m', start, c)
    ensures HeadersIn(m', start, cs + [c])
  {
    hide SizeOf, StatusOf, WordIn;
    forall i | 0 <= i < |cs|
      ensures HeaderIn(m', start, cs[i])
    {
      assert HeaderIn(m, start, cs[i]);
      TilesBounds(cs, start, c.addr, i);
      WordKept(m, m', c.addr - start, 8, cs[i].addr - start);
    }
  }

  /** Overwriting the header of chunk k replaces that chunk and no other. */
  lemma HeaderReplaced(m: seq<Byte>, m': seq<Byte>, start: int, cs: seq<Chunk>, hi: int, k: nat, c: Chunk)
    requires HeadersIn(m, start, cs) && Tiles(cs, start, hi) && k < |cs|
    requires Agree(m, m', cs[k].addr - start, 8)
    requires c.addr == cs[k].addr && HeaderIn(m', start, c)
    ensures HeadersIn(m', start, cs[k := c])
  {
    hide SizeOf, StatusOf, WordIn;
    forall i | 0 <= i < |cs| && i != k
      ensures HeaderIn(m', start, cs[i])
    {
      assert HeaderIn(m, start, cs[i]);
      TilesDisjoint(cs, start, hi, i, k);
      WordKept(m, m', cs[k].addr - start, 8, cs[i].addr - start);
    }
  }

  /** Writing inside the payload of chunk k changes no header. */
  lemma PayloadWritten(m: seq<Byte>, m': seq<Byte>, start: int, cs: seq<Chunk>, hi: int, k: nat, p: int, n: int)
    requires HeadersIn(m, start, cs) && Tiles(cs, start, hi) && k < |cs|
    requires HeaderToPayload(cs[k].addr) <= p && p + n <= cs[k].addr + cs[k].size
    requires Agree(m, m', p - start, n)
    ensures HeadersIn(m', start, cs)
  {
    hide SizeOf, StatusOf, WordIn;
    forall i | 0 <= i < |cs|
      ensures HeaderIn(m', start, cs[i])
    {
      assert HeaderIn(m, start, cs[i]);
      if i != k {
        TilesDisjoint(cs, start, hi, i, k);
      }
      WordKept(m, m', p - start, n, cs[i].addr - start);
    }
  }

  /** The first n bytes of the payload at offset `from` now also lie at offset `to`; apart from
      them and the two headers, memory is what it was. */
  ghost predicate Relocated(m: seq<Byte>, m': seq<Byte>, from: int, to: int, n: int) {
    && HEADER <= from && 0 <= n && from + n <= to - HEADER && to + n <= |m| == |m'|
    && m'[to..to + n] == m[from..from + n]
    && Agree2(m, m', to - HEADER, HEADER + n, from - HEADER, 8)
  }

  /** Only the n bytes at `to`, copied from `from`, and the header of the old chunk differ. */
  ghost predicate Carried(m: seq<Byte>, m': seq<Byte>, from: int, to: int, n: int) {
    && HEADER <= from && 0 <= n && from + n <= to - HEADER && to + n <= |m| == |m'|
    && m'[to..to + n] == m[from..from + n]
    && Agree2(m, m', to, n, from - HEADER, 8)
  }

  /** Only the n bytes at `to`, copied from `from`, differ. */
  ghost predicate Copied(m: seq<Byte>, m': seq<Byte>, from: int, to: int, n: int) {
    && HEADER <= from && 0 <= n && from + n <= to - HEADER && to + n <= |m| == |m'|
    && m'[to..to + n] == m[from..from + n]
    && Agree(m, m', to, n)
  }

  /** A copy from the payload of chunk k into the payload of the newest chunk. */
  lemma CopyDone(m: seq<Byte>, m': seq<Byte>, start: int, cs: seq<Chunk>, hi: int, from: int, to: int, k: nat, n: int)
    requires HeadersIn(m, start, cs) && Tiles(cs, start, hi) && k + 1 < |cs| && hi - start <= |m| == |m'|
    requires from == HeaderToPayload(cs[k].addr) && to == HeaderToPayload(cs[|cs| - 1].addr)
    requires 0 <= n <= cs[k].size - HEADER && n <= cs[|cs| - 1].size - HEADER
    requires start <= cs[k].addr && cs[k].addr + cs[k].size <= cs[|cs| - 1].addr
    requires cs[|cs| - 1].addr + cs[|cs| - 1].size == hi
    requires m'[to - start..to - start + n] == m[from - start..from - start + n] && Agree(m, m', to - start, n)
    ensures Copied(m, m', from - start, to - start, n) && HeadersIn(m', start, cs)
  {
    hide HeadersIn, Agree, Tiles;
    PayloadWritten(m, m', start, cs, hi, |cs| - 1, to, n);
  }

  /** A copy into the new payload followed by a store in the header of the old chunk. */
  lemma CopiedThenFreed(m0: seq<Byte>, m1: seq<Byte>, m2: seq<Byte>, from: int, to: int, n: nat)
    requires Copied(m0, m1, from, to, n) && Agree(m1, m2, from - HEADER, 8)
    ensures Carried(m0, m2, from, to, n)
  {
    AgreeSlice(m1, m2, from - HEADER, 8, to, n);
    AgreeTwice(m0, m1, m2, to, n, from - HEADER, 8);
  }

  /** A header store at `to - 16` followed by a move of n bytes from `from` to `to`. */
  lemma Moved(m0: seq<Byte>, m1: seq<Byte>, m2: seq<Byte>, from: int, to: int, n: nat)
    requires Agree(m0, m1, to - HEADER, 8) && Carried(m1, m2, from, to, n)
    ensures Relocated(m0, m2, from, to, n)
  {
    AgreeSlice(m0, m1, to - HEADER, 8, from, n);
  }

  function PayloadToHeader(p: int): int { p - HEADER }

  function HeaderToPayload(h: int): int { h + HEADER }

  class Allocator {
    const heap: Heap
    /** Every chunk ever taken since the heap was last empty, in address order. */
    ghost var chunks: seq<Chunk>

    ghost predicate Valid()
      reads this, heap, heap.mem
    {
      && heap.Valid()
      && Tiles(chunks, heap.start, heap.brk)
      && HeadersIn(heap.mem[..], heap.start, chunks)
    }

    /** p is the payload address of chunk k. */
    ghost predicate IsPayload(p: int, k: nat)
      reads this
    {
      k < |chunks| && p == HeaderToPayload(chunks[k].addr)
    }

    constructor (heap: Heap)
      requires heap.Valid() && heap.brk == heap.start
      ensures this.heap == heap && chunks == [] && Valid()
    {
      this.heap := heap;
      chunks := [];
    }

    /** mm_init: nothing to set up once the heap is empty. */
    method Init() returns (r: int)
      requires heap.Valid() && heap.brk == heap.start
      modifies this
      ensures r == 0 && chunks == [] && Valid()
    {
      chunks := [];
      return 0;
    }

    function GetChunkStatus(h: int): bool
      requires heap.InBuffer(h, 8)
      reads heap.mem
    {
      StatusOf(heap.WordAt(h))
    }

    function GetChunkSize(h: int): nat
      requires heap.InBuffer(h, 8)
      reads heap.mem
    {
      SizeOf(heap.WordAt(h))
    }

    function GetNextChunk(h: int): int
      requires heap.InBuffer(h, 8)
      reads heap.mem
    {
      h + GetChunkSize(h)
    }

    /** The header of chunk k is in the buffer and describes the chunk. */
    lemma HeaderAt(k: nat)
      requires Valid() && k < |chunks|
      ensures heap.InBuffer(chunks[k].addr, HEADER)
      ensures GetChunkSize(chunks[k].addr) == chunks[k].size && GetChunkStatus(chunks[k].addr) == chunks[k].used
    {
      hide SizeOf, StatusOf, WordIn, Tiles;
      assert HeaderIn(heap.mem[..], heap.start, chunks[k]);
    }

    /** set_chunk_size_status */
    method SetChunkSizeStatus(h: int, size: nat, status: bool)
      requires heap.InBuffer(h, HEADER) && size % 2 == 0 && size + 1 < TWO_64
      modifies heap.mem
      ensures GetChunkSize(h) == size && GetChunkStatus(h) == status
      ensures heap.OnlyChanged(h, 8)
    {
      HeaderRoundTrip(size, status);
      heap.StoreWord(h, PackSizeStatus(size, status));
    }

    /** set_chunk_status: the mask can clear the status but never set it. */
    method SetChunkStatus(h: int, status: bool)
      requires heap.InBuffer(h, HEADER)
      modifies heap.mem
      ensures GetChunkSize(h) == old(GetChunkSize(h))
      ensures GetChunkStatus(h) == (status && old(GetChunkStatus(h)))
      ensures heap.OnlyChanged(h, 8)
    {
      MaskMeaning(heap.WordAt(h), status);
      heap.StoreWord(h, MaskStatus(heap.WordAt(h), status));
    }

    /** The part of mm_malloc after mem_sbrk has handed out the `newsize` bytes at h. */
    method InstallChunk(h: int, newsize: nat)
      requires heap.Valid() && heap.brk == h + newsize
      requires newsize >= HEADER && newsize % ALIGNMENT == 0
      requires Tiles(chunks, heap.start, h) && HeadersIn(heap.mem[..], heap.start, chunks)
      modifies this, heap.mem
      ensures Valid() && IsAligned(h)
      ensures chunks == old(chunks) + [Chunk(h, newsize, true)]
      ensures heap.OnlyChanged(h, 8)
    {
      hide SizeOf, StatusOf, WordIn, Tiles, HeadersIn, Agree, IsAligned;
      ChunkFits(heap.start, chunks, h, newsize);
      assert IsAligned(h);
      SetChunkSizeStatus(h, newsize, true);
      assert GetChunkStatus(h) == true;
      assert GetChunkSize(h) == newsize;
      Extend(Chunk(h, newsize, true), old(heap.mem[..]));
    }

    /** A header just written at the end of the heap enters the chunk list. */
    ghost method Extend(c: Chunk, before: seq<Byte>)
      requires heap.Valid() && Tiles(chunks, heap.start, c.addr) && HeadersIn(before, heap.start, chunks)
      requires c.size >= HEADER && c.size % ALIGNMENT == 0 && heap.brk == c.addr + c.size
      requires Agree(before, heap.mem[..], c.addr - heap.start, 8) && HeaderIn(heap.mem[..], heap.start, c)
      modifies this`chunks
      ensures Valid() && chunks == old(chunks) + [c]
    {
      hide Tiles, HeadersIn, HeaderIn, Agree;
      HeaderAdded(before, heap.mem[..], heap.start, chunks, c);
      TilesAppend(chunks, heap.start, c);
      chunks := chunks + [c];
    }

    /** mem_sbrk will not hand out the chunk for this request. */
    predicate Refused(size: Word)
      reads heap
    {
      NewSize(size) < 0 || heap.brk + NewSize(size) > heap.start + MAX_HEAP
    }

    /** mm_malloc, for every request whose 32-bit chunk size is not 0. */
    method Malloc(size: Word) returns (p: int)
      requires Valid() && NewSize(size) != 0
      modifies this, heap`brk, heap.mem
      ensures Valid()
      ensures p == 0 <==> old(Refused(size))
      ensures p == NULL ==> chunks == old(chunks) && heap.brk == old(heap.brk) && heap.mem[..] == old(heap.mem[..])
      ensures p != NULL ==>
        && p == old(heap.brk) + HEADER && IsAligned(p)
        && heap.brk == old(heap.brk) + NewSize(size) && NewSize(size) > 0
        && chunks == old(chunks) + [Chunk(old(heap.brk), NewSize(size), true)]
        && heap.OnlyChanged(old(heap.brk), 8)
    {
      hide SizeOf, StatusOf, WordIn, HeadersIn, NewSize, Tiles;
      NewSizeModulo(size);
      var newsize := NewSize(size);
      var h := heap.Sbrk(newsize);
      if h == SBRK_FAILED {
        return NULL;
      }
      InstallChunk(h, newsize);
      return HeaderToPayload(h);
    }

    /** mm_free: the caller passes the payload of chunk k, inside the heap. */
    method Free(p: int, ghost k: nat)
      requires Valid() && IsPayload(p, k) && p <= heap.HeapHi()
      modifies this, heap.mem
      ensures Valid()
      ensures chunks == FreedAt(old(chunks), k)
      ensures heap.OnlyChanged(PayloadToHeader(p), 8)
    {
      hide SizeOf, StatusOf, WordIn, Tiles, HeadersIn, Agree;
      TilesBounds(chunks, heap.start, heap.brk, k);
      assert heap.HeapLo() <= p <= heap.HeapHi();
      var h := PayloadToHeader(p);
      HeaderAt(k);
      SetChunkStatus(h, false);
      assert GetChunkStatus(h) == false;
      ghost var c := chunks[k].(used := false);
      HeaderReplaced(old(heap.mem[..]), heap.mem[..], heap.start, chunks, heap.brk, k, c);
      TilesSetUsed(chunks, heap.start, heap.brk, k, false);
      chunks := chunks[k := c];
    }

    /** How much mm_realloc copies: the old payload, as its header tells, or less if less is asked for. */
    method CopySize(ptr: int, size: int, ghost k: nat) returns (n: nat)
      requires Valid() && IsPayload(ptr, k) && 0 <= size
      ensures n == Min(size, chunks[k].size - HEADER) <= chunks[k].size - HEADER
    {
      hide SizeOf, StatusOf, WordIn, Tiles, HeadersIn;
      TilesBounds(chunks, heap.start, heap.brk, k);
      HeaderAt(k);
      n := GetChunkSize(PayloadToHeader(ptr)) - HEADER;
      if size < n {
        n := size;
      }
    }

    /** The copying step of mm_realloc: from the payload of chunk k into the newest chunk. */
    method CopyPayload(ptr: int, newptr: int, size: int, ghost k: nat) returns (copySize: nat)
      requires Valid() && IsPayload(ptr, k) && k + 1 < |chunks|
      requires IsPayload(newptr, |chunks| - 1) && 0 <= size
      requires Min(size, chunks[k].size - HEADER) <= chunks[|chunks| - 1].size - HEADER
      modifies heap.mem
      ensures Valid()
      ensures copySize == Min(size, chunks[k].size - HEADER)
      ensures Copied(old(heap.mem[..]), heap.mem[..], ptr - heap.start, newptr - heap.start, copySize)
    {
      hide WordIn, Tiles, HeadersIn, Agree, Min, IsAligned, Copied;
      NewestAbove(chunks, heap.start, heap.brk, k);
      copySize := CopySize(ptr, size, k);
      ghost var before := heap.mem[..];
      heap.Memcpy(newptr, ptr, copySize);
      CopyDone(before, heap.mem[..], heap.start, chunks, heap.brk, ptr, newptr, k, copySize);
    }

    /** The rest of mm_realloc once the new chunk exists: copy the old payload, then free its chunk. */
    method MoveBlock(ptr: int, newptr: int, size: int, ghost k: nat) returns (ghost n: nat)
      requires Valid() && IsPayload(ptr, k) && k + 1 < |chunks|
      requires IsPayload(newptr, |chunks| - 1) && 0 <= size
      requires Min(size, chunks[k].size - HEADER) <= chunks[|chunks| - 1].size - HEADER
      modifies this, heap.mem
      ensures Valid()
      ensures chunks == FreedAt(old(chunks), k)
      ensures n == Min(size, old(chunks[k].size) - HEADER)
      ensures Carried(old(heap.mem[..]), heap.mem[..], ptr - heap.start, newptr - heap.start, n)
    {
      hide SizeOf, StatusOf, WordIn, HeadersIn, Tiles, Agree, Copied, Carried;
      NewestAbove(chunks, heap.start, heap.brk, k);
      ghost var before := heap.mem[..];
      n := CopyPayload(ptr, newptr, size, k);
      ghost var copied := heap.mem[..];
      Free(ptr, k);
      CopiedThenFreed(before, copied, heap.mem[..], ptr - heap.start, newptr - heap.start, n);
    }

    /** mm_realloc: `ptr` is NULL or the payload of chunk k; what is copied must fit the new chunk. */
    method Realloc(ptr: int, size: Word, ghost k: nat) returns (newptr: int)
      requires Valid() && (size > 0 ==> NewSize(size) != 0)
      requires ptr != NULL ==> IsPayload(ptr, k)
      requires ptr != NULL ==>
                 if size == 0 then ptr <= heap.HeapHi()
                 else Refused(size) || Min(size, chunks[k].size - HEADER) <= NewSize(size) - HEADER
      modifies this, heap`brk, heap.mem
      ensures Valid()
      ensures newptr == NULL <==> size == 0 || old(Refused(size))
      ensures newptr == NULL ==>
        && heap.brk == old(heap.brk)
        && (if size == 0 && ptr != NULL then
              && chunks == FreedAt(old(chunks), k)
              && heap.OnlyChanged(PayloadToHeader(ptr), 8)
            else
              chunks == old(chunks) && heap.mem[..] == old(heap.mem[..]))
      ensures newptr != NULL ==>
        && newptr == old(heap.brk) + HEADER && IsAligned(newptr)
        && heap.brk == old(heap.brk) + NewSize(size) && NewSize(size) > 0
        && chunks == (if ptr == NULL then old(chunks) else FreedAt(old(chunks), k))
                     + [Chunk(old(heap.brk), NewSize(size), true)]
      ensures newptr != NULL && ptr == NULL ==> heap.OnlyChanged(old(heap.brk), 8)
      ensures newptr != NULL && ptr != NULL ==>
        Relocated(old(heap.mem[..]), heap.mem[..], ptr - heap.start, newptr - heap.start,
                  Min(size, old(chunks[k].size) - HEADER))
    {
      hide SizeOf, StatusOf, WordIn, NewSize, HeadersIn, Tiles, Relocated, Carried;
      newptr := NULL;
      if size > 0 {
        newptr := Malloc(size);
        if newptr != NULL && ptr != NULL {
          ghost var m1 := heap.mem[..];
          ghost var n := MoveBlock(ptr, newptr, size, k);
          Moved(old(heap.mem[..]), m1, heap.mem[..], ptr - heap.start, newptr - heap.start, n);
        }
      } else if ptr != NULL {
        Free(ptr, k);
      }
    }

    /** mm_checkheap: walk the headers from the bottom of the heap. The totals it would print
        account for every chunk and every byte. */
    method CheckHeap() returns (nUsed: nat, nFree: nat, usedSize: nat, freeSize: nat)
      requires Valid()
      ensures nUsed == Count(chunks, true) && nFree == Count(chunks, false)
      ensures usedSize == Covered(chunks, true) && freeSize == Covered(chunks, false)
      ensures nUsed + nFree == |chunks|
      ensures usedSize + freeSize == heap.HeapSize()
    {
      hide SizeOf, StatusOf, WordIn, Count, Covered, Tiles, StartOf, HeadersIn;
      nUsed, nFree, usedSize, freeSize := 0, 0, 0, 0;
      var h := heap.HeapLo();
      ghost var i := 0;
      NoChunks(chunks);
      ChunkStart(chunks, heap.start, heap.brk, 0);
      while h < heap.HeapHi()
        invariant i <= |chunks| && h == StartOf(chunks, heap.brk, i)
        invariant h < heap.HeapHi() <==> i < |chunks|
        invariant nUsed == Count(chunks[..i], true) && nFree == Count(chunks[..i], false)
        invariant usedSize == Covered(chunks[..i], true) && freeSize == Covered(chunks[..i], false)
        decreases |chunks| - i
      {
        ChunkStart(chunks, heap.start, heap.brk, i);
        ChunkStart(chunks, heap.start, heap.brk, i + 1);
        OneMoreChunk(chunks, i);
        HeaderAt(i);
        if GetChunkStatus(h) {
          usedSize := usedSize + GetChunkSize(h);
          nUsed := nUsed + 1;
        } else {
          freeSize := freeSize + GetChunkSize(h);
          nFree := nFree + 1;
        }
        h := GetNextChunk(h);
        i := i + 1;
      }
      assert chunks[..i] == chunks;
      TilesAccount(chunks, heap.start, heap.brk);
    }
  }

  lemma NoChunks(cs: seq<Chunk>)
    ensures Count(cs[..0], true) == 0 && Count(cs[..0], false) == 0
    ensures Covered(cs[..0], true) == 0 && Covered(cs[..0], false) == 0
  {
  }

  /** What chunk i adds to the four totals. */
  lemma OneMoreChunk(cs: seq<Chunk>, i: nat)
    requires i < |cs|
    ensures forall u :: Count(cs[..i + 1], u) == Count(cs[..i], u) + (if cs[i].used == u then 1 else 0)
    ensures forall u :: Covered(cs[..i + 1], u) == Covered(cs[..i], u) + (if cs[i].used == u then cs[i].size else 0)
  {
    assert cs[..i + 1][..i] == cs[..i];
  }

  /** Where chunk i starts; the position after the last chunk is the break. */
  function StartOf(cs: seq<Chunk>, hi: int, i: nat): int
    requires i <= |cs|
  {
    if i < |cs| then cs[i].addr else hi
  }

  lemma ChunkStart(cs: seq<Chunk>, lo: int, hi: int, i: nat)
    requires Tiles(cs, lo, hi) && i <= |cs|
    ensures i < |cs| ==> StartOf(cs, hi, i) == cs[i].addr && StartOf(cs, hi, i + 1) == cs[i].addr + cs[i].size
    ensures StartOf(cs, hi, i) < hi - 1 <==> i < |cs|
    ensures StartOf(cs, hi, 0) == lo
  {
    if i < |cs| {
      TilesBounds(cs, lo, hi, i);
    }
    if cs != [] {
      TilesBounds(cs, lo, hi, 0);
    }
  }

  /** Room for a chunk after a tiling: its address is aligned and above the base, its size even. */
  lemma ChunkFits(lo: int, cs: seq<Chunk>, h: int, size: nat)
    requires Tiles(cs, lo, h) && IsAligned(lo) && size % ALIGNMENT == 0
    ensures IsAligned(h) && lo <= h && size % 2 == 0
  {
    hide Tiles, IsAligned;
    AlignedAt(lo, cs, h);
    SixteenthsAreEven(size);
  }

  lemma SixteenthsAreEven(n: int)
    requires n % 16 == 0
    ensures n % 2 == 0
  {
    assert n == 2 * (n / 16 * 8);
  }

  lemma AlignedAt(lo: int, cs: seq<Chunk>, hi: int)
    requires Tiles(cs, lo, hi) && IsAligned(lo)
    ensures IsAligned(hi) && lo <= hi
  {
    if cs != [] {
      TilesBounds(cs, lo, hi, |cs| - 1);
    }
  }
}
