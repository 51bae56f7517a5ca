/** The simulated memory system: one fixed buffer, a break pointer that only grows,
    and the alignment helpers. Addresses are integers; 0 is the null pointer. */
module MemLib {
  import opened Bits

  const ALIGNMENT: int := 16
  const MAX_HEAP: int := 200 * 0x10_0000
  const NULL: int := 0
  const SBRK_FAILED: int := -1

  function Align(size: Word): nat {
    And((size + (ALIGNMENT - 1)) % TWO_64, Not64(ALIGNMENT - 1))
  }

  predicate IsAligned(p: int) { p % ALIGNMENT == 0 }

  /** The least multiple of ALIGNMENT that is not below `n`, over unbounded integers. */
  function RoundUp(n: nat): (r: nat)
    ensures r % ALIGNMENT == 0 && n <= r < n + ALIGNMENT
  {
    (n + 15) / 16 * 16
  }

  /** The bit mask rounds up exactly when the addition does not wrap around. */
  lemma AlignRoundsUp(size: Word)
    ensures Align(size) == RoundUp(size) <==> size <= TWO_64 - 16
    ensures size > TWO_64 - 16 ==> Align(size) == 0
  {
    hide And, Not64;
    var a := (size + 15) % TWO_64;
    AlignClears4(a);
    assert a == if size <= TWO_64 - 16 then size + 15 else size + 15 - TWO_64;
  }

  lemma AlignClears4(a: Word)
    ensures And(a, Not64(15)) == a / 16 * 16
  {
    Pow2Of64();
    assert Pow2(4) == 16;
    LowBitsMod(a);
    AndHighMask(a, 4, 64);
  }

  /** The eight bytes at offset `o`, as a little-endian word. */
  function WordIn(m: seq<Byte>, o: int): Word
    requires 0 <= o && o + 8 <= |m|
  {
    LeBound(m[o..o + 8]);
    Pow2Of64();
    LeValue(m[o..o + 8])
  }

  /** m' is m except, at most, for the `n` bytes at offset `o`. */
  ghost predicate Agree(m: seq<Byte>, m': seq<Byte>, o: int, n: int) {
    |m| == |m'| && forall k :: 0 <= k < |m| && !(o <= k < o + n) ==> m'[k] == m[k]
  }

  /** m' is m except, at most, for two areas. */
  ghost predicate Agree2(m: seq<Byte>, m': seq<Byte>, o1: int, n1: int, o2: int, n2: int) {
    && |m| == |m'|
    && forall k :: 0 <= k < |m| && !(o1 <= k < o1 + n1) && !(o2 <= k < o2 + n2) ==> m'[k] == m[k]
  }

  lemma AgreeTwice(m0: seq<Byte>, m1: seq<Byte>, m2: seq<Byte>, o1: int, n1: int, o2: int, n2: int)
    requires Agree(m0, m1, o1, n1) && Agree(m1, m2, o2, n2)
    ensures Agree2(m0, m2, o1, n1, o2, n2)
  {
  }

  lemma AgreeSlice(m: seq<Byte>, m': seq<Byte>, o: int, n: int, a: int, k: nat)
    requires Agree(m, m', o, n) && 0 <= a && a + k <= |m|
    requires a + k <= o || o + n <= a
    ensures m'[a..a + k] == m[a..a + k]
  {
  }

  lemma WordKept(m: seq<Byte>, m': seq<Byte>, o: int, n: int, w: int)
    requires Agree(m, m', o, n) && 0 <= w && w + 8 <= |m|
    requires w + 8 <= o || o + n <= w
    ensures WordIn(m', w) == WordIn(m, w)
  {
    assert m'[w..w + 8] == m[w..w + 8];
  }

  class Heap {
    const start: int
    const mem: array<Byte>
    var brk: int

    ghost predicate Valid()
      reads this
    {
      && 0 < start && IsAligned(start)
      && mem.Length == MAX_HEAP
      && start <= brk <= start + MAX_HEAP
    }

    /** mem_init. The C library returns the buffer's address; it is 16-byte aligned. */
    constructor (base: int)
      requires 0 < base && IsAligned(base)
      ensures Valid() && fresh(mem)
      ensures start == base && brk == base
    {
      start := base;
      mem := new Byte[MAX_HEAP];
      brk := base;
    }

    /** mem_reset_brk: the heap becomes empty; its bytes are not touched. */
    method ResetBrk()
      requires Valid()
      modifies this`brk
      ensures Valid() && brk == start
    {
      brk := start;
    }

    /** mem_sbrk: grow by `incr` bytes, or refuse and change nothing. */
    method Sbrk(incr: int) returns (p: int)
      requires Valid()
      modifies this`brk
      ensures Valid()
      ensures p == SBRK_FAILED <==> incr < 0 || old(brk) + incr > start + MAX_HEAP
      ensures p == SBRK_FAILED ==> brk == old(brk)
      ensures p != SBRK_FAILED ==> p == old(brk) && brk == old(brk) + incr
    {
      var oldBrk := brk;
      if incr < 0 || brk + incr > start + MAX_HEAP {
        return SBRK_FAILED;
      }
      brk := brk + incr;
      return oldBrk;
    }

    function HeapLo(): int { start }

    function HeapHi(): int
      reads this
    {
      brk - 1
    }

    function HeapSize(): int
      reads this
    {
      brk - start
    }

    // ---- access to the buffer by address

    /** Addresses a..a+n-1 all lie in the buffer. */
    predicate InBuffer(a: int, n: int) { start <= a && 0 <= n && a + n <= start + mem.Length }

    function WordAt(a: int): Word
      requires InBuffer(a, 8)
      reads mem
    {
      WordIn(mem[..], a - start)
    }

    /** The `n` bytes at `p`. */
    function Bytes(p: int, n: nat): (s: seq<Byte>)
      requires InBuffer(p, n)
      reads mem
    {
      mem[..][p - start..p - start + n]
    }

    /** Outside the `n` bytes at `a`, the buffer is what it was. */
    twostate predicate OnlyChanged(a: int, n: int)
      reads mem
    {
      Agree(old(mem[..]), mem[..], a - start, n)
    }

    /** A store of one 64-bit word. */
    method StoreWord(a: int, w: Word)
      requires InBuffer(a, 8)
      modifies mem
      ensures WordAt(a) == w
      ensures OnlyChanged(a, 8)
    {
      var bytes := LeBytes(w, 8);
      var o := a - start;
      forall i | 0 <= i < 8 {
        mem[o + i] := bytes[i];
      }
      assert mem[..][o..o + 8] == bytes;
      Pow2Of64();
      LeRoundTrip(w, 8);
    }

    /** memset */
    method Memset(p: int, v: Byte, n: nat)
      requires InBuffer(p, n)
      modifies mem
      ensures Bytes(p, n) == seq(n, _ => v)
      ensures OnlyChanged(p, n)
    {
      forall i | p - start <= i < p - start + n {
        mem[i] := v;
      }
    }

    /** memcpy between two areas that do not overlap */
    method Memcpy(dst: int, src: int, n: nat)
      requires InBuffer(dst, n) && InBuffer(src, n)
      requires src + n <= dst || dst + n <= src
      modifies mem
      ensures Bytes(dst, n) == old(Bytes(src, n))
      ensures OnlyChanged(dst, n)
    {
      forall i | 0 <= i < n {
        mem[dst - start + i] := mem[src - start + i];
      }
    }
  }
}
