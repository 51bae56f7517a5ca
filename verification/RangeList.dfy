/** The driver's list of live payload ranges: newest first, checked on insertion. */
module RangeList {
  import opened MemLib

  /** A payload occupies the addresses lo..hi, both included. */
  datatype Range = Range(lo: int, hi: int)

  function RangeOf(lo: int, size: int): Range { Range(lo, lo + size - 1) }

  // ---- what the overlap test of add_range sees, and what it should see

  /** The test in add_range: an end of the new range lies inside the old one. */
  predicate Hits(a: Range, b: Range) {
    (a.lo >= b.lo && a.lo <= b.hi) || (a.hi >= b.lo && a.hi <= b.hi)
  }

  ghost predicate Overlaps(a: Range, b: Range) { exists x :: InRange(x, a) && InRange(x, b) }

  predicate InRange(x: int, a: Range) { a.lo <= x <= a.hi }

  predicate StrictlyEncloses(a: Range, b: Range) { a.lo < b.lo && b.hi < a.hi }

  /** The test misses an overlap exactly when the new range strictly encloses the old one. */
  lemma HitsExact(a: Range, b: Range)
    requires a.lo <= a.hi && b.lo <= b.hi
    ensures Overlaps(a, b) <==> a.lo <= b.hi && b.lo <= a.hi
    ensures Overlaps(a, b) <==> Hits(a, b) || (a.lo < b.lo && b.hi < a.hi)
    ensures !(Hits(a, b) && a.lo < b.lo && b.hi < a.hi)
    ensures StrictlyEncloses(a, b) <==> a.lo < b.lo && b.hi < a.hi
  {
    if Hits(a, b) || StrictlyEncloses(a, b) {
      var x := if InRange(a.lo, b) then a.lo else if InRange(a.hi, b) then a.hi else b.lo;
      assert InRange(x, a) && InRange(x, b);
    }
  }

  // ---- the list as a sequence

  predicate InHeap(a: Range, heapLo: int, heapHi: int) {
    heapLo <= a.lo <= heapHi && heapLo <= a.hi <= heapHi
  }

  /** What add_range demands of a new range. */
  predicate Accepts(rs: seq<Range>, a: Range, heapLo: int, heapHi: int) {
    && IsAligned(a.lo)
    && InHeap(a, heapLo, heapHi)
    && NoHit(rs, a)
  }

  predicate NoHit(rs: seq<Range>, a: Range) {
    forall i :: 0 <= i < |rs| ==> !Hits(a, rs[i])
  }

  /** A payload is accepted exactly when it passes the three tests: its address is a multiple of 16, its
      first and last byte lie in the heap, and neither of them lies in a recorded range. */
  lemma AcceptsMeaning(rs: seq<Range>, lo: int, size: int, heapLo: int, heapHi: int)
    requires size > 0
    ensures Accepts(rs, RangeOf(lo, size), heapLo, heapHi) <==>
            && lo % 16 == 0
            && heapLo <= lo && lo + size - 1 <= heapHi
            && forall i :: 0 <= i < |rs| ==>
                 !(rs[i].lo <= lo <= rs[i].hi) && !(rs[i].lo <= lo + size - 1 <= rs[i].hi)
  {
    var a := RangeOf(lo, size);
    assert forall i :: 0 <= i < |rs| ==>
             (Hits(a, rs[i]) <==> (rs[i].lo <= lo <= rs[i].hi) || (rs[i].lo <= lo + size - 1 <= rs[i].hi));
  }

  /** The list without its first range that starts at `lo`. */
  function RemoveFirst(rs: seq<Range>, lo: int): seq<Range> {
    if rs == [] then []
    else if rs[0].lo == lo then rs[1..]
    else [rs[0]] + RemoveFirst(rs[1..], lo)
  }

  /** Nested or disjoint, and only a newer range strictly encloses an older one. */
  predicate Laminar(rs: seq<Range>) {
    && (forall i :: 0 <= i < |rs| ==> rs[i].lo <= rs[i].hi)
    && (forall i, j :: 0 <= i < j < |rs| ==>
          Apart(rs[i], rs[j]) || StrictlyEncloses(rs[i], rs[j]))
  }

  predicate Apart(a: Range, b: Range) { a.hi < b.lo || b.hi < a.lo }

  predicate Disjoint(rs: seq<Range>) {
    forall i, j :: 0 <= i < j < |rs| ==> Apart(rs[i], rs[j])
  }

  predicate UniqueStarts(rs: seq<Range>) {
    forall i, j :: 0 <= i < j < |rs| ==> rs[i].lo != rs[j].lo
  }

  lemma LaminarUniqueStarts(rs: seq<Range>)
    requires Laminar(rs)
    ensures UniqueStarts(rs)
  {
  }

  lemma {:induction false} RemoveFirstMisses(rs: seq<Range>, lo: int)
    requires forall i :: 0 <= i < |rs| ==> rs[i].lo != lo
    ensures RemoveFirst(rs, lo) == rs
  {
    if rs != [] {
      RemoveFirstMisses(rs[1..], lo);
    }
  }

  /** With unique starts, removal by start address deletes exactly the record it means. */
  lemma {:induction false} RemoveFirstExact(rs: seq<Range>, k: nat)
    requires k < |rs| && UniqueStarts(rs)
    ensures RemoveFirst(rs, rs[k].lo) == rs[..k] + rs[k + 1..]
  {
    if k > 0 {
      RemoveFirstExact(rs[1..], k - 1);
      assert rs[..k] + rs[k + 1..] == [rs[0]] + (rs[1..][..k - 1] + rs[1..][k..]);
    }
  }

  // ---- every run of add_range and remove_range, for any allocator

  datatype ListOp =
    | Add(lo: int, size: int, heapLo: int, heapHi: int)
    | Remove(start: int)

  function Apply(rs: seq<Range>, op: ListOp): seq<Range> {
    match op
    case Add(lo, size, heapLo, heapHi) =>
      if size > 0 && Accepts(rs, RangeOf(lo, size), heapLo, heapHi) then [RangeOf(lo, size)] + rs else rs
    case Remove(start) => RemoveFirst(rs, start)
  }

  function Run(ops: seq<ListOp>): seq<Range> {
    if ops == [] then [] else Apply(Run(ops[..|ops| - 1]), ops[|ops| - 1])
  }

  lemma {:induction false} RemoveFirstKeeps(rs: seq<Range>, lo: int, r: Range)
    requires r in RemoveFirst(rs, lo)
    ensures r in rs
  {
    if rs[0].lo != lo && r != rs[0] {
      assert r in RemoveFirst(rs[1..], lo);
      RemoveFirstKeeps(rs[1..], lo, r);
    }
  }

  /** Every range recorded by a run was inserted by one of its calls: it is that call's payload, starts at a
      multiple of 16, and each of its bytes was in the heap at the time. */
  lemma {:induction false} RunRecords(ops: seq<ListOp>, r: Range)
    requires r in Run(ops)
    ensures exists n :: 0 <= n < |ops| && ops[n].Add? && ops[n].size > 0
                        && r == Range(ops[n].lo, ops[n].lo + ops[n].size - 1) && r.lo % 16 == 0
                        && ops[n].heapLo <= r.lo <= r.hi <= ops[n].heapHi
  {
    hide RemoveFirst, Accepts;
    var k := |ops| - 1;
    var init := ops[..k];
    if r in Run(init) {
      RunRecords(init, r);
    } else {
      match ops[k]
      case Add(lo, size, heapLo, heapHi) =>
        AcceptsMeaning(Run(init), lo, size, heapLo, heapHi);
      case Remove(start) =>
        RemoveFirstKeeps(Run(init), start, r);
    }
  }

  lemma LaminarRemove(rs: seq<Range>, lo: int)
    requires Laminar(rs)
    ensures Laminar(RemoveFirst(rs, lo))
  {
    hide Laminar, RemoveFirst;
    LaminarUniqueStarts(rs);
    if k :| 0 <= k < |rs| && rs[k].lo == lo {
      RemoveFirstExact(rs, k);
      LaminarDrop(rs, k);
    } else {
      RemoveFirstMisses(rs, lo);
    }
  }

  lemma LaminarDrop(rs: seq<Range>, k: nat)
    requires Laminar(rs) && k < |rs|
    ensures Laminar(rs[..k] + rs[k + 1..])
  {
    hide Apart, StrictlyEncloses;
    var rs' := rs[..k] + rs[k + 1..];
    assert forall i :: 0 <= i < |rs'| ==> rs'[i] == rs[if i < k then i else i + 1];
  }

  lemma LaminarAdd(rs: seq<Range>, a: Range, heapLo: int, heapHi: int)
    requires Laminar(rs) && a.lo <= a.hi && Accepts(rs, a, heapLo, heapHi)
    ensures Laminar([a] + rs)
  {
    forall j | 0 <= j < |rs|
      ensures Apart(a, rs[j]) || StrictlyEncloses(a, rs[j])
    {
      assert !Hits(a, rs[j]);
    }
  }

  /** Whatever an allocator returns, the accepted ranges stay a laminar family with unique starts. */
  lemma {:induction false} RunIsLaminar(ops: seq<ListOp>)
    ensures Laminar(Run(ops)) && UniqueStarts(Run(ops))
  {
    if ops != [] {
      var rs := Run(ops[..|ops| - 1]);
      RunIsLaminar(ops[..|ops| - 1]);
      match ops[|ops| - 1]
      case Add(lo, size, heapLo, heapHi) =>
        if size > 0 && Accepts(rs, RangeOf(lo, size), heapLo, heapHi) {
          LaminarAdd(rs, RangeOf(lo, size), heapLo, heapHi);
        }
      case Remove(start) =>
        LaminarRemove(rs, start);
    }
    LaminarUniqueStarts(Run(ops));
  }

  /** The call that the overlap test gets wrong: an accepted range around one already recorded. */
  predicate Swallows(rs: seq<Range>, op: ListOp) {
    && op.Add? && op.size > 0 && Accepts(rs, RangeOf(op.lo, op.size), op.heapLo, op.heapHi)
    && exists i :: 0 <= i < |rs| && StrictlyEncloses(RangeOf(op.lo, op.size), rs[i])
  }

  lemma AddDisjointIff(rs: seq<Range>, a: Range, heapLo: int, heapHi: int)
    requires Laminar(rs) && a.lo <= a.hi && Accepts(rs, a, heapLo, heapHi)
    ensures Disjoint([a] + rs) <==> Disjoint(rs) && forall i :: 0 <= i < |rs| ==> !StrictlyEncloses(a, rs[i])
  {
    forall j | 0 <= j < |rs|
      ensures Apart(a, rs[j]) <==> !StrictlyEncloses(a, rs[j])
    {
      assert !Hits(a, rs[j]);
    }
    hide Apart, StrictlyEncloses, Disjoint, Laminar, Accepts;
    DisjointPush(a, rs);
  }

  lemma DisjointPush(a: Range, rs: seq<Range>)
    ensures Disjoint([a] + rs) <==> Disjoint(rs) && forall j :: 0 <= j < |rs| ==> Apart(a, rs[j])
  {
    hide Apart;
    var rs' := [a] + rs;
    assert forall j :: 0 <= j < |rs| ==> rs[j] == rs'[j + 1];
    if Disjoint(rs') {
      forall j | 0 <= j < |rs|
        ensures Apart(a, rs[j])
      {
        assert Apart(rs'[0], rs'[j + 1]);
      }
    }
  }

  lemma RemoveKeepsDisjoint(rs: seq<Range>, lo: int)
    requires Disjoint(rs) && UniqueStarts(rs)
    ensures Disjoint(RemoveFirst(rs, lo))
  {
    if k :| 0 <= k < |rs| && rs[k].lo == lo {
      RemoveFirstExact(rs, k);
    } else {
      RemoveFirstMisses(rs, lo);
    }
  }

  /** One call keeps a disjoint list disjoint exactly when it does not swallow a recorded range. */
  lemma CallDisjointIff(rs: seq<Range>, op: ListOp)
    requires Laminar(rs) && Disjoint(rs)
    ensures Disjoint(Apply(rs, op)) <==> !Swallows(rs, op)
  {
    match op
    case Add(lo, size, heapLo, heapHi) =>
      if size > 0 && Accepts(rs, RangeOf(lo, size), heapLo, heapHi) {
        AddDisjointIff(rs, RangeOf(lo, size), heapLo, heapHi);
      }
    case Remove(start) =>
      LaminarUniqueStarts(rs);
      RemoveKeepsDisjoint(rs, start);
  }

  predicate AlwaysDisjoint(ops: seq<ListOp>) {
    forall n :: 0 <= n <= |ops| ==> Disjoint(Run(ops[..n]))
  }

  predicate NeverSwallows(ops: seq<ListOp>) {
    forall n :: 0 <= n < |ops| ==> !Swallows(Run(ops[..n]), ops[n])
  }

  /** For any allocator: the recorded ranges are disjoint after every call of a run if and only if no
      call inserts a range around one recorded at that moment. */
  lemma {:induction false} RunDisjointIff(ops: seq<ListOp>)
    ensures AlwaysDisjoint(ops) <==> NeverSwallows(ops)
  {
    hide AlwaysDisjoint, NeverSwallows, Disjoint, Swallows, Laminar, UniqueStarts, Apply;
    if ops == [] {
      NothingRun();
    } else {
      var init, op := ops[..|ops| - 1], ops[|ops| - 1];
      RunDisjointIff(init);
      RunIsLaminar(init);
      LastCall(ops);
      if Disjoint(Run(init)) {
        CallDisjointIff(Run(init), op);
      }
    }
  }

  lemma NothingRun()
    ensures AlwaysDisjoint([]) && NeverSwallows([])
  {
    var none: seq<ListOp> := [];
    assert none[..0] == [];
  }

  /** What the last call adds to both properties of a run. */
  lemma LastCall(ops: seq<ListOp>)
    requires ops != []
    ensures var init := ops[..|ops| - 1];
            && (AlwaysDisjoint(ops) <==> AlwaysDisjoint(init) && Disjoint(Run(ops)))
            && (NeverSwallows(ops) <==> NeverSwallows(init) && !Swallows(Run(init), ops[|ops| - 1]))
            && (AlwaysDisjoint(init) ==> Disjoint(Run(init)))
  {
    hide Run, Disjoint, Swallows;
    var k := |ops| - 1;
    var init := ops[..k];
    assert forall n :: 0 <= n <= k ==> init[..n] == ops[..n];
    assert ops[..k + 1] == ops && init[..k] == init;
  }

  /** The stated purpose of the test, no two live payloads overlapping, fails here. */
  lemma MissedOverlap()
    ensures Run([Add(32, 16, 16, 1000), Add(16, 64, 16, 1000)]) == [Range(16, 79), Range(32, 47)]
    ensures Overlaps(Range(16, 79), Range(32, 47))
  {
    var one := Add(32, 16, 16, 1000);
    var two := Add(16, 64, 16, 1000);
    assert [one, two][..1] == [one] && [one][..0] == [];
    assert Run([]) == [];
    assert Run([one]) == [Range(32, 47)];
    HitsExact(Range(16, 79), Range(32, 47));
  }

  // ---- the linked list

  class RangeNode {
    const lo: int
    const hi: int
    var next: RangeNode?
    /** Allocated and not yet freed. */
    ghost var live: bool

    constructor (lo: int, hi: int, next: RangeNode?)
      ensures this.lo == lo && this.hi == hi && this.next == next && live
    {
      this.lo, this.hi, this.next := lo, hi, next;
      live := true;
    }

    /** free(p): a record can be freed only once. */
    method Free()
      requires live
      modifies this`live
      ensures !live
    {
      live := false;
    }
  }

  /** The list that starts at `head` runs through exactly the records s, each once, and ends. */
  ghost predicate Linked(head: RangeNode?, s: seq<RangeNode>)
    reads s`next
  {
    && head == At(s, 0)
    && (forall i :: 0 <= i < |s| ==> s[i].next == At(s, i + 1))
    && NoDup(s)
  }

  /** The record at position i, or null past the end. */
  ghost function At(s: seq<RangeNode>, i: nat): RangeNode? {
    if i < |s| then s[i] else null
  }

  ghost predicate NoDup(s: seq<RangeNode>) {
    forall i, j :: 0 <= i < j < |s| ==> s[i] != s[j]
  }

  ghost function Dropped(s: seq<RangeNode>, i: nat): seq<RangeNode>
    requires i < |s|
  {
    s[..i] + s[i + 1..]
  }

  /** The ranges recorded by a sequence of nodes. */
  ghost function RangesOf(nodes: seq<RangeNode>): (rs: seq<Range>)
    ensures |rs| == |nodes|
    ensures forall i :: 0 <= i < |nodes| ==> rs[i] == Range(nodes[i].lo, nodes[i].hi)
  {
    seq(|nodes|, i requires 0 <= i < |nodes| => Range(nodes[i].lo, nodes[i].hi))
  }

  lemma Pushed(n: RangeNode, s: seq<RangeNode>)
    requires Linked(n.next, s) && n !in s
    ensures Linked(n, [n] + s)
  {
    var s' := [n] + s;
    assert s'[0] == n && forall i :: 0 <= i < |s| ==> s'[i + 1] == s[i];
    forall i | 0 <= i < |s'|
      ensures s'[i].next == At(s', i + 1)
    {
      assert i > 0 ==> s[i - 1].next == At(s, i);
    }
  }

  lemma RangesOfPushed(n: RangeNode, s: seq<RangeNode>)
    ensures RangesOf([n] + s) == [Range(n.lo, n.hi)] + RangesOf(s)
  {
  }

  lemma RangesOfDropped(nodes: seq<RangeNode>, i: nat)
    requires i < |nodes|
    ensures RangesOf(Dropped(nodes, i)) == RangesOf(nodes)[..i] + RangesOf(nodes)[i + 1..]
  {
  }

  lemma DroppedMembers(nodes: seq<RangeNode>, i: nat)
    requires i < |nodes| && NoDup(nodes)
    ensures NoDup(Dropped(nodes, i))
    ensures forall n :: n in nodes ==> (n in Dropped(nodes, i) <==> n != nodes[i])
    ensures forall n :: n in Dropped(nodes, i) ==> n in nodes
  {
    var s := Dropped(nodes, i);
    assert forall j :: 0 <= j < i ==> s[j] == nodes[j];
    assert forall j :: i < j < |nodes| ==> s[j - 1] == nodes[j];
  }

  lemma FirstLink(head: RangeNode?, s: seq<RangeNode>)
    requires Linked(head, s)
    ensures head == At(s, 0) && NoDup(s)
  {
  }

  lemma NextLink(head: RangeNode?, s: seq<RangeNode>, k: nat)
    requires Linked(head, s) && k < |s|
    ensures s[k].next == At(s, k + 1)
    ensures forall j :: 0 <= j < |s| && j != k ==> s[j] != s[k]
  {
  }

  /** The links around the record at position i skip it. */
  lemma Relinked(head: RangeNode?, s: seq<RangeNode>, i: nat)
    requires i < |s| && NoDup(s)
    requires head == At(s, if i == 0 then 1 else 0)
    requires forall j :: 0 <= j < |s| && j + 1 != i ==> s[j].next == At(s, j + 1)
    requires i > 0 ==> s[i - 1].next == At(s, i + 1)
    ensures Linked(head, Dropped(s, i))
  {
    hide NoDup;
    DroppedMembers(s, i);
    var s' := Dropped(s, i);
    forall j | 0 <= j < |s'|
      ensures s'[j].next == At(s', j + 1)
    {
      assert s'[j] == s[if j < i then j else j + 1];
    }
  }

  class List {
    var head: RangeNode?
    ghost var nodes: seq<RangeNode>

    ghost predicate Valid()
      reads this, nodes
    {
      Linked(head, nodes) && forall n :: n in nodes ==> n.live
    }

    ghost function Contents(): (rs: seq<Range>)
      reads this
    {
      RangesOf(nodes)
    }

    ghost function Repr(): set<RangeNode>
      reads this
    {
      set n | n in nodes
    }

    constructor ()
      ensures Valid() && nodes == [] && Contents() == []
    {
      head := null;
      nodes := [];
    }

    /** The loop of add_range: does any recorded range show an overlap? */
    method AnyHit(a: Range) returns (hit: bool)
      requires Valid()
      ensures hit <==> !NoHit(Contents(), a)
    {
      ghost var rs := Contents();
      var p := head;
      ghost var i := 0;
      while p != null
        invariant i <= |nodes| && p == At(nodes, i)
        invariant forall j :: 0 <= j < i ==> !Hits(a, rs[j])
        decreases |nodes| - i
      {
        assert rs[i] == Range(p.lo, p.hi);
        if (a.lo >= p.lo && a.lo <= p.hi) || (a.hi >= p.lo && a.hi <= p.hi) {
          return true;
        }
        p := p.next;
        i := i + 1;
      }
      return false;
    }

    /** Push a new record on the front of the list. */
    method Push(a: Range)
      requires Valid()
      modifies this
      ensures Valid() && fresh(Repr() - old(Repr()))
      ensures Contents() == [a] + old(Contents())
    {
      var n := new RangeNode(a.lo, a.hi, head);
      hide RangesOf, Linked;
      Pushed(n, nodes);
      RangesOfPushed(n, nodes);
      head := n;
      nodes := [n] + nodes;
    }

    /** add_range: refuse and change nothing, or record the new range. */
    method AddRange(heap: Heap, lo: int, size: int) returns (ok: bool)
      requires Valid() && heap.Valid() && size > 0
      modifies this
      ensures Valid() && fresh(Repr() - old(Repr()))
      ensures ok <==> old(Accepts(Contents(), RangeOf(lo, size), heap.HeapLo(), heap.HeapHi()))
      ensures Contents() == if ok then [RangeOf(lo, size)] + old(Contents()) else old(Contents())
      ensures Contents() == Apply(old(Contents()), Add(lo, size, heap.HeapLo(), heap.HeapHi()))
      ensures !ok ==> nodes == old(nodes)
    {
      hide Hits, NoHit, RangesOf, Linked;
      var hi := lo + size - 1;
      ok := false;
      if IsAligned(lo) {
        if !(lo < heap.HeapLo() || lo > heap.HeapHi() || hi < heap.HeapLo() || hi > heap.HeapHi()) {
          var hit := AnyHit(Range(lo, hi));
          if !hit {
            Push(Range(lo, hi));
            ok := true;
          }
        }
      }
    }

    /** The search of remove_range: the first record that starts at `lo`, and the one before it. */
    method Find(lo: int) returns (prev: RangeNode?, p: RangeNode?, ghost i: nat)
      requires Valid()
      ensures i <= |nodes| && p == At(nodes, i)
      ensures prev == if i == 0 then null else nodes[i - 1]
      ensures p != null ==> p.lo == lo
      ensures forall j :: 0 <= j < i ==> nodes[j].lo != lo
    {
      prev, p, i := null, head, 0;
      while p != null
        invariant i <= |nodes| && p == At(nodes, i)
        invariant prev == if i == 0 then null else nodes[i - 1]
        invariant forall j :: 0 <= j < i ==> nodes[j].lo != lo
        decreases |nodes| - i
      {
        if p.lo == lo {
          break;
        }
        prev := p;
        p := p.next;
        i := i + 1;
      }
    }

    /** `*prevpp = p->next`: take the record at position i out of the list. */
    method Unlink(prev: RangeNode?, p: RangeNode, ghost i: nat)
      requires Linked(head, nodes) && i < |nodes| && p == nodes[i]
      requires prev == if i == 0 then null else nodes[i - 1]
      modifies this, nodes`next
      ensures Linked(head, nodes) && nodes == Dropped(old(nodes), i)
    {
      hide Dropped, At;
      if prev == null {
        head := p.next;
      } else {
        prev.next := p.next;
      }
      Relinked(head, nodes, i);
      nodes := Dropped(nodes, i);
    }

    method UnlinkAndFree(prev: RangeNode?, p: RangeNode, ghost i: nat)
      requires Valid() && i < |nodes| && p == nodes[i]
      requires prev == if i == 0 then null else nodes[i - 1]
      modifies this, nodes
      ensures Valid() && nodes == Dropped(old(nodes), i)
      ensures !p.live
    {
      hide Dropped, Linked, At, NoDup;
      FirstLink(head, nodes);
      DroppedMembers(nodes, i);
      Unlink(prev, p, i);
      assert p !in nodes;
      p.Free();
    }

    /** remove_range: unlink and free the first record that starts at `lo`, if there is one; every
        other record stays. */
    method RemoveRange(lo: int)
      requires Valid()
      modifies this, Repr()
      ensures Valid() && Repr() <= old(Repr())
      ensures Contents() == RemoveFirst(old(Contents()), lo) == Apply(old(Contents()), Remove(lo))
      ensures forall n :: n in old(nodes) ==> (n.live <==> n in nodes)
    {
      var prev, p, i := Find(lo);
      if p == null {
        RemoveFirstMisses(Contents(), lo);
      } else {
        FirstAt(Contents(), lo, i);
        RangesOfDropped(nodes, i);
        DroppedMembers(nodes, i);
        hide RemoveFirst, RangesOf, Dropped, Linked, NoDup;
        UnlinkAndFree(prev, p, i);
      }
    }

    /** The loop of clear_ranges: free every record, each once. */
    method FreeAll()
      requires Valid()
      modifies nodes`live
      ensures forall j :: 0 <= j < |nodes| ==> !nodes[j].live
    {
      hide Linked, NoDup;
      FirstLink(head, nodes);
      var p := head;
      ghost var k := 0;
      while p != null
        invariant k <= |nodes| && p == At(nodes, k) && Linked(head, nodes)
        invariant forall j :: 0 <= j < |nodes| ==> (nodes[j].live <==> k <= j)
        decreases |nodes| - k
      {
        NextLink(head, nodes, k);
        var pnext := p.next;
        p.Free();
        p := pnext;
        k := k + 1;
      }
    }

    /** clear_ranges */
    method ClearRanges()
      requires Valid()
      modifies this, Repr()`live
      ensures Valid() && nodes == [] && Contents() == []
      ensures forall n :: n in old(nodes) ==> !n.live
    {
      FreeAll();
      head := null;
      nodes := [];
    }
  }

  lemma {:induction false} FirstAt(rs: seq<Range>, lo: int, k: nat)
    requires k < |rs| && rs[k].lo == lo
    requires forall j :: 0 <= j < k ==> rs[j].lo != lo
    ensures RemoveFirst(rs, lo) == rs[..k] + rs[k + 1..]
  {
    if k > 0 {
      FirstAt(rs[1..], lo, k - 1);
      assert rs[..k] + rs[k + 1..] == [rs[0]] + (rs[1..][..k - 1] + rs[1..][k..]);
    }
  }
}
