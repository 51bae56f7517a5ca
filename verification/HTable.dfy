/** The chained hash table: an array of linked lists, relinked in place when a chain grows too long. */
module HTable {
  import opened Hashing
  import opened Primes

  /** Values are pointers; 0 is the null pointer. */
  type Ptr = int
  const NULL: Ptr := 0
  const MAX_COLLISION: int := 10

  class Node {
    const hashcode: int
    const key: Key
    const val: Ptr
    var next: Node?
    /** Allocated and not yet freed. */
    ghost var live: bool

    constructor (hashcode: int, key: Key, val: Ptr)
      ensures this.hashcode == hashcode && this.key == key && this.val == val
      ensures next == null && live
    {
      this.hashcode, this.key, this.val := hashcode, key, val;
      next := null;
      live := true;
    }

    /** free(n): a node can be freed only once. */
    method Free()
      requires live
      modifies this`live
      ensures !live
    {
      live := false;
    }
  }

  // ---- chains of nodes as sequences

  /** The chain that starts at `head` runs through exactly the nodes c and ends. */
  ghost predicate Linked(head: Node?, c: seq<Node>)
    reads c`next
  {
    && head == At(c, 0)
    && forall i :: 0 <= i < |c| ==> c[i].next == At(c, i + 1)
  }

  ghost function At(c: seq<Node>, i: nat): Node? {
    if i < |c| then c[i] else null
  }

  ghost predicate NoDup(c: seq<Node>) {
    forall i, j :: 0 <= i < j < |c| ==> c[i] != c[j]
  }

  ghost function Slot(n: Node, size: int): int
    requires size > 0
  {
    n.hashcode % size
  }

  /** Every node is in the chain of its slot, once, and the nodes are a table of those contents. */
  ghost predicate Shape(chains: seq<seq<Node>>, size: int, nodes: set<Node>, contents: map<Key, Ptr>) {
    && 0 < size == |chains|
    && (forall s :: 0 <= s < size ==> InSlot(chains[s], s, size, nodes) && NoDup(chains[s]))
    && (forall n :: n in nodes ==> n in chains[Slot(n, size)])
    && Represents(nodes, contents)
  }

  ghost predicate ChainsInNodes(chains: seq<seq<Node>>, nodes: set<Node>) {
    forall s, n :: 0 <= s < |chains| && n in chains[s] ==> n in nodes
  }

  /** The list of every slot runs through that slot's chain. */
  ghost predicate ListsAre(store: array<Node?>, chains: seq<seq<Node>>, nodes: set<Node>)
    reads store, nodes`next
  {
    && store.Length == |chains|
    && ChainsInNodes(chains, nodes)
    && forall s :: 0 <= s < |chains| ==> Linked(store[s], chains[s])
  }

  ghost predicate AllLive(nodes: set<Node>)
    reads nodes`live
  {
    forall n :: n in nodes ==> n.live
  }

  ghost predicate InSlot(c: seq<Node>, s: int, size: int, nodes: set<Node>)
    requires size > 0
  {
    forall n :: n in c ==> n in nodes && Slot(n, size) == s
  }

  ghost predicate Represents(nodes: set<Node>, contents: map<Key, Ptr>) {
    && (forall n :: n in nodes ==> n.hashcode == Hash(n.key) && n.key in contents && contents[n.key] == n.val)
    && (forall k :: k in contents ==> exists n :: n in nodes && n.key == k)
    && (forall n, n' :: n in nodes && n' in nodes && n.key == n'.key ==> n == n')
  }

  // ---- what a resize makes of the chains

  /** All nodes, slot by slot, each chain from its head. */
  ghost function Flatten(chains: seq<seq<Node>>): seq<Node> {
    if chains == [] then [] else Flatten(chains[..|chains| - 1]) + chains[|chains| - 1]
  }

  ghost function Filter(t: seq<Node>, s: int, size: int): seq<Node>
    requires size > 0
  {
    if t == [] then []
    else Filter(t[..|t| - 1], s, size) + (if Slot(t[|t| - 1], size) == s then [t[|t| - 1]] else [])
  }

  ghost function Reverse(t: seq<Node>): seq<Node> {
    if t == [] then [] else [t[|t| - 1]] + Reverse(t[..|t| - 1])
  }

  /** The chain of slot s after the nodes t have been pushed one by one. */
  ghost function Pushed(t: seq<Node>, s: int, size: int): seq<Node>
    requires size > 0
  {
    Reverse(Filter(t, s, size))
  }

  lemma PushedStep(t: seq<Node>, n: Node, s: int, size: int)
    requires size > 0
    ensures Pushed(t + [n], s, size) == (if Slot(n, size) == s then [n] else []) + Pushed(t, s, size)
  {
    assert (t + [n])[..|t|] == t;
    var f := Filter(t, s, size);
    assert (f + [n])[..|f|] == f;
    assert f + [] == f;
  }

  lemma {:induction false} FilterMembers(t: seq<Node>, s: int, size: int)
    requires size > 0
    ensures forall n :: n in Filter(t, s, size) <==> n in t && Slot(n, size) == s
    ensures NoDup(t) ==> NoDup(Filter(t, s, size))
  {
    if t != [] {
      var init, n := t[..|t| - 1], t[|t| - 1];
      assert t == init + [n];
      FilterMembers(init, s, size);
      if NoDup(t) {
        assert n !in init;
      }
    }
  }

  lemma {:induction false} ReverseMembers(t: seq<Node>)
    ensures |Reverse(t)| == |t|
    ensures forall i :: 0 <= i < |t| ==> Reverse(t)[i] == t[|t| - 1 - i]
    ensures forall n :: n in Reverse(t) <==> n in t
    ensures NoDup(t) ==> NoDup(Reverse(t))
  {
    if t != [] {
      var init := t[..|t| - 1];
      assert t == init + [t[|t| - 1]];
      ReverseMembers(init);
      forall i | 0 <= i < |t|
        ensures Reverse(t)[i] == t[|t| - 1 - i]
      {
      }
    }
  }

  lemma PushedMembers(t: seq<Node>, s: int, size: int)
    requires size > 0
    ensures forall n :: n in Pushed(t, s, size) <==> n in t && Slot(n, size) == s
    ensures NoDup(t) ==> NoDup(Pushed(t, s, size))
  {
    FilterMembers(t, s, size);
    ReverseMembers(Filter(t, s, size));
  }

  /** The traversal takes the slots in order and each chain from its head. */
  lemma {:induction false} FlattenConcat(a: seq<seq<Node>>, c: seq<Node>, b: seq<seq<Node>>)
    ensures Flatten(a + [c] + b) == Flatten(a) + c + Flatten(b)
    decreases |b|
  {
    hide Flatten;
    if b == [] {
      FlattenAppend(a, c);
      NothingFlattened();
      assert a + [c] + b == a + [c];
    } else {
      var init, last := b[..|b| - 1], b[|b| - 1];
      FlattenConcat(a, c, init);
      FlattenAppend(init, last);
      FlattenAppend(a + [c] + init, last);
      assert b == init + [last] && a + [c] + b == a + [c] + init + [last];
    }
  }

  lemma FlattenAppend(a: seq<seq<Node>>, c: seq<Node>)
    ensures Flatten(a + [c]) == Flatten(a) + c
  {
    assert (a + [c])[..|a|] == a;
  }

  lemma NothingFlattened()
    ensures Flatten([]) == []
  {
  }

  lemma {:induction false} FlattenMembers(chains: seq<seq<Node>>, n: Node)
    ensures n in Flatten(chains) <==> exists s :: 0 <= s < |chains| && n in chains[s]
  {
    if chains != [] {
      var k := |chains| - 1;
      FlattenMembers(chains[..k], n);
      assert chains[..k] + [chains[k]] == chains;
      if n in Flatten(chains[..k]) {
        var s :| 0 <= s < k && n in chains[..k][s];
        assert n in chains[s];
      }
      if s :| 0 <= s < |chains| && n in chains[s] {
        if s < k {
          assert n in chains[..k][s];
        }
      }
    }
  }

  /** Chains of different slots share no node, so the traversal meets each node once. */
  lemma {:induction false} FlattenNoDup(chains: seq<seq<Node>>, size: int, nodes: set<Node>)
    requires size > 0
    requires forall s :: 0 <= s < |chains| ==> InSlot(chains[s], s, size, nodes) && NoDup(chains[s])
    ensures NoDup(Flatten(chains))
  {
    if chains != [] {
      var k := |chains| - 1;
      var init := chains[..k];
      FlattenNoDup(init, size, nodes);
      forall n | n in Flatten(init)
        ensures n !in chains[k]
      {
        FlattenMembers(init, n);
        var s :| 0 <= s < k && n in init[s];
        assert InSlot(chains[s], s, size, nodes) && InSlot(chains[k], k, size, nodes);
      }
      NoDupConcat(Flatten(init), chains[k]);
    }
  }

  lemma NoDupConcat(a: seq<Node>, b: seq<Node>)
    requires NoDup(a) && NoDup(b) && forall n :: n in a ==> n !in b
    ensures NoDup(a + b)
  {
    var c := a + b;
    forall i, j | 0 <= i < j < |c|
      ensures c[i] != c[j]
    {
      if i < |a| <= j {
        assert c[i] in a && c[j] in b;
      }
    }
  }

  /** free_linked_list: the tail first, then the node. */
  method FreeLinkedList(n: Node?, ghost c: seq<Node>)
    requires Linked(n, c) && NoDup(c) && forall m :: m in c ==> m.live
    modifies c`live
    ensures forall m :: m in c ==> !m.live
    decreases |c|
  {
    if n != null {
      assert c[0..] == c;
      LinkedTail(n, c, 0);
      FreeLinkedList(n.next, c[1..]);
      n.Free();
      assert c == [n] + c[1..];
    }
  }

  class HTable {
    var allowResize: bool
    var store: array<Node?>
    var size: int
    /** The nodes of each slot's list, in list order. */
    ghost var chains: seq<seq<Node>>
    /** Every node inserted so far. */
    ghost var nodes: set<Node>
    /** The finite map that the table stands for. */
    ghost var contents: map<Key, Ptr>

    ghost predicate Valid()
      reads this, store, nodes
    {
      && Shape(chains, size, nodes, contents)
      && ListsAre(store, chains, nodes)
      && AllLive(nodes)
    }

    /** htable_init */
    constructor (sz: int, allowResize: bool)
      requires sz >= 0
      ensures Valid() && fresh(store)
      ensures nodes == {} && contents == map[]
      ensures this.allowResize == allowResize
      ensures size > sz && (IsPrime(size) <==> sz >= 1)
      ensures forall k :: sz < k < size ==> !PassesTest(k)
    {
      var n := GetPrime(sz + 1);
      size := n;
      store := new Node?[n](_ => null);
      this.allowResize := allowResize;
      chains := seq(n, _ => []);
      nodes, contents := {}, map[];
    }

    /** The loop that both operations run down a chain: stop at the key, or at the end. */
    method Walk(hcode: int, key: Key) returns (prev: Node?, curr: Node?, collision: nat)
      requires Valid() && hcode == Hash(key)
      ensures curr != null ==> key in contents && curr.val == contents[key]
      ensures curr == null ==>
        var c := chains[hcode % size];
        && key !in contents && collision == |c|
        && prev == (if |c| == 0 then null else c[|c| - 1])
    {
      hide Shape, ListsAre, Hash, Linked;
      ShapeSize(chains, size, nodes, contents);
      var slot := hcode % size;
      ghost var c := chains[slot];
      ListAt(store, chains, nodes, slot);
      prev, curr, collision := null, store[slot], 0;
      while curr != null
        invariant collision <= |c| && curr == At(c, collision)
        invariant prev == if collision == 0 then null else c[collision - 1]
        invariant forall i :: 0 <= i < collision ==> c[i].key != key
        decreases |c| - collision
      {
        NextLink(store[slot], c, collision);
        KeyFound(chains, size, nodes, contents, curr, slot);
        if curr.hashcode == hcode && curr.key == key {
          return;
        }
        prev := curr;
        curr := curr.next;
        collision := collision + 1;
      }
      KeyAbsent(chains, size, nodes, contents, key);
    }

    /** htable_lookup */
    method Lookup(key: Key) returns (val: Ptr)
      requires Valid()
      ensures val == if key in contents then contents[key] else NULL
    {
      var hcode := Hashcode(key);
      var _, curr, _ := Walk(hcode, key);
      return if curr != null then curr.val else NULL;
    }

    /** Push node n on the front of one list of the new array; `nc` says what the lists are. */
    method PushFront(newStore: array<Node?>, slot: int, n: Node, ghost nc: seq<seq<Node>>)
      requires 0 <= slot < newStore.Length == |nc|
      requires forall s :: 0 <= s < |nc| ==> Linked(newStore[s], nc[s]) && n !in nc[s]
      modifies newStore, n`next
      ensures forall s :: 0 <= s < |nc| ==> Linked(newStore[s], nc[slot := [n] + nc[slot]][s])
    {
      if newStore[slot] != null {
        n.next := newStore[slot];
      } else {
        n.next := null;
      }
      newStore[slot] := n;
    }

    /** One node of the old array: take it off its chain and push it in its new slot. */
    method MoveNode(newStore: array<Node?>, n: Node, ghost t: seq<Node>, ghost nc: seq<seq<Node>>)
      returns (ghost nc': seq<seq<Node>>)
      requires newStore.Length == |nc| > 0
      requires forall s :: 0 <= s < |nc| ==> Linked(newStore[s], nc[s]) && n !in nc[s]
      requires forall s :: 0 <= s < |nc| ==> nc[s] == Pushed(t, s, |nc|)
      modifies newStore, n`next
      ensures |nc'| == |nc|
      ensures forall s :: 0 <= s < |nc| ==> Linked(newStore[s], nc'[s])
      ensures forall s :: 0 <= s < |nc| ==> nc'[s] == Pushed(t + [n], s, |nc|)
    {
      hide Pushed, Linked;
      var slot := n.hashcode % newStore.Length;
      LinksPushed(t, n, nc);
      PushFront(newStore, slot, n, nc);
      nc' := nc[slot := [n] + nc[slot]];
    }

    /** One iteration of the inner loop of htable_resize: j nodes of the chain c have been moved. */
    method MoveHead(newStore: array<Node?>, n: Node,
                    ghost c: seq<Node>, ghost j: nat, ghost t: seq<Node>, ghost nc: seq<seq<Node>>)
      returns (curr: Node?, ghost nc': seq<seq<Node>>)
      requires j < |c| && Linked(n, c[j..]) && NoDup(c) && forall m :: m in c ==> m !in t
      requires newStore.Length == |nc| > 0
      requires forall s :: 0 <= s < |nc| ==> Linked(newStore[s], nc[s])
      requires forall s :: 0 <= s < |nc| ==> nc[s] == Pushed(t + c[..j], s, |nc|)
      modifies newStore, c`next
      ensures curr == At(c, j + 1) && Linked(curr, c[j + 1..])
      ensures |nc'| == |nc|
      ensures forall s :: 0 <= s < |nc| ==> Linked(newStore[s], nc'[s])
      ensures forall s :: 0 <= s < |nc| ==> nc'[s] == Pushed(t + c[..j + 1], s, |nc|)
    {
      hide Pushed, NoDup, Slot;
      LinkedTail(n, c, j);
      curr := n.next;
      NotYetPushed(t, c, j, nc);
      nc' := MoveNode(newStore, n, t + c[..j], nc);
      assert t + c[..j] + [n] == t + c[..j + 1];
    }

    /** The inner loop of htable_resize: move the list of slot i into the new array. */
    method MoveChain(newStore: array<Node?>, i: nat, ghost t: seq<Node>, ghost nc: seq<seq<Node>>)
      returns (ghost nc': seq<seq<Node>>)
      requires store.Length == size && i < size == |chains| && newStore != store
      requires newStore.Length == |nc| > 0
      requires forall s :: 0 <= s < |nc| ==> Linked(newStore[s], nc[s]) && nc[s] == Pushed(t, s, |nc|)
      requires Linked(store[i], chains[i]) && NoDup(chains[i]) && forall n :: n in chains[i] ==> n !in t
      modifies newStore, chains[i]`next
      ensures |nc'| == |nc|
      ensures forall s :: 0 <= s < |nc| ==> Linked(newStore[s], nc'[s]) && nc'[s] == Pushed(t + chains[i], s, |nc|)
    {
      hide Pushed, NoDup, Slot, Linked;
      ghost var c := chains[i];
      ghost var j := 0;
      var curr := store[i];
      assert t + c[..0] == t && c[0..] == c;
      FirstLink(curr, c);
      nc' := nc;
      while curr != null
        invariant j <= |c| && curr == At(c, j) && Linked(curr, c[j..])
        invariant |nc'| == newStore.Length
        invariant forall s :: 0 <= s < |nc'| ==> Linked(newStore[s], nc'[s])
        invariant forall s :: 0 <= s < |nc'| ==> nc'[s] == Pushed(t + c[..j], s, |nc'|)
        decreases |c| - j
      {
        curr, nc' := MoveHead(newStore, curr, c, j, t, nc');
        j := j + 1;
      }
      assert t + c[..j] == t + c;
    }

    /** One round of the outer loop of htable_resize. */
    method MoveSlot(newStore: array<Node?>, i: nat, ghost nc: seq<seq<Node>>) returns (ghost nc': seq<seq<Node>>)
      requires store.Length == size && Shape(chains, size, nodes, contents) && i < size && newStore != store
      requires newStore.Length == |nc| > 0
      requires forall k :: i <= k < size ==> Linked(store[k], chains[k])
      requires forall s :: 0 <= s < |nc| ==> Linked(newStore[s], nc[s])
      requires forall s :: 0 <= s < |nc| ==> nc[s] == Pushed(Flatten(chains[..i]), s, |nc|)
      modifies newStore, nodes`next
      ensures |nc'| == |nc|
      ensures forall k :: i < k < size ==> Linked(store[k], chains[k])
      ensures forall s :: 0 <= s < |nc| ==> Linked(newStore[s], nc'[s])
      ensures forall s :: 0 <= s < |nc| ==> nc'[s] == Pushed(Flatten(chains[..i + 1]), s, |nc|)
    {
      hide Pushed, Represents;
      SlotsApart(chains, size, nodes, contents, i);
      assert chains[..i + 1][..i] == chains[..i];
      nc' := MoveChain(newStore, i, Flatten(chains[..i]), nc);
      forall k | i < k < size
        ensures Linked(store[k], chains[k])
      {
        ghost var c := chains[k];
        assert old(Linked(store[k], c));
        forall q | 0 <= q < |c|
          ensures c[q].next == old(c[q].next)
        {
          assert c[q] in chains[k] && c[q] !in chains[i];
        }
      }
    }

    /** The outer loop of htable_resize: move every list into the new, empty array. */
    method Rehash(newStore: array<Node?>) returns (ghost nc: seq<seq<Node>>)
      requires Shape(chains, size, nodes, contents) && ListsAre(store, chains, nodes)
      requires newStore != store && newStore.Length > 0
      requires forall s :: 0 <= s < newStore.Length ==> newStore[s] == null
      modifies newStore, nodes`next
      ensures |nc| == newStore.Length
      ensures forall s :: 0 <= s < |nc| ==> Linked(newStore[s], nc[s])
      ensures forall s :: 0 <= s < |nc| ==> nc[s] == Pushed(Flatten(chains), s, |nc|)
    {
      hide Pushed, Shape, Linked, Flatten, ChainsInNodes;
      ShapeSize(chains, size, nodes, contents);
      nc := seq(newStore.Length, _ => []);
      StartsEmpty(newStore.Length);
      EmptyLinked();
      assert chains[..0] == [];
      var i := 0;
      while i < size
        invariant i <= size && |nc| == newStore.Length
        invariant forall k :: i <= k < size ==> Linked(store[k], chains[k])
        invariant forall s :: 0 <= s < |nc| ==> Linked(newStore[s], nc[s])
        invariant forall s :: 0 <= s < |nc| ==> nc[s] == Pushed(Flatten(chains[..i]), s, |nc|)
      {
        nc := MoveSlot(newStore, i, nc);
        i := i + 1;
      }
      assert chains[..i] == chains;
    }

    /** htable_resize: the same nodes, each chain the reverse of the old traversal restricted to its slot. */
    method Resize()
      requires Valid()
      modifies this, nodes`next
      ensures Valid() && fresh(store)
      ensures nodes == old(nodes) && contents == old(contents) && allowResize == old(allowResize)
      ensures size >= 2 * old(size) > 0 && (old(size) >= 2 ==> size > 2 * old(size))
      ensures PassesTest(size) && forall k :: 2 * old(size) <= k < size ==> !PassesTest(k)
      ensures forall s :: 0 <= s < size ==> chains[s] == Reverse(Filter(Flatten(old(chains)), s, size))
    {
      hide Shape, ListsAre, AllLive, Linked, Pushed, Flatten, Filter, Reverse, Divides;
      ShapeSize(chains, size, nodes, contents);
      var newSize := GetPrime(2 * size);
      var newStore := new Node?[newSize](_ => null);
      ghost var nc := Rehash(newStore);
      Rebuilt(chains, size, nodes, contents, nc, newSize);
      ExplainPushed(Flatten(chains), nc);
      RebuiltListed(newStore, nc, nodes);
      size := newSize;
      store := newStore;
      chains := nc;
    }

    /** Hang n after `prev`, the last node of the list of `slot`, or make it the head. */
    method LinkLast(slot: nat, n: Node, prev: Node?)
      requires store.Length == size == |chains| && slot < size
      requires forall s :: 0 <= s < size ==> Linked(store[s], chains[s]) && n !in chains[s]
      requires NoDup(chains[slot]) && n.next == null
      requires forall s :: 0 <= s < size && s != slot ==> forall m :: m in chains[slot] ==> m !in chains[s]
      requires prev == if |chains[slot]| == 0 then null else chains[slot][|chains[slot]| - 1]
      modifies store, chains[slot]`next
      ensures Linked(store[slot], chains[slot] + [n])
      ensures forall s :: 0 <= s < size && s != slot ==> Linked(store[s], chains[s])
    {
      ghost var c := chains[slot];
      if prev == null {
        store[slot] := n;
      } else {
        prev.next := n;
      }
      forall s | 0 <= s < size && s != slot
        ensures Linked(store[s], chains[s])
      {
        assert old(Linked(store[s], chains[s]));
        forall q | 0 <= q < |chains[s]|
          ensures chains[s][q].next == old(chains[s][q].next)
        {
          assert chains[s][q] in chains[s];
        }
      }
    }

    /** Allocate the node and link it in. */
    method NewLast(hcode: int, key: Key, val: Ptr, slot: nat, prev: Node?) returns (n: Node)
      requires Valid() && slot < size
      requires prev == if |chains[slot]| == 0 then null else chains[slot][|chains[slot]| - 1]
      modifies store, nodes`next
      ensures fresh(n) && n.live && n.hashcode == hcode && n.key == key && n.val == val
      ensures n !in nodes && ListsAre(store, Appended(chains, slot, n), nodes + {n}) && AllLive(nodes + {n})
    {
      hide Shape, Linked, ListsAre, ChainsInNodes, NoDup, Appended;
      ShapeSize(chains, size, nodes, contents);
      OtherSlotsApart(chains, size, nodes, contents, slot);
      n := new Node(hcode, key, val);
      NotListed(store, chains, nodes, n);
      LinkLast(slot, n, prev);
      AppendedListed(store, chains, nodes, slot, n);
    }

    /** The insertion itself. */
    method Append(hcode: int, key: Key, val: Ptr, slot: nat, prev: Node?) returns (n: Node)
      requires Valid() && hcode == Hash(key) && key !in contents && slot == hcode % size
      requires prev == if |chains[slot]| == 0 then null else chains[slot][|chains[slot]| - 1]
      modifies this, store, nodes`next
      ensures Valid()
      ensures store == old(store) && size == old(size) && allowResize == old(allowResize)
      ensures contents == old(contents)[key := val]
      ensures fresh(n) && nodes == old(nodes) + {n}
      ensures slot < |old(chains)| && chains == Appended(old(chains), slot, n)
    {
      hide Shape, ListsAre, AllLive, Hash, Appended;
      ShapeSize(chains, size, nodes, contents);
      n := NewLast(hcode, key, val, slot, prev);
      Note(n, slot);
    }

    /** htable_destroy: every node ever inserted is freed, and no other. Freeing demands a live node,
        so no node is freed twice. */
    method Destroy()
      requires Valid()
      modifies nodes`live
      ensures forall n :: n in nodes ==> !n.live
    {
      hide Slot, Shape, NoDup, Linked, ListsAre;
      ShapeSize(chains, size, nodes, contents);
      SlotRange(chains, size, nodes, contents);
      var i := 0;
      while i < size
        invariant i <= size && ListsAre(store, chains, nodes)
        invariant forall m :: m in nodes ==> (m.live <==> i <= Slot(m, size))
      {
        SlotMembers(chains, size, nodes, contents, i);
        ListAt(store, chains, nodes, i);
        FreeLinkedList(store[i], chains[i]);
        i := i + 1;
      }
    }

    /** The new node enters the table's abstract state. */
    ghost method Note(n: Node, slot: nat)
      requires Shape(chains, size, nodes, contents) && n !in nodes && slot < |chains|
      requires slot == Slot(n, size) && n.hashcode == Hash(n.key) && n.key !in contents
      requires ListsAre(store, Appended(chains, slot, n), nodes + {n}) && AllLive(nodes + {n})
      modifies this`chains, this`nodes, this`contents
      ensures Valid()
      ensures chains == Appended(old(chains), slot, n)
      ensures nodes == old(nodes) + {n} && contents == old(contents)[n.key := n.val]
    {
      hide Shape, ListsAre, AllLive, Hash, Appended;
      ShapeAppended(chains, size, nodes, contents, slot, n);
      chains, nodes, contents := Appended(chains, slot, n), nodes + {n}, contents[n.key := n.val];
    }

    /** htable_insert: 1 and no change if the key is there, else 0 and the pair hangs at the end of its
        chain; a chain that then exceeds MAX_COLLISION nodes makes the table grow, if it may. */
    method Insert(key: Key, val: Ptr) returns (r: int, ghost added: Node?)
      requires Valid()
      modifies this, store, nodes`next
      ensures Valid() && (store == old(store) || fresh(store)) && allowResize == old(allowResize)
      ensures r == if key in old(contents) then 1 else 0
      ensures r == 1 ==> added == null && unchanged(this) && unchanged(store) && unchanged(nodes)
      ensures r == 0 ==> contents == old(contents)[key := val]
      ensures r == 0 ==> added != null && fresh(added) && nodes == old(nodes) + {added}
      ensures r == 0 ==>
        var slot := Hash(key) % old(size);
        var appended := old(chains)[slot := old(chains)[slot] + [added]];
        if allowResize && |appended[slot]| > 10 then
          && size >= 2 * old(size) > 0 && (old(size) >= 2 ==> size > 2 * old(size))
          && forall s :: 0 <= s < size ==> chains[s] == Reverse(Filter(Flatten(appended), s, size))
        else
          size == old(size) && chains == appended
      ensures r == 0 && allowResize ==> size > old(size) || |chains[Hash(key) % size]| <= 10
    {
      hide Shape, ListsAre, AllLive, Flatten, Filter, Reverse, Divides;
      ShapeSize(chains, size, nodes, contents);
      var hcode := Hashcode(key);
      var slot := hcode % size;
      var prev, curr, collision := Walk(hcode, key);
      if curr != null {
        return 1, null;
      }
      var n := Append(hcode, key, val, slot, prev);
      if allowResize && collision >= MAX_COLLISION {
        Resize();
      }
      return 0, n;
    }
  }

  /** The chains with node n at the end of the given slot. */
  ghost function Appended(chains: seq<seq<Node>>, slot: int, n: Node): seq<seq<Node>>
    requires 0 <= slot < |chains|
  {
    chains[slot := chains[slot] + [n]]
  }

  /** A node of a chain stands for its pair. */
  lemma KeyFound(chains: seq<seq<Node>>, size: int, nodes: set<Node>, contents: map<Key, Ptr>, n: Node, slot: int)
    requires Shape(chains, size, nodes, contents) && 0 <= slot < size && n in chains[slot]
    ensures n.hashcode == Hash(n.key) && n.key in contents && contents[n.key] == n.val
  {
    hide Hash;
    assert InSlot(chains[slot], slot, size, nodes);
  }

  /** A key that is not in the chain of its slot is not in the table. */
  lemma KeyAbsent(chains: seq<seq<Node>>, size: int, nodes: set<Node>, contents: map<Key, Ptr>, key: Key)
    requires Shape(chains, size, nodes, contents)
    requires forall n :: n in chains[Hash(key) % size] ==> n.key != key
    ensures key !in contents
  {
    hide Hash;
    forall n | n in nodes
      ensures n.key != key
    {
      assert n in chains[Slot(n, size)];
    }
  }

  lemma FirstLink(head: Node?, c: seq<Node>)
    requires Linked(head, c)
    ensures head == At(c, 0)
  {
  }

  lemma ListAt(store: array<Node?>, chains: seq<seq<Node>>, nodes: set<Node>, s: int)
    requires ListsAre(store, chains, nodes) && 0 <= s < |chains|
    ensures s < store.Length && Linked(store[s], chains[s]) && store[s] == At(chains[s], 0)
  {
  }

  lemma NextLink(head: Node?, c: seq<Node>, k: nat)
    requires Linked(head, c) && k < |c|
    ensures c[k].next == At(c, k + 1)
  {
  }

  /** A node that was never inserted is in no list. */
  lemma NotListed(store: array<Node?>, chains: seq<seq<Node>>, nodes: set<Node>, n: Node)
    requires ListsAre(store, chains, nodes) && n !in nodes
    ensures store.Length == |chains| && ChainsInNodes(chains, nodes)
    ensures forall s :: 0 <= s < |chains| ==> Linked(store[s], chains[s]) && n !in chains[s]
  {
    hide Linked;
  }

  lemma AppendedListed(store: array<Node?>, chains: seq<seq<Node>>, nodes: set<Node>, slot: nat, n: Node)
    requires slot < |chains| == store.Length && ChainsInNodes(chains, nodes)
    requires Linked(store[slot], chains[slot] + [n])
    requires forall s :: 0 <= s < |chains| && s != slot ==> Linked(store[s], chains[s])
    ensures ListsAre(store, Appended(chains, slot, n), nodes + {n})
  {
    hide Linked;
  }

  lemma OtherSlotsApart(chains: seq<seq<Node>>, size: int, nodes: set<Node>, contents: map<Key, Ptr>, slot: nat)
    requires Shape(chains, size, nodes, contents) && slot < size
    ensures NoDup(chains[slot])
    ensures forall n :: n in chains[slot] ==> n in nodes
    ensures forall s :: 0 <= s < size && s != slot ==> forall m :: m in chains[slot] ==> m !in chains[s]
  {
    assert InSlot(chains[slot], slot, size, nodes);
    forall s | 0 <= s < size && s != slot
      ensures forall m :: m in chains[slot] ==> m !in chains[s]
    {
      assert InSlot(chains[s], s, size, nodes);
    }
  }

  lemma SlotRange(chains: seq<seq<Node>>, size: int, nodes: set<Node>, contents: map<Key, Ptr>)
    requires Shape(chains, size, nodes, contents)
    ensures forall n :: n in nodes ==> 0 <= Slot(n, size) < size
  {
  }

  lemma SlotMembers(chains: seq<seq<Node>>, size: int, nodes: set<Node>, contents: map<Key, Ptr>, i: nat)
    requires Shape(chains, size, nodes, contents) && i < size
    ensures NoDup(chains[i])
    ensures forall n :: n in chains[i] <==> n in nodes && Slot(n, size) == i
  {
    assert InSlot(chains[i], i, size, nodes);
  }

  /** A node with a new key at the end of its slot's chain adds exactly that pair. */
  lemma ShapeAppended(chains: seq<seq<Node>>, size: int, nodes: set<Node>, contents: map<Key, Ptr>,
                      slot: int, n: Node)
    requires Shape(chains, size, nodes, contents) && n !in nodes
    requires n.hashcode == Hash(n.key) && n.key !in contents && slot == Slot(n, size)
    ensures Shape(Appended(chains, slot, n), size, nodes + {n}, contents[n.key := n.val])
  {
    hide Hash, Represents;
    var chains', nodes' := Appended(chains, slot, n), nodes + {n};
    forall s | 0 <= s < size
      ensures InSlot(chains'[s], s, size, nodes') && NoDup(chains'[s])
    {
      assert InSlot(chains[s], s, size, nodes) && NoDup(chains[s]);
    }
    RepresentsAppended(nodes, contents, n);
  }

  lemma RepresentsAppended(nodes: set<Node>, contents: map<Key, Ptr>, n: Node)
    requires Represents(nodes, contents) && n.hashcode == Hash(n.key) && n.key !in contents
    ensures Represents(nodes + {n}, contents[n.key := n.val])
  {
    hide Hash;
    var nodes', contents' := nodes + {n}, contents[n.key := n.val];
    assert n in nodes';
    forall k | k in contents'
      ensures exists m :: m in nodes' && m.key == k
    {
      if k != n.key {
        var m :| m in nodes && m.key == k;
        assert m in nodes';
      }
    }
  }

  lemma EmptyLinked()
    ensures Linked(null, [])
  {
  }

  lemma ShapeSize(chains: seq<seq<Node>>, size: int, nodes: set<Node>, contents: map<Key, Ptr>)
    requires Shape(chains, size, nodes, contents)
    ensures 0 < size == |chains|
  {
  }

  lemma StartsEmpty(newSize: int)
    requires newSize > 0
    ensures forall s :: 0 <= s < newSize ==> Pushed([], s, newSize) == []
    ensures Flatten([]) == []
  {
  }

  lemma ExplainPushed(t: seq<Node>, nc: seq<seq<Node>>)
    requires |nc| > 0 && forall s :: 0 <= s < |nc| ==> nc[s] == Pushed(t, s, |nc|)
    ensures forall s :: 0 <= s < |nc| ==> nc[s] == Reverse(Filter(t, s, |nc|))
  {
  }

  /** The chain of slot i shares no node with the chains before it or after it. */
  lemma SlotsApart(chains: seq<seq<Node>>, size: int, nodes: set<Node>, contents: map<Key, Ptr>, i: nat)
    requires Shape(chains, size, nodes, contents) && i < size
    ensures NoDup(chains[i])
    ensures forall n :: n in chains[i] ==> n in nodes && n !in Flatten(chains[..i])
    ensures forall k :: i < k < size ==> forall n :: n in chains[i] ==> n !in chains[k]
  {
    assert InSlot(chains[i], i, size, nodes);
    forall n | n in chains[i]
      ensures n !in Flatten(chains[..i])
    {
      FlattenMembers(chains[..i], n);
      forall s | 0 <= s < i
        ensures n !in chains[..i][s]
      {
        assert InSlot(chains[s], s, size, nodes);
      }
    }
    forall k | i < k < size
      ensures forall n :: n in chains[i] ==> n !in chains[k]
    {
      assert InSlot(chains[k], k, size, nodes);
    }
  }

  /** The pushed chains are again a table of the same nodes and the same map. */
  lemma Rebuilt(chains: seq<seq<Node>>, size: int, nodes: set<Node>, contents: map<Key, Ptr>,
                nc: seq<seq<Node>>, newSize: int)
    requires Shape(chains, size, nodes, contents) && 0 < newSize == |nc|
    requires forall s :: 0 <= s < newSize ==> nc[s] == Pushed(Flatten(chains), s, newSize)
    ensures Shape(nc, newSize, nodes, contents) && ChainsInNodes(nc, nodes)
  {
    hide Represents, Pushed;
    var t := Flatten(chains);
    FlattenNoDup(chains, size, nodes);
    forall n | n in t
      ensures n in nodes
    {
      FlattenMembers(chains, n);
      var s :| 0 <= s < size && n in chains[s];
      assert InSlot(chains[s], s, size, nodes);
    }
    forall s | 0 <= s < newSize
      ensures InSlot(nc[s], s, newSize, nodes) && NoDup(nc[s])
    {
      PushedMembers(t, s, newSize);
    }
    forall n | n in nodes
      ensures n in nc[Slot(n, newSize)]
    {
      FlattenMembers(chains, n);
      assert n in chains[Slot(n, size)];
      PushedMembers(t, Slot(n, newSize), newSize);
    }
  }

  lemma RebuiltListed(store: array<Node?>, chains: seq<seq<Node>>, nodes: set<Node>)
    requires store.Length == |chains| && ChainsInNodes(chains, nodes)
    requires forall s :: 0 <= s < |chains| ==> Linked(store[s], chains[s])
    ensures ListsAre(store, chains, nodes)
  {
    hide Linked;
  }

  lemma LinkedTail(n: Node, c: seq<Node>, j: nat)
    requires j < |c| && Linked(n, c[j..]) && NoDup(c)
    ensures n !in c[j + 1..]
    ensures n == c[j] && n.next == At(c, j + 1)
    ensures Linked(n.next, c[j + 1..])
  {
    var d, e := c[j..], c[j + 1..];
    forall i | 0 <= i < |e|
      ensures e[i].next == At(e, i + 1)
    {
      assert e[i] == d[i + 1] && At(e, i + 1) == At(d, i + 2);
    }
  }

  /** The next node of the chain is in none of the new lists. */
  lemma NotYetPushed(t: seq<Node>, c: seq<Node>, j: nat, nc: seq<seq<Node>>)
    requires j < |c| && NoDup(c) && (forall n :: n in c ==> n !in t) && |nc| > 0
    requires forall s :: 0 <= s < |nc| ==> nc[s] == Pushed(t + c[..j], s, |nc|)
    ensures forall s :: 0 <= s < |nc| ==> c[j] !in nc[s]
  {
    forall s | 0 <= s < |nc|
      ensures c[j] !in nc[s]
    {
      PushedMembers(t + c[..j], s, |nc|);
    }
  }

  lemma LinksPushed(t: seq<Node>, n: Node, nc: seq<seq<Node>>)
    requires |nc| > 0
    requires forall s :: 0 <= s < |nc| ==> nc[s] == Pushed(t, s, |nc|)
    ensures var slot := Slot(n, |nc|);
            0 <= slot < |nc| &&
            forall s :: 0 <= s < |nc| ==> nc[slot := [n] + nc[slot]][s] == Pushed(t + [n], s, |nc|)
  {
    hide Pushed;
    forall s | 0 <= s < |nc|
      ensures nc[Slot(n, |nc|) := [n] + nc[Slot(n, |nc|)]][s] == Pushed(t + [n], s, |nc|)
    {
      PushedStep(t, n, s, |nc|);
      assert [] + nc[s] == nc[s];
    }
  }

  // ---- every run of the table, against a finite map in which the first insertion wins

  datatype TableOp = Put(key: Key, val: Ptr) | Get(key: Key)

  /** An insertion adds its pair unless the key is there. */
  function ApplyOp(m: map<Key, Ptr>, op: TableOp): map<Key, Ptr> {
    match op
    case Put(k, v) => if k in m then m else m[k := v]
    case Get(_) => m
  }

  /** The map after the first n operations. */
  function MapAfter(ops: seq<TableOp>, n: nat): map<Key, Ptr>
    requires n <= |ops|
  {
    if n == 0 then map[]
    else
      ApplyOp(MapAfter(ops, n - 1), ops[n - 1])
  }

  /** What operation i returns. */
  function Answer(ops: seq<TableOp>, i: nat): int
    requires i < |ops|
  {
    AnswerOf(MapAfter(ops, i), ops[i])
  }

  function AnswerOf(m: map<Key, Ptr>, op: TableOp): int {
    match op
    case Put(k, _) => if k in m then 1 else 0
    case Get(k) => if k in m then m[k] else NULL
  }

  /** Operation i is the first insertion of key k. */
  predicate IsFirstPut(ops: seq<TableOp>, i: nat, k: Key)
    requires i < |ops|
  {
    && ops[i].Put? && ops[i].key == k
    && forall j :: 0 <= j < i ==> !(ops[j].Put? && ops[j].key == k)
  }

  /** The map holds exactly the keys inserted so far, each with the value of its first insertion. */
  lemma {:induction false} FirstInsertWins(ops: seq<TableOp>, n: nat, k: Key)
    requires n <= |ops|
    ensures k in MapAfter(ops, n) <==> exists i :: 0 <= i < n && ops[i].Put? && ops[i].key == k
    ensures forall i :: 0 <= i < n && IsFirstPut(ops, i, k) ==>
              k in MapAfter(ops, n) && MapAfter(ops, n)[k] == ops[i].val
  {
    if n > 0 {
      FirstInsertWins(ops, n - 1, k);
    }
  }

  /** What operation i answers, from the operations alone: an insertion says whether its key was inserted
      before; a lookup gives the value of the first insertion of its key, or NULL. */
  lemma AnswerMeaning(ops: seq<TableOp>, i: nat)
    requires i < |ops|
    ensures ops[i].Put? ==>
              Answer(ops, i) == if exists j :: 0 <= j < i && ops[j].Put? && ops[j].key == ops[i].key then 1 else 0
    ensures ops[i].Get? && (forall j :: 0 <= j < i && ops[j].Put? ==> ops[j].key != ops[i].key) ==>
              Answer(ops, i) == 0
    ensures ops[i].Get? ==>
              forall j :: 0 <= j < i && ops[j].Put? && ops[j].key == ops[i].key
                          && (forall h :: 0 <= h < j && ops[h].Put? ==> ops[h].key != ops[i].key) ==>
                Answer(ops, i) == ops[j].val
  {
    hide MapAfter, IsFirstPut;
    FirstInsertWins(ops, i, ops[i].key);
    forall j | 0 <= j < i && ops[i].Get? && ops[j].Put? && ops[j].key == ops[i].key
               && forall h :: 0 <= h < j && ops[h].Put? ==> ops[h].key != ops[i].key
      ensures Answer(ops, i) == ops[j].val
    {
      FirstValue(ops, i, j);
    }
  }

  lemma FirstValue(ops: seq<TableOp>, i: nat, j: nat)
    requires j < i < |ops| && ops[i].Get? && ops[j].Put? && ops[j].key == ops[i].key
    requires forall h :: 0 <= h < j && ops[h].Put? ==> ops[h].key != ops[i].key
    ensures Answer(ops, i) == ops[j].val
  {
    hide MapAfter;
    FirstInsertWins(ops, i, ops[i].key);
    assert IsFirstPut(ops, j, ops[i].key);
  }

  /** One operation on the real table. */
  method RunOp(ht: HTable, op: TableOp) returns (a: int)
    requires ht.Valid()
    modifies ht, ht.store, ht.nodes`next
    ensures ht.Valid() && (ht.store == old(ht.store) || fresh(ht.store)) && fresh(ht.nodes - old(ht.nodes))
    ensures ht.contents == ApplyOp(old(ht.contents), op) && a == AnswerOf(old(ht.contents), op)
  {
    hide Shape, ListsAre, AllLive, Appended, Flatten, Filter, Reverse, Hash;
    match op {
      case Put(key, val) =>
        var r, _ := ht.Insert(key, val);
        a := r;
      case Get(key) => a := ht.Lookup(key);
    }
  }

  /** Any sequence of operations on a new table, resized wherever the code decides to, answers like
      the map: neither the initial size nor allow_resize can be observed. */
  method Replay(ops: seq<TableOp>, sz: int, allowResize: bool) returns (answers: seq<int>)
    requires sz >= 0
    ensures |answers| == |ops|
    ensures forall i :: 0 <= i < |ops| && ops[i].Put? ==>
              answers[i] == if exists j :: 0 <= j < i && ops[j].Put? && ops[j].key == ops[i].key then 1 else 0
    ensures forall i :: 0 <= i < |ops| && ops[i].Get? ==>
              (forall j :: 0 <= j < i && ops[j].Put? ==> ops[j].key != ops[i].key) ==> answers[i] == 0
    ensures forall i, j :: 0 <= j < i < |ops| && ops[i].Get? && ops[j].Put? && ops[j].key == ops[i].key
                           && (forall h :: 0 <= h < j && ops[h].Put? ==> ops[h].key != ops[i].key) ==>
              answers[i] == ops[j].val
  {
    hide Shape, ListsAre, AllLive, ApplyOp, AnswerOf;
    var ht := new HTable(sz, allowResize);
    answers := [];
    var i := 0;
    while i < |ops|
      invariant i <= |ops| && |answers| == i
      invariant ht.Valid() && fresh(ht) && fresh(ht.store) && fresh(ht.nodes)
      invariant ht.contents == MapAfter(ops, i)
      invariant forall j :: 0 <= j < i ==> answers[j] == Answer(ops, j)
    {
      var a := RunOp(ht, ops[i]);
      answers := answers + [a];
      i := i + 1;
    }
    forall k | 0 <= k < |ops| {
      AnswerMeaning(ops, k);
    }
  }
}
