/**
  The allocator state as the C program keeps it: headers addressed by
  identity, each with an explicit `next` link, anchored by `head` and
  `tail`. The operations walk the links exactly as the C loops do and are
  proved to implement the chain-level functions. `Malloc` implements the
  guarded `Chains.Malloc`, so unlike the C code it refuses, before mapping,
  a request whose header-plus-payload length would wrap.
 */
module Linked {
  import opened Header
  import opened Chains

  datatype Node = Node(size: Size, status: nat, next: Ptr)

  /**
    Every header ever written, by address. Headers detached from the chain
    stay here, unreachable, as their memory does in the C program.
   */
  datatype Heap = Heap(nodes: map<Id, Node>, head: Ptr, tail: Ptr)

  /** What `next` of the `i`-th header of `c` must be. */
  function Successor(c: Chain, i: nat): Ptr
    requires i < |c|
  {
    if i + 1 < |c| then Block(c[i + 1].id) else Null
  }

  /** `h` is the linked form of `c`: following `next` from `head` visits exactly `c`. */
  ghost predicate Represents(h: Heap, c: Chain) {
    && DistinctIds(c)
    && h.head == HeadOf(c)
    && h.tail == TailOf(c)
    && forall i :: 0 <= i < |c| ==>
         c[i].id in h.nodes && h.nodes[c[i].id] == Node(c[i].size, c[i].status, Successor(c, i))
  }

  /** The pointer reached from `p` after following `k` links. */
  ghost function Follow(h: Heap, p: Ptr, k: nat): Ptr
    decreases k
  {
    if k == 0 || p.Null? || p.id !in h.nodes then p
    else Follow(h, h.nodes[p.id].next, k - 1)
  }

  lemma {:induction false} FollowWalksChain(h: Heap, c: Chain, i: nat, k: nat)
    requires Represents(h, c)
    requires i < |c| && i + k <= |c|
    ensures Follow(h, Block(c[i].id), k) == if i + k < |c| then Block(c[i + k].id) else Null
    decreases k
  {
    if k > 0 {
      if i + 1 < |c| {
        FollowWalksChain(h, c, i + 1, k - 1);
      }
    }
  }

  /**
    The shape invariants of the C state: `head` is null exactly when
    `tail` is, they coincide exactly on a chain of at most one header, the
    tail's `next` is null, and the tail is the last header reached from
    `head`.
   */
  lemma ShapeInvariants(h: Heap, c: Chain)
    requires Represents(h, c)
    ensures h.head == Null <==> h.tail == Null
    ensures h.head == h.tail <==> |c| <= 1
    ensures h.tail.Block? ==> h.tail.id in h.nodes && h.nodes[h.tail.id].next == Null
    ensures |c| > 0 ==> Follow(h, h.head, |c| - 1) == h.tail
    ensures Follow(h, h.head, |c|) == Null
  {
    HeadIsTailIffShort(c);
    if |c| > 0 {
      FollowWalksChain(h, c, 0, |c| - 1);
      FollowWalksChain(h, c, 0, |c|);
    }
  }

  /** Writing the status of the `k`-th header keeps the heap the linked form of the updated chain. */
  lemma SetStatusRepresents(h: Heap, c: Chain, k: nat, st: nat)
    requires Represents(h, c) && k < |c|
    ensures Represents(h.(nodes := h.nodes[c[k].id := h.nodes[c[k].id].(status := st)]),
                       c[k := c[k].(status := st)])
  {
    var h' := h.(nodes := h.nodes[c[k].id := h.nodes[c[k].id].(status := st)]);
    var c' := c[k := c[k].(status := st)];
    forall i | 0 <= i < |c'|
      ensures c'[i].id in h'.nodes && h'.nodes[c'[i].id] == Node(c'[i].size, c'[i].status, Successor(c', i))
    {
      assert Successor(c', i) == Successor(c, i);
      if i != k {
        assert c[i].id != c[k].id;
      }
    }
  }

  /** The heap `malloc` builds on its append path is the linked form of the extended chain. */
  lemma AppendRepresents(h: Heap, c: Chain, addr: Id, n: Size)
    requires Represents(h, c) && !Contains(c, addr)
    ensures
      var nodes := h.nodes[addr := Node(n, InUse, Null)];
      var nodes' := if h.tail == Null then nodes else nodes[h.tail.id := nodes[h.tail.id].(next := Block(addr))];
      var head := if h.head == Null then Block(addr) else h.head;
      Represents(Heap(nodes', head, Block(addr)), c + [Header(addr, n, InUse)])
  {
    var nodes := h.nodes[addr := Node(n, InUse, Null)];
    var nodes' := if h.tail == Null then nodes else nodes[h.tail.id := nodes[h.tail.id].(next := Block(addr))];
    var head := if h.head == Null then Block(addr) else h.head;
    var h' := Heap(nodes', head, Block(addr));
    var c' := c + [Header(addr, n, InUse)];
    forall i | 0 <= i < |c'|
      ensures c'[i].id in h'.nodes && h'.nodes[c'[i].id] == Node(c'[i].size, c'[i].status, Successor(c', i))
    {
      if i < |c| {
        assert c[i].id != addr;
        if i < |c| - 1 {
          assert c[i].id != c[|c| - 1].id;
        }
      }
    }
    forall i, j | 0 <= i < j < |c'|
      ensures c'[i].id != c'[j].id
    {
      if j == |c| {
        assert c[i].id != addr;
      }
    }
  }

  /** Cutting the `next` link of the second-to-last header leaves the linked form of the chain without its tail. */
  lemma DetachRepresents(h: Heap, c: Chain)
    requires Represents(h, c) && |c| >= 2
    ensures
      var p := c[|c| - 2].id;
      Represents(Heap(h.nodes[p := h.nodes[p].(next := Null)], h.head, Block(p)), c[..|c| - 1])
  {
    var p := c[|c| - 2].id;
    var h' := Heap(h.nodes[p := h.nodes[p].(next := Null)], h.head, Block(p));
    var c' := c[..|c| - 1];
    forall j | 0 <= j < |c'|
      ensures c'[j].id in h'.nodes && h'.nodes[c'[j].id] == Node(c'[j].size, c'[j].status, Successor(c', j))
    {
      if j < |c| - 2 {
        assert c[j].id != p;
      }
    }
  }

  /** `getFreeBlock`: walk from `head` until a header is free and large enough. */
  method GetFreeBlock(h: Heap, s: Size, ghost c: Chain) returns (r: Ptr)
    requires Represents(h, c)
    ensures r == Chains.GetFreeBlock(c, s)
  {
    var current := h.head;
    ghost var i := 0;
    while current != Null
      invariant 0 <= i <= |c|
      invariant current == if i < |c| then Block(c[i].id) else Null
      invariant forall j :: 0 <= j < i ==> !Fits(c[j], s)
      decreases |c| - i
    {
      var node := h.nodes[current.id];
      if node.status != 0 && node.size >= s {
        assert Fits(c[i], s);
        assert FirstFit(c, s) == i;
        return current;
      }
      current := node.next;
      i := i + 1;
    }
    assert FirstFit(c, s) == |c|;
    return Null;
  }

  /**
    `malloc`: reuse the first fit by flipping its status, or append a new
    header at the tail of a freshly mapped region. The length guard of
    `Chains.Malloc` is applied before mapping.
   */
  method Malloc(h: Heap, n: Size, m: Mapping, ghost c: Chain) returns (h': Heap, r: Ptr)
    requires Represents(h, c)
    requires m.Mapped? ==> !Contains(c, m.addr)
    ensures Represents(h', Chains.Malloc(c, n, m).chain)
    ensures r == Chains.Malloc(c, n, m).ret
  {
    if n == 0 {
      return h, Null;
    }
    var found := GetFreeBlock(h, n, c);
    if found.Block? {
      ghost var k := FirstFit(c, n);
      assert Chains.Malloc(c, n, m) == Allocation(c[k := c[k].(status := InUse)], found);
      SetStatusRepresents(h, c, k, InUse);
      var node := h.nodes[found.id];
      h' := h.(nodes := h.nodes[found.id := node.(status := InUse)]);
      return h', found;
    }
    if n > MaxRequest || m.MapFailed? {
      return h, Null;
    }
    var addr := m.addr;
    var nodes := h.nodes[addr := Node(n, InUse, Null)];
    var head := h.head;
    if head == Null {
      head := Block(addr);
    }
    if h.tail != Null {
      nodes := nodes[h.tail.id := nodes[h.tail.id].(next := Block(addr))];
    }
    AppendRepresents(h, c, addr, n);
    assert Chains.Malloc(c, n, m) == Allocation(c + [Header(addr, n, InUse)], Block(addr));
    h' := Heap(nodes, head, Block(addr));
    r := Block(addr);
  }

  /**
    `free`: ignore null; at the top of the mapped range detach the current
    tail by scanning from `head` for the header whose `next` is `tail`;
    otherwise flag the block reusable. `p` must be a pointer `malloc`
    returned, so that its header can be read.
   */
  method Free(h: Heap, p: Ptr, atTop: bool, ghost c: Chain) returns (h': Heap)
    requires Represents(h, c)
    requires p.Block? ==> p.id in h.nodes
    ensures Represents(h', Chains.Free(c, p, atTop))
  {
    if p == Null {
      return h;
    }
    if atTop {
      HeadIsTailIffShort(c);
      if h.head == h.tail {
        return Heap(h.nodes, Null, Null);
      }
      var nodes := h.nodes;
      var tail := h.tail;
      var current := h.head;
      ghost var i := 0;
      ghost var last := |c| - 1;
      while current != Null
        invariant 0 <= i <= last
        invariant i < last ==> nodes == h.nodes && tail == h.tail && current == Block(c[i].id)
        invariant i == last ==>
          && current == Null
          && nodes == h.nodes[c[last - 1].id := h.nodes[c[last - 1].id].(next := Null)]
          && tail == Block(c[last - 1].id)
        decreases last - i
      {
        assert i + 1 < last ==> c[i + 1].id != c[last].id;
        if nodes[current.id].next == tail {
          nodes := nodes[current.id := nodes[current.id].(next := Null)];
          tail := current;
        }
        current := nodes[current.id].next;
        i := i + 1;
      }
      DetachRepresents(h, c);
      return Heap(nodes, h.head, tail);
    }
    ghost var k := Locate(c, p.id);
    if k < |c| {
      SetStatusRepresents(h, c, k, Reusable);
    } else {
      forall j | 0 <= j < |c|
        ensures h.nodes[p.id := h.nodes[p.id].(status := Reusable)][c[j].id] == h.nodes[c[j].id]
      {
        assert c[j].id != p.id;
      }
    }
    h' := h.(nodes := h.nodes[p.id := h.nodes[p.id].(status := Reusable)]);
  }
}
