/**
  Properties that relate several calls of the chain operations: the
  invariants every operation keeps, the ways a chain may change shape,
  the operations that undo each other, and the reuse and release
  scenarios.
 */
module ChainProps {
  import opened Header
  import opened Chains

  /** Every header that survives a step keeps the size it was created with. */
  predicate SizesKept(c: Chain, c': Chain) {
    forall i, j :: 0 <= i < |c| && 0 <= j < |c'| && c[i].id == c'[j].id ==> c[i].size == c'[j].size
  }

  function Ids(c: Chain): (r: seq<Id>)
    ensures |r| == |c|
    ensures forall i :: 0 <= i < |c| ==> r[i] == c[i].id
  {
    if |c| == 0 then [] else [c[0].id] + Ids(c[1..])
  }

  /** `c'` is `c` with exactly one header appended after its tail. */
  predicate GrowsAtTail(c: Chain, c': Chain) {
    |c'| == |c| + 1 && Ids(c')[..|c|] == Ids(c)
  }

  /** `c'` is `c` without its tail (both empty when `c` is empty, as detaching from an empty chain leaves it empty). */
  predicate ShrinksAtTail(c: Chain, c': Chain) {
    if |c| == 0 then |c'| == 0 else Ids(c') == Ids(c)[..|c| - 1]
  }

  /** The address a successful mapping returns is not a live header. */
  predicate FreshMapping(c: Chain, m: Mapping) {
    m.Mapped? ==> !Contains(c, m.addr)
  }

  /** A step that only rewrites statuses, to a value the allocator writes, keeps a chain valid and its shape. */
  lemma StatusChangeKeepsInvariants(c: Chain, c': Chain, id: Id, st: nat)
    requires Valid(c)
    requires OnlyStatusChanged(c, c', id, st)
    requires st == InUse || st == Reusable
    ensures Valid(c')
    ensures SizesKept(c, c')
    ensures Ids(c') == Ids(c)
  {
    assert Ids(c') == Ids(c);
    forall i | 0 <= i < |c|
      ensures WellFormed(c'[i])
    {
      assert c'[i] != c[i] ==> c'[i].status == st;
    }
  }

  /** Appending a well-formed header with a fresh id keeps a chain valid and grows it at the tail. */
  lemma AppendKeepsInvariants(c: Chain, h: Header)
    requires Valid(c)
    requires WellFormed(h) && !Contains(c, h.id)
    ensures Valid(c + [h])
    ensures SizesKept(c, c + [h])
    ensures GrowsAtTail(c, c + [h])
  {
    var c' := c + [h];
    assert Ids(c')[..|c|] == Ids(c);
    forall i, j | 0 <= i < j < |c'|
      ensures c'[i].id != c'[j].id
    {
      if j == |c| {
        assert c[i].id != h.id;
      }
    }
  }

  lemma MallocKeepsInvariants(c: Chain, n: Size, m: Mapping)
    requires Valid(c)
    requires FreshMapping(c, m)
    ensures Valid(Malloc(c, n, m).chain)
    ensures SizesKept(c, Malloc(c, n, m).chain)
    ensures Ids(Malloc(c, n, m).chain) == Ids(c) || GrowsAtTail(c, Malloc(c, n, m).chain)
  {
    var a := Malloc(c, n, m);
    if a.ret.Null? {
      assert a.chain == c;
    } else if GetFreeBlock(c, n).Block? {
      StatusChangeKeepsInvariants(c, a.chain, a.ret.id, InUse);
    } else {
      AppendKeepsInvariants(c, Header(m.addr, n, InUse));
    }
  }

  /**
    The guarded `malloc` differs from the code as written on exactly the
    requests that miss, get a mapping, and are too large for their length
    to be counted in a `size_t`; everywhere else the promises of the code
    as written are those of `Malloc`.
   */
  lemma MallocMatchesAsWritten(c: Chain, n: Size, m: Mapping)
    ensures Malloc(c, n, m) != MallocAsWritten(c, n, m) <==>
      n > MaxRequest && GetFreeBlock(c, n) == Null && m.Mapped?
  {
  }

  lemma FreeKeepsInvariants(c: Chain, p: Ptr, atTop: bool)
    requires Valid(c)
    ensures Valid(Free(c, p, atTop))
    ensures SizesKept(c, Free(c, p, atTop))
    ensures Ids(Free(c, p, atTop)) == Ids(c) || ShrinksAtTail(c, Free(c, p, atTop))
  {
    var c' := Free(c, p, atTop);
    if p.Block? && atTop {
      if |c| > 0 {
        assert Ids(c') == Ids(c)[..|c| - 1];
      }
    } else if p.Block? {
      StatusChangeKeepsInvariants(c, c', p.id, Reusable);
    }
  }

  /** Reusing a block and then freeing it (away from the heap top) restores the chain exactly. */
  lemma ReuseThenFreeRestores(c: Chain, n: Size, m: Mapping)
    requires Valid(c)
    requires n > 0 && GetFreeBlock(c, n).Block?
    ensures Free(Malloc(c, n, m).chain, Malloc(c, n, m).ret, false) == c
  {
    var a := Malloc(c, n, m);
    var c' := Free(a.chain, a.ret, false);
    forall i | 0 <= i < |c|
      ensures c'[i] == c[i]
    {
      if c[i].id == a.ret.id {
        var k :| 0 <= k < |c| && c[k].id == a.ret.id && Fits(c[k], n);
        assert k == i;
        assert c[i].status == Reusable;
        assert Contains(a.chain, a.ret.id) by {
          assert a.chain[i].id == a.ret.id;
        }
        var w :| 0 <= w < |c'| && c'[w].id == a.ret.id && c'[w].status == Reusable;
        assert w == i;
      }
    }
  }

  /** A freshly appended block freed at the heap top is detached again: the chain is restored. */
  lemma AppendThenFreeAtTopRestores(c: Chain, n: Size, m: Mapping)
    requires n > 0 && GetFreeBlock(c, n) == Null
    requires Malloc(c, n, m).ret.Block?
    ensures Free(Malloc(c, n, m).chain, Malloc(c, n, m).ret, true) == c
  {
    var a := Malloc(c, n, m);
    assert a.chain[..|a.chain| - 1] == c;
  }

  /** Freeing the tail at the heap top removes exactly that header and keeps the rest in order. */
  lemma FreeTailAtTopRemovesIt(c: Chain, p: Ptr)
    requires DistinctIds(c)
    requires p.Block? && p == TailOf(c)
    ensures !Contains(Free(c, p, true), p.id)
    ensures Free(c, p, true) + [c[|c| - 1]] == c
  {
    var c' := Free(c, p, true);
    forall i | 0 <= i < |c'|
      ensures c'[i].id != p.id
    {
      assert c'[i] == c[i];
    }
    assert c' + [c[|c| - 1]] == c;
  }

  /**
    The top-of-heap path detaches the current tail whatever block it was
    given: a different live block stays in the chain untouched.
   */
  lemma FreeAtTopDetachesTailNotArgument(c: Chain, p: Ptr)
    requires DistinctIds(c) && |c| >= 2
    requires p.Block? && Contains(c, p.id) && p != TailOf(c)
    ensures Contains(Free(c, p, true), p.id)
    ensures !Contains(Free(c, p, true), c[|c| - 1].id)
    ensures |Free(c, p, true)| == |c| - 1
  {
    var c' := Free(c, p, true);
    var i :| 0 <= i < |c| && c[i].id == p.id;
    assert i < |c| - 1;
    assert c'[i].id == p.id;
    forall j | 0 <= j < |c'|
      ensures c'[j].id != c[|c| - 1].id
    {
      assert c'[j] == c[j];
    }
  }

  /**
    A block flagged free away from the heap top is available again: a
    later search for at most its size finds it or an earlier header.
   */
  lemma FreedBlockIsFoundAgain(c: Chain, i: nat, s: Size)
    requires DistinctIds(c)
    requires i < |c| && s <= c[i].size
    ensures var c' := Free(c, Block(c[i].id), false);
      exists j :: 0 <= j <= i && GetFreeBlock(c', s) == Block(c'[j].id)
  {
    var c' := Free(c, Block(c[i].id), false);
    var w :| 0 <= w < |c'| && c'[w].id == c[i].id && c'[w].status == Reusable;
    assert w == i;
    assert Fits(c'[i], s);
    var k := FirstFit(c', s);
    assert k <= i;
    assert GetFreeBlock(c', s) == Block(c'[k].id);
  }

  /**
    Two 64-byte blocks are mapped, the second is freed at the heap top and
    so handed back, and a third request misses and gets the address the OS
    maps for it, which is not a live header: never the first block.
   */
  lemma TopReleaseIsNotReused(a1: Id, a2: Id, a3: Id)
    requires FreshMapping([Header(a1, 64, InUse)], Mapped(a2))
    requires FreshMapping([Header(a1, 64, InUse)], Mapped(a3))
    ensures
      var o1 := Malloc([], 64, Mapped(a1));
      var o2 := Malloc(o1.chain, 64, Mapped(a2));
      var c3 := Free(o2.chain, o2.ret, true);
      var o3 := Malloc(c3, 64, Mapped(a3));
      && o1.ret == Block(a1) && o2.ret == Block(a2)
      && c3 == o1.chain
      && o3.ret == Block(a3) && o3.ret != o1.ret
      && o3.chain == [Header(a1, 64, InUse), Header(a3, 64, InUse)]
  {
    var o1 := Malloc([], 64, Mapped(a1));
    assert o1.chain == [Header(a1, 64, InUse)];
    var o2 := Malloc(o1.chain, 64, Mapped(a2));
    assert GetFreeBlock(o1.chain, 64) == Null;
    assert o2.chain == [Header(a1, 64, InUse), Header(a2, 64, InUse)];
    var c3 := Free(o2.chain, o2.ret, true);
    assert c3 == [Header(a1, 64, InUse)];
    assert GetFreeBlock(c3, 64) == Null;
  }

  /**
    Two 64-byte blocks are mapped, the first is freed away from the heap
    top and so only flagged, and the next 64-byte request gets it back
    whatever the OS would have mapped.
   */
  lemma FlaggedBlockIsReused(a1: Id, a2: Id, m: Mapping)
    requires a1 != a2
    ensures
      var o1 := Malloc([], 64, Mapped(a1));
      var o2 := Malloc(o1.chain, 64, Mapped(a2));
      var c3 := Free(o2.chain, o1.ret, false);
      var o3 := Malloc(c3, 64, m);
      && o1.ret == Block(a1) && o2.ret == Block(a2)
      && o3.ret == o1.ret && o3.chain == o2.chain
  {
    var o1 := Malloc([], 64, Mapped(a1));
    assert o1.chain == [Header(a1, 64, InUse)];
    var o2 := Malloc(o1.chain, 64, Mapped(a2));
    assert GetFreeBlock(o1.chain, 64) == Null;
    assert o2.chain == [Header(a1, 64, InUse), Header(a2, 64, InUse)];
    var c3 := Free(o2.chain, o1.ret, false);
    assert c3 == [Header(a1, 64, Reusable), Header(a2, 64, InUse)];
    assert FirstFit(c3, 64) == 0;
  }

  /**
    As written, a request of `SizeMax` bytes on an empty chain maps a
    wrapped-around length of 23 bytes, yet succeeds and records a header
    claiming `SizeMax` payload bytes: the result is not a valid chain.
   */
  lemma OversizedRequestWraps(a: Id)
    ensures MapLength(SizeMax) == HeaderSize - 1
    ensures MallocAsWritten([], SizeMax, Mapped(a)).ret == Block(a)
    ensures !Valid(MallocAsWritten([], SizeMax, Mapped(a)).chain)
  {
    var c := MallocAsWritten([], SizeMax, Mapped(a)).chain;
    assert c[0].size == SizeMax;
  }

  /**
    With the guard, the same request fails and leaves the chain empty, and
    so does every request within `HeaderSize` of `SizeMax`, such as
    `SizeMax - 20`, whose length would also wrap.
   */
  lemma OversizedRequestRejected(n: Size, m: Mapping)
    requires n > SizeMax - HeaderSize
    ensures MapLength(n) < HeaderSize
    ensures Malloc([], n, m) == Allocation([], Null)
    ensures Malloc([], SizeMax, m) == Allocation([], Null)
    ensures Malloc([], SizeMax - 20, m) == Allocation([], Null)
  {
  }
}
