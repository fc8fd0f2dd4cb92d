/**
  The allocator state as the sequence of live headers in the order the
  `next` links visit them from `head`: `head` is the first element, `tail`
  the last, and an empty sequence is the state where both are null.
  The three operations of the allocator are pure functions over it.
 */
module Chains {
  import opened Header

  type Chain = seq<Header>

  predicate DistinctIds(c: Chain) {
    forall i, j :: 0 <= i < j < |c| ==> c[i].id != c[j].id
  }

  predicate Contains(c: Chain, id: Id) {
    exists i :: 0 <= i < |c| && c[i].id == id
  }

  /** Some header carrying `id` has status `st`. */
  predicate HasStatus(c: Chain, id: Id, st: nat) {
    exists i :: 0 <= i < |c| && c[i].id == id && c[i].status == st
  }

  /**
    A header the allocator can have created: a nonzero size whose mapping
    length did not wrap (so the region holds header and payload), and one of
    the two status values the allocator writes.
   */
  predicate WellFormed(h: Header) {
    && h.size > 0
    && MapLength(h.size) == HeaderSize + h.size
    && (h.status == InUse || h.status == Reusable)
  }

  predicate Valid(c: Chain) {
    && DistinctIds(c)
    && forall i :: 0 <= i < |c| ==> WellFormed(c[i])
  }

  function HeadOf(c: Chain): Ptr {
    if |c| == 0 then Null else Block(c[0].id)
  }

  function TailOf(c: Chain): Ptr {
    if |c| == 0 then Null else Block(c[|c| - 1].id)
  }

  /** Under distinct ids, `head` and `tail` coincide exactly on a chain of at most one header. */
  lemma HeadIsTailIffShort(c: Chain)
    requires DistinctIds(c)
    ensures HeadOf(c) == TailOf(c) <==> |c| <= 1
  {
    if |c| >= 2 {
      assert c[0].id != c[|c| - 1].id;
    }
  }

  /** `c'` is `c` with at most the status of headers carrying `id` changed, and changed to `st`. */
  predicate OnlyStatusChanged(c: Chain, c': Chain, id: Id, st: nat) {
    && |c'| == |c|
    && forall i :: 0 <= i < |c| ==>
         && c'[i].id == c[i].id
         && c'[i].size == c[i].size
         && (c'[i] != c[i] ==> c[i].id == id && c'[i].status == st)
  }

  /** Index of the first header carrying `id`, or `|c|` when there is none. */
  function Locate(c: Chain, id: Id): (k: nat)
    ensures k <= |c|
    ensures k < |c| ==> c[k].id == id
    ensures forall j :: 0 <= j < k ==> c[j].id != id
  {
    if |c| == 0 then 0
    else if c[0].id == id then 0
    else 1 + Locate(c[1..], id)
  }

  /** Index of the first header that is free and at least `s` bytes, or `|c|` when there is none. */
  function FirstFit(c: Chain, s: Size): (k: nat)
    ensures k <= |c|
    ensures k < |c| ==> Fits(c[k], s)
    ensures forall j :: 0 <= j < k ==> !Fits(c[j], s)
  {
    if |c| == 0 then 0
    else if Fits(c[0], s) then 0
    else 1 + FirstFit(c[1..], s)
  }

  /**
    `getFreeBlock`: first-fit search from `head`. Null exactly when no
    header is free and large enough; otherwise the first such header in
    chain order.
   */
  function GetFreeBlock(c: Chain, s: Size): (r: Ptr)
    ensures r == Null <==> forall i :: 0 <= i < |c| ==> !Fits(c[i], s)
    ensures r.Block? ==>
      exists k :: 0 <= k < |c| && c[k].id == r.id && Fits(c[k], s)
                  && forall j :: 0 <= j < k ==> !Fits(c[j], s)
  {
    var k := FirstFit(c, s);
    if k < |c| then Block(c[k].id) else Null
  }

  /** The state after a call together with the pointer it returned. */
  datatype Allocation = Allocation(chain: Chain, ret: Ptr)

  /**
    `malloc` exactly as written: a zero request fails; a first-fit hit is
    flagged in use and keeps its recorded size; a miss maps
    `MapLength(n)` fresh bytes and appends a header recording `n`.
    Nothing guards the wrap-around of `MapLength`.
   */
  function MallocAsWritten(c: Chain, n: Size, m: Mapping): (a: Allocation)
    // a zero request fails without touching the chain
    ensures n == 0 ==> a == Allocation(c, Null)
    // every failure leaves the chain as it was
    ensures a.ret == Null ==> a.chain == c
    // reuse: the first fit is returned and only its status changes, to in use
    ensures n > 0 && GetFreeBlock(c, n).Block? ==>
      && a.ret == GetFreeBlock(c, n)
      && OnlyStatusChanged(c, a.chain, a.ret.id, InUse)
      && HasStatus(a.chain, a.ret.id, InUse)
    // miss and failed mapping: NULL
    ensures n > 0 && GetFreeBlock(c, n) == Null && m.MapFailed? ==> a == Allocation(c, Null)
    // miss and successful mapping: one new header after the old tail, whatever `n` is
    ensures n > 0 && GetFreeBlock(c, n) == Null && m.Mapped? ==>
      a == Allocation(c + [Header(m.addr, n, InUse)], Block(m.addr))
  {
    if n == 0 then Allocation(c, Null)
    else
      var k := FirstFit(c, n);
      if k < |c| then
        var c' := c[k := c[k].(status := InUse)];
        assert c'[k].id == c[k].id && c'[k].status == InUse;
        Allocation(c', Block(c[k].id))
      else match m
        case MapFailed => Allocation(c, Null)
        case Mapped(addr) => Allocation(c + [Header(addr, n, InUse)], Block(addr))
  }

  /**
    `malloc` with the length computation guarded: on a miss, a request too
    large for header plus payload to be counted in a `size_t` fails
    instead of mapping a wrapped-around length.
   */
  function Malloc(c: Chain, n: Size, m: Mapping): (a: Allocation)
    // a zero request fails without touching the chain
    ensures n == 0 ==> a == Allocation(c, Null)
    // every failure leaves the chain as it was
    ensures a.ret == Null ==> a.chain == c
    // a success hands out a header of the resulting chain, in use and big enough
    ensures a.ret.Block? ==>
      exists i :: 0 <= i < |a.chain| && a.chain[i].id == a.ret.id
                  && a.chain[i].status == InUse && a.chain[i].size >= n
    // reuse: the first fit is returned and only its status changes
    ensures n > 0 && GetFreeBlock(c, n).Block? ==>
      a.ret == GetFreeBlock(c, n) && OnlyStatusChanged(c, a.chain, a.ret.id, InUse)
    // miss: success exactly when the length is representable and the mapping succeeded
    ensures n > 0 && GetFreeBlock(c, n) == Null ==>
      (a.ret.Block? <==> n <= MaxRequest && m.Mapped?)
    // miss and success: exactly one new header, appended after the old tail
    ensures n > 0 && GetFreeBlock(c, n) == Null && a.ret.Block? ==>
      a.ret == Block(m.addr) && a.chain == c + [Header(m.addr, n, InUse)]
      && MapLength(n) == HeaderSize + n
  {
    if n > MaxRequest && FirstFit(c, n) == |c| then Allocation(c, Null)
    else
      var a := MallocAsWritten(c, n, m);
      var k := FirstFit(c, n);
      assert a.ret.Block? ==> a.chain[if k < |c| then k else |c|].id == a.ret.id;
      a
  }

  /** The chain with its tail detached; the predecessor of the old tail becomes the tail. */
  function DetachTail(c: Chain): (c': Chain)
    ensures |c'| == if |c| == 0 then 0 else |c| - 1
    ensures forall i :: 0 <= i < |c'| ==> c'[i] == c[i]
    ensures TailOf(c') == if |c| >= 2 then Block(c[|c| - 2].id) else Null
    ensures HeadOf(c') == Null <==> |c| <= 1
  {
    if |c| <= 1 then [] else c[..|c| - 1]
  }

  /**
    `free`: a null pointer is ignored; a block at the top of the mapped
    range causes the current tail (whichever block that is) to be
    detached; any other block is flagged reusable in place.
   */
  function Free(c: Chain, p: Ptr, atTop: bool): (c': Chain)
    ensures p == Null ==> c' == c
    ensures p.Block? && atTop ==> c' == DetachTail(c)
    ensures p.Block? && !atTop ==>
      && OnlyStatusChanged(c, c', p.id, Reusable)
      && (Contains(c, p.id) ==> HasStatus(c', p.id, Reusable))
      && (!Contains(c, p.id) ==> c' == c)
  {
    if p.Null? then c
    else if atTop then DetachTail(c)
    else
      var k := Locate(c, p.id);
      if k < |c| then
        var c' := c[k := c[k].(status := Reusable)];
        assert c'[k].id == p.id && c'[k].status == Reusable;
        c'
      else c
  }
}
