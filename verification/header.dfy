/**
  The per-allocation bookkeeping record of the allocator and the small
  vocabulary shared by both models of its chain: sizes as `size_t` values,
  pointers abstracted to header identities, and the outcome of the OS
  mapping call.
 */
module Header {

  /**
    `sizeof(header_t)` on a 64-bit (LP64) target: the struct member holds an
    8-byte `size_t`, a 4-byte `unsigned` padded to 8, and an 8-byte pointer,
    so the union is 24 bytes; the 16-byte `stub` member only sets a lower
    bound on its size.
   */
  const HeaderSize: nat := 24

  /** `SIZE_MAX` of a 64-bit `size_t`. */
  const SizeMax: nat := 0xFFFF_FFFF_FFFF_FFFF

  /** Number of distinct `size_t` values; `size_t` arithmetic wraps modulo this. */
  const SizeModulus: nat := SizeMax + 1

  /** The largest request whose header-plus-payload length is representable in a `size_t`. */
  const MaxRequest: nat := SizeMax - HeaderSize

  type Size = n: int | 0 <= n <= SizeMax

  /** Stable identity of a header; it stands for the header's address and for the payload pointer after it. */
  type Id = nat

  /** Status values the allocator writes. Nonzero means free and reusable, zero means in use. */
  const InUse: nat := 0
  const Reusable: nat := 1

  /** A header pointer or a payload pointer; `Null` is the C null pointer. */
  datatype Ptr = Null | Block(id: Id)

  /** Outcome of asking the OS for a fresh anonymous mapping: failure, or the address of the new region. */
  datatype Mapping = MapFailed | Mapped(addr: Id)

  /** One header as it sits in the chain; the `next` link is implied by chain order. */
  datatype Header = Header(id: Id, size: Size, status: nat)

  predicate IsFree(h: Header) {
    h.status != 0
  }

  /** The test the first-fit search applies to each header. */
  predicate Fits(h: Header, s: Size) {
    IsFree(h) && h.size >= s
  }

  /**
    The length handed to the mapping call for a request of `n` bytes:
    payload plus header, computed in `size_t` and therefore wrapping.
   */
  function MapLength(n: Size): (r: Size)
    ensures n <= MaxRequest ==> r == n + HeaderSize
    ensures n > MaxRequest ==> r + SizeModulus == n + HeaderSize && r < HeaderSize
  {
    (n + HeaderSize) % SizeModulus
  }
}
