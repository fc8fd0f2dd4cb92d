# First-fit allocator over OS mappings: a Dafny model of its chain of headers

The allocator in `memory_allocation.c` keeps one header in front of every
allocation. Each header holds a `size`, a `status` and a `next` link. The
headers form a singly linked chain anchored by the globals `head` and
`tail`. Three routines act on this chain:

- `getFreeBlock` is a first-fit scan from `head`. A header qualifies when its
  status is nonzero (free) and its size is at least the request.
- `malloc` rejects a zero request. It then reuses the first fit by setting its
  status to 0 (in use), keeping the block's recorded size. If nothing fits, it
  maps a fresh region of header plus payload and appends a new header at
  `tail`. If the mapping fails, it returns NULL.
- `free` ignores NULL. If the block ends at the current top of the mapped
  range, it detaches the current `tail`: both anchors become null on a
  one-header chain, otherwise the scan from `head` makes the tail's
  predecessor the new tail. Any other block is flagged free (status 1).

The model has two layers.

- `Chains` (chain.dfy) is the reference model. The state is the sequence of
  live headers in chain order. `head` is its first element and `tail` its
  last, and the empty sequence is the state in which both are null. The three
  routines are pure functions. The payload pointer is abstracted as the
  header's identity (`Ptr = Null | Block(id)`). The result of the mapping call
  is an input (`Mapping = MapFailed | Mapped(addr)`). The top-of-range test is
  the boolean input `atTop`.
- `Linked` (linked.dfy) is the state as the program stores it: a map from
  address to `Node(size, status, next)` plus `head` and `tail`. The routines
  are methods whose loops follow `next` links the way the C loops do. They are
  proved to implement the `Chains` functions through the abstraction relation
  `Linked.Represents`. `Linked.Malloc` implements the corrected, guarded
  `Chains.Malloc` described under Findings.

`ChainProps` (chain_props.dfy) holds the properties that relate several
calls. These cover the invariants every step keeps, shape changes only at the
tail, pairs of calls that undo each other, and the reuse and release
scenarios. `Header` (header.dfy) holds the header record and the `size_t`
vocabulary. A 64-bit (LP64) target is assumed: `size_t` is 64 bits, and
`sizeof(header_t)` is 24. The header struct holds an 8-byte size, a 4-byte
status padded to 8, and an 8-byte link. The 16-byte `stub` member of the
union is smaller than that, so it does not change the size.

The status encoding follows the code: nonzero means free, 0 means in use.
The allocator only ever writes 0 and 1, and `Chains.Valid` records that.

The top-of-range path is modelled literally. When `atTop` holds, `free`
detaches whatever header is the current tail, whether or not it is the block
passed in. `ChainProps.FreeTailAtTopRemovesIt` covers the case where the
block is the tail. `ChainProps.FreeAtTopDetachesTailNotArgument` covers the
case where it is not. In that case the argument stays in the chain, still in
use, and the tail disappears. The code does not check that the block passed
in is the tail.

## Model

| member | source | states |
|---|---|---|
| Chains.FirstFit | memory_allocation.c:39-48 | index of the first header that is free (nonzero status) and at least `s` bytes; every header before it fails that test; the chain length when none passes |
| Chains.GetFreeBlock | memory_allocation.c:39-48 | null exactly when no header in the chain (empty or not) is free and large enough; otherwise a header that passes the test with none before it passing |
| Chains.MallocAsWritten | memory_allocation.c:50-87 | `malloc` as the code has it: zero request gives NULL with the chain unchanged; every NULL leaves the chain unchanged; on a hit the first fit is returned and only its status changes, to in use; a miss with a failed mapping gives NULL; a miss with a successful mapping appends exactly the header (address, `n`, in use) and returns it, whatever `n` is |
| Chains.Malloc | memory_allocation.c:50-87 | zero request gives NULL with the chain unchanged; every NULL leaves the chain unchanged; a returned block is in use and at least `n` bytes; on a hit it is the first fit and only its status changes (size kept, order and length kept); on a miss it succeeds exactly when mapping succeeds and the length is representable, appending exactly one in-use header of size `n` after the old tail |
| Chains.DetachTail | memory_allocation.c:112-131 | one header fewer, all earlier headers unchanged in place; the old tail's predecessor becomes the tail; head becomes null exactly when at most one header was present |
| Chains.Free | memory_allocation.c:96-142 | NULL leaves the chain unchanged; at the top of the range the current tail is detached; otherwise only the status of the block's header changes, to free, and a pointer that is not in the chain changes nothing |
| Chains.HeadIsTailIffShort | memory_allocation.c:114 | with distinct headers, `head == tail` holds exactly when the chain has at most one header |
| Header.MapLength | memory_allocation.c:66 | the mapping length is `n + 24` when that fits in `size_t`, and otherwise wraps to a value below 24 |
| ChainProps.MallocKeepsInvariants | memory_allocation.c:50-87 | from a valid chain and a fresh mapping address, `malloc` gives a valid chain (distinct headers, nonzero unwrapped sizes, status 0 or 1); surviving headers keep their size; the sequence of header ids is unchanged or grows by exactly one header after the old tail |
| ChainProps.StatusChangeKeepsInvariants | memory_allocation.c:58-63 | a step that only writes status 0 or 1 into existing headers, as the reuse hit and the flag-free path do, keeps a chain valid, keeps every size and leaves the sequence of header ids unchanged |
| ChainProps.AppendKeepsInvariants | memory_allocation.c:74-83 | appending a well-formed header whose id is not live keeps a chain valid and keeps every size, and the chain grows by exactly that header after the old tail |
| ChainProps.MallocMatchesAsWritten | memory_allocation.c:50-87 | the guarded `malloc` and the code as written give different results exactly on requests that miss, get a mapping, and exceed `SIZE_MAX - 24` |
| ChainProps.FreeKeepsInvariants | memory_allocation.c:96-142 | `free` keeps a chain valid; surviving headers keep their size; the sequence of header ids is unchanged or loses exactly its tail (an empty chain stays empty) |
| ChainProps.ReuseThenFreeRestores | memory_allocation.c:58-141 | a reuse hit followed by an off-top `free` of the returned block restores the chain exactly |
| ChainProps.AppendThenFreeAtTopRestores | memory_allocation.c:74-131 | an append followed by a top-of-range `free` of the new block restores the chain exactly |
| ChainProps.FreeTailAtTopRemovesIt | memory_allocation.c:112-131 | freeing the tail at the top removes that header and no other; the remaining chain followed by the old tail is the old chain |
| ChainProps.FreeAtTopDetachesTailNotArgument | memory_allocation.c:112-131 | on a chain of two or more, a top-of-range `free` of a non-tail block keeps that block and removes the tail instead |
| ChainProps.FreedBlockIsFoundAgain | memory_allocation.c:139-141 | after a block is flagged free, a search for at most its size finds it or a header before it |
| ChainProps.TopReleaseIsNotReused | memory_allocation.c:96-137 | allocate 64, allocate 64, release the second at the top (the chain is back to the first block alone), allocate 64 with a mapping address not live in that chain: the third request misses, gets that address, and so differs from the first block |
| ChainProps.FlaggedBlockIsReused | memory_allocation.c:139-141 | allocate 64, allocate 64, flag the first free, allocate 64: the first block is returned again and the chain is as before the release |
| ChainProps.OversizedRequestWraps | memory_allocation.c:66-86 | with the code as written, a `SIZE_MAX` request maps 23 bytes yet succeeds and records `SIZE_MAX` payload bytes, so the chain is no longer valid |
| ChainProps.OversizedRequestRejected | memory_allocation.c:66-72 | with the length guard, every request above `SIZE_MAX - 24` (whose length wraps below 24), including `SIZE_MAX` and `SIZE_MAX - 20`, returns NULL on an empty chain and the chain stays empty |
| Linked.FollowWalksChain | memory_allocation.c:40-45 | following `k` links from the `i`-th header reaches the `(i+k)`-th header, or null exactly one step past the tail |
| Linked.ShapeInvariants | memory_allocation.c:79-83 | `head` is null exactly when `tail` is; they coincide exactly on chains of at most one header; `tail.next` is null; the tail is the last header reached from `head` |
| Linked.SetStatusRepresents | memory_allocation.c:61 | writing one header's status in place gives the linked form of the chain with only that status changed |
| Linked.AppendRepresents | memory_allocation.c:74-83 | the new header, the old tail's link to it, and the `head` and `tail` updates give the linked form of the chain extended by that header |
| Linked.DetachRepresents | memory_allocation.c:122-127 | clearing the predecessor's link and making it the tail gives the linked form of the chain without its last header |
| Linked.GetFreeBlock | memory_allocation.c:39-48 | the loop over `next` links returns exactly the first-fit header of the chain the heap represents |
| Linked.Malloc | memory_allocation.c:50-87 | the pointer-level `malloc`, with the length guard of the corrected version, returns what `Chains.Malloc` returns, and its heap represents the chain `Chains.Malloc` produces |
| Linked.Free | memory_allocation.c:96-142 | the pointer-level `free`, including its predecessor scan, leaves a heap that represents the chain `Chains.Free` produces |

## Findings

| source | as written | input that shows it | evidently intended | confidence | as-written member | corrected member |
|---|---|---|---|---|---|---|
| memory_allocation.c:66 | The mapping length is the request plus the header size, computed in `size_t` with no overflow check. | `malloc(SIZE_MAX)` on any chain with no fitting block: the length wraps to 23 and the mapping succeeds. The call then returns a block whose header claims `SIZE_MAX` payload bytes. | A request too large for header plus payload to fit in `size_t` fails with NULL. | medium; not executed (assumes the mapping call rounds a 23-byte request up to a page, and a 64-bit target) | Chains.MallocAsWritten | Chains.Malloc |

`ChainProps.OversizedRequestWraps` exhibits the as-written behaviour.
`ChainProps.OversizedRequestRejected` shows the corrected behaviour for the
same input. The corrected `Chains.Malloc` fails on a miss when
`n > SIZE_MAX - 24`, before mapping. `ChainProps.MallocMatchesAsWritten`
shows that this is the only difference from the code as written. `ChainProps.MallocKeepsInvariants`
proves that the corrected version keeps every header's mapping large enough
for header plus payload. `Linked.Malloc` and the rest of the model use
`Chains.Malloc`.

## Left out

- The mapping call at memory_allocation.c:68 is not modelled. Its outcome is the `Mapping` input, and its address becomes the new header's identity. `Linked.Malloc` requires that address not to be a live header, which the OS guarantees for a fresh mapping.
- The zero-length mapping probe at memory_allocation.c:109 and the comparison at :112 are not modelled. Their combined answer is the boolean `atTop`. Both outcomes are modelled.
- The "release" mapping call at memory_allocation.c:134 has no effect on the chain, so it is not modelled.
- Linked.Free: requires `p` to be the address of a header the allocator wrote. The C code reads that header's size unconditionally, so any other pointer is undefined behaviour. A detached header is allowed and is only written in place.
- The mutex around every operation is not modelled. Each operation is atomic in the model.
- Pointer arithmetic between header and payload (`+1` and `-1` on `header_t *`) is not modelled. Neither is the layout of the header union, beyond its 24-byte size. A payload pointer is its header's identity.
- `calloc` and `realloc` are declared, but their bodies are commented out in memory_allocation.c:89-94. There is no behaviour to model, including zero-fill, the overflow check on the product, copying and resizing.
- Payload bytes are not modelled, because none of the implemented routines reads or writes them.
- `getFreeBlock` leaving the chain untouched is not stated separately. It holds by construction, because `Chains.GetFreeBlock` is a pure function and `Linked.GetFreeBlock` returns no heap.
- `status` is an `unsigned` in the code and a `nat` in the model. Only 0 and 1 are ever written, so the 32-bit width never matters.
