# A verified model of the platform-independent core

This project models the parts of an NVMe option ROM, derived from a network boot loader, that do not depend on hardware:
its memory allocator and I/O buffers, its object interfaces, its AES cipher and key wrap, its big-integer arithmetic, its
SAN block device, its settings tree, its DER encoder and parser, its line buffer, its calendar and its scheduler. Each
part follows the C code operation by operation: code that updates objects or buffers in place is a class or a method with
a `modifies` clause, proved against functions on values; what the code is for is then proved of those functions, or kept
as the class invariant `Valid()`.

`dafny verify dfyconfig.toml` checks everything.

## Parts

- **Heap** (`Units`, `HeapTiles`, `HeapLeaks`, `Heap`, `IoBuf`). The populated range is, at all times, tiled by free, live
  and leaked pieces (`tiles`, a ghost field). `Valid()` says that the free list is exactly the free tiles, that no two
  free tiles touch, that the counters are the sums, and that the live tiles are the blocks that callers hold (`owned`)
  together with those of the stored certificates. Every operation keeps this, so it holds over any run of allocations,
  frees, reallocations and discards.
- **Object interfaces** (`InterfaceSpec`, `InterfaceCounts`, `InterfaceTrees`, `InterfaceChains`,
  `InterfaceLoops`, `InterfaceLinks`, `Interface`, `InterfaceLookup`). The graph of interfaces is a map of destinations,
  with the nullified interfaces, the reference counts, and logs of the close and free methods that have run. `InterfaceSpec`
  says what each operation does; `Interface.Graph` does it in place. Shutting down terminates in every graph, because each notification uses up one plugged interface.
- **AES** (`Gf256`, `Fips197`, `FipsLaws`, `AesTables`, `AesRounds`, `Aes`, `WrapSpec`, `WrapShift`, `AesWrap`).
  `Fips197` is the standard: the field, the S-box as inverse and affine map, the four transformations, the key expansion,
  and the two ciphers; `FipsLaws` says byte by byte what these are, with the examples that the standard gives. `WrapShift`
  is the shifting form of RFC 3394. The other modules are the code: tables found by walking the powers of {03}, rounds
  that walk a state with a stride, buffers that change places after each round, and key schedules in byte arrays.
- **Big integers** (`BigInt`). Primitive operations are functions on the values of integers of explicit width.
- **SAN device** (`SanPaths`, `SanTransfers`, `SanBoot`). What happens while the scheduler runs is a script of events; the
  code is run against every script. A script may end while the code is still waiting, which is an outcome of its own.
- **Settings** (`SettingsSpec`, `SettingsLinks`, `SettingsSearch`, `SettingsOrder`, `SettingsNumbers`, `Settings`). Blocks
  form a forest with parent links and sibling lists; the effective priority of a block is found by the recursive search
  that `fetch_setting()` makes, and `SettingsSearch` says which block that finds.
- **DER** (`Der`, `Asn1`), **line buffer** (`LineBuf`), **calendar** (`Time`), **scheduler** (`Process`); `ListOps` and
  `Wrappers` have what several parts share.

## Where code and documentation differ

- src/crypto/aes.c:462-482 names the polynomial x^8+x^4+x^3+x^2+1, but the constant 0x1b in the code is that of
  x^8+x^4+x^3+x+1, which is also that of the standard. The model follows the code.
- src/core/malloc.c:335-360 says that only fragments at the ends of the heap can be leaked. That holds over any run while
  offsets are multiples of the smallest block (`Heap.Heap.LeakedAtMost`), but callers such as src/drivers/net/ipoib.c:718
  use others, which can leak in the middle (`HeapLeaks.InteriorLeak`). `HeapLeaks.InsideExactly` says exactly when an
  allocation does.
- src/crypto/bigint.c:133-168 leaves 1 as the zeroth power even for a modulus of 1; for every other operand the result is
  the power modulo the modulus (`BigInt.ExactWhen`).
- src/crypto/aes_wrap.c:26-37 and 73-84 allow source and destination to be the same buffer. Unwrapping in place is right,
  but wrapping writes the initial value before it moves the source, and so loses its first block. It gives the right
  result if and only if that block was equal to the initial value (`AesWrap.InPlaceExactly`, `AesWrap.ZerosInPlace`).
- src/crypto/aes_wrap.c:55-67 truncates the step number to one byte. It agrees with RFC 3394 for every cipher while six
  times the number of blocks fits in a byte (`WrapSpec.WrapIsRfc3394`); beyond that the identity cipher already gives
  another result on every input (`WrapSpec.IdentityDiffers`).
- src/core/sanboot.c:365-414 can report success without an active path, for example if within one step two paths become
  available and the one that was chosen is lost again (`SanPaths.LostRace`). `SanPaths.ZeroWithoutPath` says exactly when:
  if two paths become available before any is lost. `SanPaths.SteadyWait` says that this cannot happen if no step
  delivers two events.
- src/crypto/asn1.c:772-786 means to make a failure permanent, and callers such as src/crypto/ocsp.c:166-179 look only at
  the status of the last of several calls. But a builder that is still empty when memory runs out is indistinguishable
  from a new one (`Asn1.Forgets`). A failure is permanent if and only if there were contents (`Asn1.Builder.Grow`), and
  `Asn1.ChainExactly` says exactly when the last status is right.
- src/core/settings.c:514-534 removes a block without moving its former ancestors, whose priorities may have come from
  it (`SettingsOrder.OutOfOrder`). `SettingsOrder.DetachedOrder` says exactly when the order of the sibling lists survives.
- src/core/settings.c:966-987 reports a number that is out of range, but tests only the bytes that do not fit, and so
  accepts signed numbers of which just the sign does not fit (`SettingsNumbers.SignLost`). `SettingsNumbers.SignKept` says
  exactly when the word is the number.
- Shutting down a loop of objects that shut their interfaces one at a time runs a close method twice
  (`InterfaceLoops.RingClosedTwice`). `InterfaceLinks.ClosedOnceExactly` says exactly when each runs once: if there are as
  many links as objects. It runs at most once in every graph whatever if the objects nullify all their interfaces first
  (`InterfaceLoops.ShutdownQuiet`).

## Model

| member | source | states |
|---|---|---|
| Heap.Heap.AllocBlock | src/core/malloc.c:279-394 | A result lies in the heap, is `offset` modulo `align` and modulo the unit, is the lowest such address in any free block with room after it if nothing had to be discarded, and adds exactly its rounded size to what callers hold; certificates are discarded only if no free block has such an address, and those that are permanent, explicit or referenced all stay; failure means that no free block has such an address and no certificate can be discarded, or that the size overflows, and takes nothing. |
| Heap.Heap.FreeBlock | src/core/malloc.c:404-499 | Exactly the block with that address and rounded size stops being held; the free list stays ordered and coalesced and the counters stay right. |
| Heap.Heap.FirstFit | src/core/malloc.c:315-322 | The first entry of the free list with room for the aligned request, or none. |
| Heap.Heap.FitsExactly | src/core/malloc.c:311-322 | The test is passed exactly if some address in the block, with both remainders, has room after it, and the address computed is the lowest of these. |
| Heap.Heap.FirstIsLowest | src/core/malloc.c:315-322 | The first block that fits gives the lowest such address in the whole heap. |
| Heap.Heap.SplitEntry | src/core/malloc.c:323-360 | The entry is replaced, in place, by the fragments before and after the allocation that are at least one unit. |
| Heap.Heap.MergeEntry | src/core/malloc.c:449-491 | The freed block, joined with a free block that ends where it starts and one that starts where it ends, is at its place in the list. |
| Heap.Heap.Release | src/core/malloc.c:404-499 | Freeing a live tile turns it and its free neighbours into one free tile and moves its size from used to free. |
| Heap.Heap.BlocksChecked | src/core/malloc.c:205-235 | In every reachable state the free list is in strictly ascending order with a gap after each block, and no block is under one unit. |
| Heap.Heap.LiveApart | src/core/malloc.c:205-235 | In every reachable state a live block overlaps no other live block and no free block. |
| Heap.Heap.Aligned | src/core/malloc.c:311-319 | Skipping the computed number of bytes reaches an address congruent to the offset modulo both powers of two. |
| Heap.Heap.RoundUpFacts | src/core/malloc.c:296-310 | A size rounds up to at least itself and less than one unit more, and to zero exactly when it is zero or overflows. |
| Heap.Heap.DiscardCertificate | src/crypto/certstore.c:171-195 | Either the last certificate in the store that only the store refers to, and that is neither permanent nor explicit, is removed and its memory freed, or there is none and nothing changes. |
| Heap.UndiscardableExactly | src/crypto/certstore.c:171-195 | The certificates that no discard removes are exactly those that are permanent, explicit or referenced by others than the store. |
| Heap.Heap.StoreCertificate | src/crypto/certstore.c:138-146 | A certificate goes to the front of the store with one more reference, and its memory from its owner to the store. |
| Heap.Heap.GetCertificate | src/include/ipxe/x509.h:236-239 | A further reference to a stored certificate keeps it from being discarded. |
| Heap.Heap.PutCertificate | src/include/ipxe/x509.h:247-249 | Dropping a reference other than the store's own makes a certificate discardable if and only if it was the last and the certificate is neither permanent nor explicit. |
| Heap.Heap.Realloc | src/core/malloc.c:521-572 | The new block replaces the old one among those held; failure means that the size overflows, or that no free block fits and no certificate can be discarded, and changes nothing held; the size words of all other blocks are kept; a size of zero only frees. |
| Heap.Heap.Malloc | src/core/malloc.c:583-592 | An allocation with room for the size after its size word, from which it can be freed, or null under the same condition as for realloc(); no bytes are the reserved pointer. |
| Heap.Heap.FreePointer | src/core/malloc.c:604-611 | Exactly the block found from the size word is given back; a null or reserved pointer is ignored. |
| Heap.Heap.constructor | src/core/malloc.c:648-660 | The whole units of the populated range are one free block, all of it free and none used. |
| HeapTiles.AllocatedWellFormed | src/core/malloc.c:323-360 | Carving an allocation out of any free tile leaves a well formed tiling. |
| HeapTiles.FreedWellFormed | src/core/malloc.c:449-491 | Freeing any live tile leaves a well formed tiling with no two free tiles side by side. |
| HeapLeaks.LeakBound | src/core/malloc.c:335-360 | If leaks are only at the two ends of the heap, together they are at most one unit. |
| HeapLeaks.AllocatedEnds | src/core/malloc.c:335-360 | An allocation at a multiple of the unit leaks nothing except at the ends of the heap. |
| HeapLeaks.LeaksExactly | src/core/malloc.c:311-360 | At every alignment, an allocation from a block between two unit boundaries leaks nothing if and only if its offset is a whole number of units or the fragments before and after it are both at least one unit. |
| HeapLeaks.InsideExactly | src/core/malloc.c:335-360 | In a heap that has leaked only at its ends, an allocation leaves it so if and only if the offset is a whole number of units or each fragment that is not at an end of the heap is at least one unit. |
| HeapLeaks.NeverLeaksExactly | src/core/malloc.c:335-360 | At every alignment and size, no block between unit boundaries ever leaks if and only if the offset is a whole number of units. |
| HeapLeaks.InteriorLeak | src/core/malloc.c:335-360 | An offset of half a unit leaks half a unit in the middle of a heap. |
| Heap.Heap.LeakedAtMost | src/core/malloc.c:335-360 | Over any run in which every offset is a multiple of the unit, at most one unit is leaked in all. |
| IoBuf.AllocRaw | src/core/iobuf.c:48-118 | A buffer of the length asked for, aligned as asked modulo the alignment rounded up to a power of two, with an aligned inline descriptor if both fit below that power and one allocated apart otherwise, and the blocks taken for it; or nothing is taken, and then the alignment cannot be represented or there was no room for the buffer or for its descriptor beside it. Offsets on a unit boundary leak no more than end fragments. |
| IoBuf.Alloc | src/core/iobuf.c:129-139 | The buffer has at least the smallest length, 128 bytes, and crosses no multiple of its own size rounded up to a power of two; failure means that there was no room. |
| IoBuf.Free | src/core/iobuf.c:146-172 | Exactly the blocks taken for the buffer are given back, whichever way it was allocated. |
| IoBuf.DetachedIsElsewhere | src/core/iobuf.c:161-171 | A descriptor allocated apart never lies just past its buffer, so the test for an inline one is sound. |
| IoBuf.StillHeld | src/core/iobuf.c:146-172 | Whatever else is allocated and freed, a buffer keeps the blocks taken for it. |
| IoBuf.InlineAligned | src/core/iobuf.c:85-95 | The fill puts an inline descriptor at its own alignment, for every length and offset. |
| IoBuf.PowerAboveFacts | src/core/iobuf.c:67-73 | The rounded alignment is the least power of two not below the one asked for. |
| IoBuf.PowerExactly | src/core/iobuf.c:60-73 | The power of two used is the least that is below neither the alignment asked for nor the most that a descriptor with its fill takes up. |
| InterfaceSpec.Shutdown | src/core/interface.c:278-297 | In every graph shutting down ends, plugs nothing in and forgets no object. |
| InterfaceCounts.PlugCounted | src/core/interface.c:83-95 | Plugging keeps each count one below the references of holders and of plugged interfaces, and frees exactly the objects that lost their last reference. |
| InterfaceCounts.UnplugCounted | src/core/interface.c:117-122 | The same for unplugging. |
| InterfaceCounts.InsertCounted | src/core/interface.c:401-409 | The same for inserting a filter, including the reference held meanwhile. |
| InterfaceCounts.ShutdownCounted | src/core/interface.c:249-297 | The same for a shutdown and every close, shutdown and restart that it sets off. |
| InterfaceCounts.RestartCounted | src/core/interface.c:343-358 | The same for a restart. |
| InterfaceCounts.FreedWhenUnreferenced | src/core/refcnt.c:61-91 | An object's free method has run at most once, and has run if and only if nothing refers to it. |
| InterfaceChains.ShutdownChain | src/core/blocktrans.c:132-151 | Shutting down one end of a chain of any length, whose filters shut their two sides in either order, unplugs every link and nothing else, and closes each filter, and the far end if it has a close method, exactly once. |
| InterfaceChains.ChainFreed | src/core/blocktrans.c:223-259 | A filter that only its neighbours refer to is freed exactly once when the chain is shut down. |
| InterfaceChains.InsertChain | src/core/interface.c:401-409 | Inserting a filter into any link of a chain gives the chain with that filter at that place. |
| InterfaceLoops.ShutdownQuiet | src/core/interface.c:305-318 | If close methods nullify all interfaces of their object first, no object is ever closed twice, in any graph. |
| InterfaceTrees.ShutTree | src/core/interface.c:278-297 | Shutting the interface on which any tree of objects hangs, with any number of interfaces shut in any order by each, unplugs every link of the tree and nothing else, and runs exactly the close methods of its objects. |
| InterfaceTrees.EachOnce | src/core/interface.c:278-297 | No object occurs twice in such a tree, so each close method runs exactly once. |
| InterfaceTrees.TreeFreed | src/core/refcnt.c:61-91 | An object that only the links of such a tree refer to is freed exactly once when it is shut down. |
| InterfaceTrees.ShutList | src/core/blocktrans.c:148-150 | Shutting an object's interfaces one after the other shuts the parts of the tree on them, none of which disturbs another. |
| InterfaceLoops.RingClosedTwice | src/core/interface.c:278-297 | A loop of two filters that shut one interface after the other has a close method run twice; `InterfaceLinks.ClosedOnceExactly` has the exact condition. |
| InterfaceLinks.ClosedOnceExactly | src/core/interface.c:278-297 | In any graph of objects that shut all their interfaces one at a time, with any loops, a shutdown closes exactly the objects that links lead to, as many times in all as they have links; so each is closed only once if and only if there are as many links as objects. |
| InterfaceLinks.ClosedAreReached | src/core/interface.c:278-297 | The objects that a shutdown closes are the least set with the one at the other end of the interface and, with each object, those at the other ends of its links. |
| InterfaceLinks.ShutdownCascades | src/core/interface.c:278-297 | Two ends of links go for each object closed, closed objects keep no link, and nothing goes but what was shut, what belongs to a closed object and what restarts. |
| Interface.Graph.ShutdownIntf | src/core/interface.c:278-297 | Nullifying, transferring the destination and notifying through a temporary interface, with its references, is what the specification says, and keeps the counts; afterwards the interface is unplugged and it, like all nullified before, is nullified, whatever the close methods did. |
| Interface.NulledStay | src/core/interface.c:278-297 | No close method that a shutdown leads to brings a nullified interface back or plugs the interface in again. |
| Interface.Graph.CloseReceived | src/core/interface.c:249-266 | A nullified interface ignores the close; otherwise the close method runs, or the interface restarts. |
| Interface.Graph.CloseObject | src/core/interface.c:305-318 | The loop over an object's interfaces shuts them in order, after nullifying all of them if the object does so. |
| Interface.Graph.RestartIntf | src/core/interface.c:343-358 | The interface receives operations again only after the shutdown, which leaves it unplugged; of the interfaces that were nullified, only it no longer is. |
| Interface.Graph.PlugInto | src/core/interface.c:83-95 | The interface, and no other, has the new destination; the object at the new end gains a reference and the one at the old end loses one, and is freed exactly if that was its last and it did not gain one. |
| Interface.Graph.UnplugFrom | src/core/interface.c:117-122 | The interface has no destination and no other changes; the object at the old end loses one reference and is freed exactly if that was its last; the counts stay balanced. |
| Interface.Graph.InsertFilter | src/core/interface.c:401-409 | The four plugs, with a reference held meanwhile, keep the counts balanced and, if the four interfaces differ, put the two sides of the filter, each plugged both ways, between the interface and its former destination, and nothing else moves. |
| Interface.InsertBetween | src/core/interface.c:401-409 | If the four differ, the interface and the upper side of the filter are each other's destination, and so are the lower side and the former destination, and no other destination changes. |
| Interface.Graph.Translate | src/core/blocktrans.c:223-259 | A translator is created, inserted and left to its neighbours, with the counts balanced and no reference kept. |
| Interface.Graph.RefDown | src/core/refcnt.c:61-91 | The count falls by one and no other changes; the free method runs when it falls to -1, and not if it falls further. |
| InterfaceLookup.Lookup | src/core/interface.c:187-230 | The destination found through any number of pass-through filters, whether it implements the operation, and exactly one reference held, on that destination. |
| InterfaceLookup.TargetPath | src/core/interface.c:187-230 | That destination is at the end of a path on which each interface met does not implement the operation and passes it to the next; it implements the operation, or it is nullified, null or has no pass-through. |
| InterfaceLookup.LookupChain | src/core/interface.c:212-230 | Through a chain of any number of filters that pass it on, an operation reaches the far end. |
| Fips197.CipherRoundTrip | src/crypto/aes.c:398-460 | The inverse cipher undoes the cipher for every block and every list of round keys. |
| Fips197.InvCipherRoundTrip | src/crypto/aes.c:398-460 | The cipher undoes the inverse cipher as well. |
| FipsLaws.CipherStates | src/crypto/aes.c:398-424 | Byte by byte, the cipher is a sequence of states: input plus first key, then rounds of substituted, rotated, mixed and added bytes, and a last round without mixing. |
| FipsLaws.ShiftRowsAt | src/crypto/aes.c:192-212 | Row r of the state is rotated by r columns, and in the other direction by the inverse. |
| FipsLaws.MixColumnsAt | src/crypto/aes.c:158-190 | Each byte of a column becomes the sum of the four with the factors 2, 3, 1 and 1. |
| FipsLaws.SBoxLaw | src/crypto/aes.c:572-606 | Every bit of an S-box value is the sum of five bits of the inverse and one of {63}, as in section 5.1.1 of FIPS 197. |
| FipsLaws.SBoxAnswer | src/crypto/aes.c:572-606 | The S-box value of {53} is {ed}, the example of the standard. |
| FipsLaws.ProductAnswers | src/crypto/aes.c:462-482 | The two example products of section 4.2 of the standard. |
| Gf256.OrbitOfThree | src/crypto/aes.c:572-606 | The powers of {03} have order exactly 255, so walking them visits every nonzero byte. |
| Gf256.InverseExists | src/crypto/aes.c:572-606 | Every nonzero byte has an inverse, found on that walk. |
| AesTables.Generate | src/crypto/aes.c:572-625 | The tables hold, for every byte, its S-box value or inverse with the multiples that MixColumns or InvMixColumns needs. |
| AesTables.GenerateSBox | src/crypto/aes.c:572-609 | Walking the powers of {03} and of its inverse fills in the S-box of the standard for every byte. |
| AesTables.GenerateProducts | src/crypto/aes.c:611-624 | Both tables are completed for every byte. |
| AesTables.FillInvMixCorrect | src/crypto/aes.c:522-566 | An entry's bytes become the multiples of its last byte by 9, 11, 13 and 14. |
| AesTables.DividesByThree | src/crypto/aes.c:586-596 | The shifts and masks are the inverse of multiplication by {03}. |
| AesRounds.RoundIsStandard | src/crypto/aes.c:158-263 | A table-driven round is SubBytes, ShiftRows, MixColumns and AddRoundKey, for every state and key. |
| AesRounds.InvRoundIsStandard | src/crypto/aes.c:158-263 | With the other table and stride it is the inverse transformations followed by AddRoundKey. |
| AesRounds.FinalIsStandard | src/crypto/aes.c:362-388 | The final round is the round of the standard without MixColumns. |
| AesRounds.InvFinalIsStandard | src/crypto/aes.c:362-388 | The same for the inverse. |
| AesRounds.StridedIsProduct | src/crypto/aes.c:192-212 | Walking with a stride visits the multiples of the stride modulo 16. |
| AesRounds.EncryptionIsCipher | src/crypto/aes.c:398-424 | All rounds together are the cipher of the standard. |
| AesRounds.DecryptionIsInvCipher | src/crypto/aes.c:434-460 | With keys that are InvMixColumns of the reversed encryption keys, all rounds are the inverse cipher: the equivalent inverse cipher of section 5.3.5. |
| AesRounds.DecryptUndoesEncrypt | src/crypto/aes.c:398-460 | The table-driven decryption undoes the table-driven encryption. |
| Aes.CryptRounds | src/crypto/aes.c:278-336 | The rounds over two buffers that change places leave the result in the one expected, for every odd number of rounds. |
| Aes.Final | src/crypto/aes.c:362-388 | The last round of a state writes the output block; the state, a value here, is in another buffer. |
| Aes.ExpandKey | src/crypto/aes.c:719-756 | The in-place expansion computes every word of the key expansion of the standard, for all three key lengths; the rows below say byte by byte what these words are. |
| FipsLaws.FirstWord | src/crypto/aes.c:719-722 | The first words of the expansion are the key. |
| FipsLaws.TurnedWord | src/crypto/aes.c:725-745 | Byte by byte, each word at a multiple of the key length adds the previous word, turned by one byte and substituted, and a power of {02} to the word one key length before. |
| FipsLaws.MiddleWord | src/crypto/aes.c:725-745 | For 256-bit keys the middle word of each eight adds the previous word, substituted but not turned. |
| FipsLaws.OtherWord | src/crypto/aes.c:744-756 | Every other word adds the previous one. |
| FipsLaws.RoundKeysAre | src/crypto/aes.c:693-717 | There are 11, 13 or 15 round keys, made of four successive words each. |
| FipsLaws.ScheduleAnswer128 | src/crypto/aes.c:719-756 | Word 4 of the 128-bit example in appendix A.1 of the standard is a0fafe17. |
| FipsLaws.ScheduleAnswer256 | src/crypto/aes.c:719-756 | Words 8 and 12 of the 256-bit example in appendix A.3 are 9ba35411 and a8b09c1a. |
| Aes.InvertKey | src/crypto/aes.c:760-775 | A final round followed by an inverse round turns the reversed keys into their InvMixColumns, and the outer two keys are only reversed. |
| Aes.InvMixColumnsByRounds | src/crypto/aes.c:764-774 | A final round with a zero key followed by an inverse round with a zero key is InvMixColumns. |
| Aes.Context.SetKey | src/crypto/aes.c:681-780 | For a key of 128, 192 or 256 bits both schedules are set up; any other length is an error that changes nothing. |
| Aes.Context.Encrypt | src/crypto/aes.c:398-424 | The destination, which may be the source, becomes the cipher of the source. |
| Aes.Context.Decrypt | src/crypto/aes.c:434-460 | The destination, which may be the source, becomes the inverse cipher of the source. |
| Aes.AesRoundTrip | src/crypto/aes.c:398-460 | For every key of a supported length, each of encryption and decryption undoes the other on every block. |
| WrapSpec.UnwrapWrapped | src/crypto/aes_wrap.c:85-124 | For every invertible cipher, number of blocks and choice of step values, unwrapping undoes wrapping. |
| WrapSpec.WrapUnwrapped | src/crypto/aes_wrap.c:38-71 | And wrapping undoes unwrapping. |
| WrapSpec.WrapIsRfc3394 | src/crypto/aes_wrap.c:55-67 | While the last step number fits in a byte, wrapping is that of section 2.2.1 of RFC 3394, for every cipher. |
| WrapSpec.UnwrapIsRfc3394 | src/crypto/aes_wrap.c:101-113 | The same for unwrapping and section 2.2.2. |
| WrapShift.WrapShifts | src/crypto/aes_wrap.c:55-67 | For every cipher, after every number of passes and steps, the in-place passes agree with the registers of RFC 3394 that shift by one block in each step. |
| WrapSpec.IdentityDiffers | src/crypto/aes_wrap.c:55-67 | Once six times the number of blocks needs two bytes, the identity cipher gives another result than RFC 3394 on every input. |
| AesWrap.Wrap | src/crypto/aes_wrap.c:38-71 | The nested loops over the destination buffer perform six passes of wrapping on the plaintext, whose first block is lost if source and destination are the same buffer; without memory nothing is written. |
| AesWrap.WrapIsShift | src/crypto/aes_wrap.c:38-71 | While six times the number of blocks fits in a byte, the result is that of six shifting steps for each block from the initial value of eight bytes {a6}. |
| AesWrap.Unwrap | src/crypto/aes_wrap.c:85-124 | The loops undo six passes, also within one buffer; the status is zero if and only if the register has its initial value, and nothing after the plaintext is written. |
| AesWrap.UnwrapOfWrap | src/crypto/aes_wrap.c:85-124 | Unwrapping what was wrapped under the same key gives the plaintext and an intact register. |
| AesWrap.WrapOfUnwrap | src/crypto/aes_wrap.c:38-71 | Whatever unwraps with an intact register is the wrapping of its plaintext. |
| AesWrap.InPlaceExactly | src/crypto/aes_wrap.c:51-53 | Wrapping in place gives the same as between two buffers if and only if there is no block or the first one equals the initial value. |
| AesWrap.ZerosInPlace | src/crypto/aes_wrap.c:35-36 | Under every key, eight zero bytes are wrapped wrongly in place. |
| BigInt.ModMultiply | src/crypto/bigint.c:63-120 | The result is the product modulo the modulus, or for a zero modulus modulo the width, for all operands of the width. |
| BigInt.Rescale | src/crypto/bigint.c:94-101 | Shifting the modulus up to the product never overflows the double width. |
| BigInt.Reduce | src/crypto/bigint.c:103-110 | Each step keeps the result below twice the shifted modulus, and the last leaves it below the modulus. |
| BigInt.ModExp | src/crypto/bigint.c:133-168 | The result is the power modulo the modulus, except that the zeroth power is 1. |
| BigInt.ExactWhen | src/crypto/bigint.c:133-168 | It is the power modulo the modulus unless the modulus is 1 and the exponent 0, and only then. |
| SanPaths.HandleAllSound | src/core/sanboot.c:191-318 | In every state that events lead to, each path is in exactly one of the two lists and the active path is open. |
| SanPaths.WaitSound | src/core/sanboot.c:381-407 | When the wait is over a path is active, with status zero, or all are closed, with the status of the first to be closed. |
| SanPaths.ZeroReported | src/core/sanboot.c:388-403 | Over any events, that status is zero if and only if two different paths become available before any is lost. |
| SanPaths.LossReported | src/core/sanboot.c:388-403 | If a path is lost before two become available, the status is that of its loss, and -ENOTCONN if it was lost without one. |
| SanPaths.WaitGoesOn | src/core/sanboot.c:381-407 | The wait goes on after each step but the last, because no path is active and some are open. |
| SanPaths.HandleReceived | src/core/sanboot.c:191-318 | What each event does to one path, with all other paths in the same lists in the same order. |
| SanPaths.ZeroWithoutPath | src/core/sanboot.c:381-403 | A wait over any number of steps that ends without an active path reports success if and only if that happens in the events of the steps it took, and otherwise the status of the first loss among them. |
| SanPaths.SteadyWait | src/core/sanboot.c:381-407 | If no step delivers two events, zero is reported only with an active path. |
| SanPaths.LostRace | src/core/sanboot.c:294-318 | Two paths that become available in one step, of which the first is lost, leave no path and status zero. |
| SanTransfers.DeliverAllHonest | src/core/sanboot.c:136-146 | Whatever arrives, a command that ended with status zero has all its data in its part of the buffer, and nothing else in the buffer changed. |
| SanTransfers.CommandEnds | src/core/sanboot.c:177-183 | Over any events, the first completion of the command, time-out or loss of the path it was sent on ends it, and nothing else does; its status is that of this event, or of the last later loss of a path that was then active. A loss without a status counts as -ENOTCONN and a time-out as -ETIMEDOUT. |
| SanTransfers.CommandEndsAs | src/core/sanboot.c:538-546 | The wait for a command is over exactly if such an event is among those of the steps it took, with a status as above. |
| SanTransfers.EndsInLastStep | src/core/sanboot.c:538-546 | No event of a step before the last that the wait takes ends the command. |
| SanBoot.Device.Receive | src/core/sanboot.c:177-318 | Each event updates lists, active path, timer, status and data together; what becomes of every path, of the active path and of the order of the lists is stated of the fields. |
| SanBoot.Device.Restart | src/core/sanboot.c:341-355 | All paths are closed, none is active and no command is outstanding. |
| SanBoot.Device.Reopen | src/core/sanboot.c:365-414 | If every path can be opened, the result is that of the wait with all paths in progress, and otherwise the status of the first that cannot; on return some open path is active, with status zero, or every path is closed, and then the status is zero if and only if two paths became available before any was lost, and otherwise that of the first loss. |
| SanBoot.Device.Command | src/core/sanboot.c:499-557 | It succeeds if and only if one of the commands that it initiated did, which is then the last, and the requested blocks are in the buffer whatever failed ones left there; failure means that commands, with one path together with delays, are exactly one more than the limit on retries, and that all of them failed; waiting means that no more events come. |
| SanBoot.Device.Attempt | src/core/sanboot.c:529-546 | A command that cannot be initiated ends with that status, and any other exactly when a completion, a time-out or the loss of its path is among the events of the steps taken, with the status of the first of these or of the last loss after it; without one it is still waiting. |
| SanBoot.Device.ReadBlocks | src/core/sanboot.c:587-625 | It succeeds if and only if one command succeeded for each fragment, and the fragments together are then exactly the requested blocks, in order, for every maximum fragment; failure means that the commands for the last fragment, all failed, used up the retries. Addresses wrap around at 64 bits. |
| SanBoot.Device.Read | src/core/sanboot.c:636-645 | It succeeds if and only if one command succeeded for each fragment; if neither the count nor any address overflows, the buffer then holds exactly the bytes of the requested blocks of the shifted size. |
| SanBoot.FragmentsRounded | src/core/sanboot.c:602-622 | There are as many fragments as the count divided by the maximum, rounded up. |
| SanBoot.Device.ParseIso9660 | src/core/sanboot.c:755-815 | The device becomes a CD-ROM exactly if a shift gives blocks of 2048 bytes and the primary descriptor is there: a one and the letters CD001 at byte 32768; its block size is then 2048. |
| SanBoot.CdromShift | src/core/sanboot.c:770-781 | The smallest shift that reaches 2048; if it goes past, no shift reaches it. |
| SettingsSpec.MovedSorted | src/core/settings.c:437-465 | Moving one block to its place leaves only its ancestors out of place, in every tree. |
| SettingsSpec.StoredSorted | src/core/settings.c:615-650 | Storing a priority leaves only the block and its ancestors out of place. |
| SettingsSpec.FindFrame | src/core/settings.c:666-720 | The priority found for a block depends on nothing outside its own part of the tree. |
| SettingsSpec.InsertionSorted | src/core/settings.c:453-461 | Inserting before the first block of lower priority keeps a list in order. |
| SettingsSpec.InsertionPlace | src/core/settings.c:453-461 | The block comes after every block of the same or a higher priority and before every other. |
| SettingsSpec.SortedDescends | src/core/settings.c:426-436 | In an ordered list no block comes after one of lower effective priority. |
| SettingsLinks.LinkedSorted | src/core/settings.c:492-496 | Adding a block leaves only it and its new ancestors out of place. |
| SettingsLinks.DetachedSorted | src/core/settings.c:514-534 | Removing a block with everything below it leaves only its former ancestors out of place. |
| SettingsLinks.DetachedExactly | src/core/settings.c:514-534 | Exactly the blocks that are neither the removed one nor below it keep their parents, in the same order. |
| Settings.Blocks.Reprioritise | src/core/settings.c:437-465 | If only a block and its ancestors are out of place, all sibling lists of all trees are in order afterwards. |
| Settings.Blocks.StorePriority | src/core/settings.c:615-650 | After storing or clearing a priority all sibling lists are in order of effective priority. |
| Settings.Blocks.Register | src/core/settings.c:475-507 | After registering a block, again or for the first time, all sibling lists are in order and no two siblings have the same name; the block is under its parent, and nothing else has left the tree but a former child of that name with everything below it. With the empty name it is the parent that leaves, with everything below it, and the lists are in order if and only if its removal leaves them so. |
| Settings.Blocks.Unregister | src/core/settings.c:514-534 | The recursive removal detaches the block and everything below it, and nothing else. |
| SettingsOrder.DetachedOrder | src/core/settings.c:514-534 | After a block is removed all sibling lists are in order if and only if each of its former ancestors is still in its place among its siblings. |
| SettingsOrder.OutOfOrder | src/core/settings.c:514-534 | A tree in which removing a block leaves two siblings out of order. |
| Settings.Blocks.Fetch | src/core/settings.c:666-720 | There is no result exactly if no block of the tree below has the setting; otherwise it is that of the block for which no block on the path to it has the setting, and none in any earlier part of the tree. |
| SettingsSearch.NoneFound | src/core/settings.c:666-720 | The search finds nothing if and only if neither the block nor any below it has the setting. |
| SettingsSearch.FoundIsFirst | src/core/settings.c:666-720 | What is found belongs to a block such that none above it has the setting, and none in a subtree that hangs, in sibling order, before its path. |
| SettingsSearch.FirstUnique | src/core/settings.c:666-720 | There is only one such block. |
| Settings.Blocks.Priority | src/core/settings.c:1053-1059 | The effective priority, zero if there is none. |
| SettingsNumbers.NumericValue | src/core/settings.c:966-987 | The word holds the sign-extended number, and an error is reported exactly if a byte that does not fit is not a copy of the sign, which is exactly if the number is not within one word of zero. |
| SettingsNumbers.SignedExactly | src/core/settings.c:966-987 | The sign-extended number is congruent to the unsigned one modulo its width and in the range of two's complement. |
| SettingsNumbers.NumericExact | src/core/settings.c:966-987 | A number of at most a word's bytes is decoded exactly. |
| SettingsNumbers.OverflowsExactly | src/core/settings.c:977-984 | For every length, the byte by byte test refuses exactly the numbers below minus one word or not below one word. |
| SettingsNumbers.SignKept | src/core/settings.c:977-984 | A signed number that is accepted is what the word holds if and only if the uppermost bit that fits in the word is a copy of the sign. |
| SettingsNumbers.SignLost | src/core/settings.c:977-984 | Nine bytes that stand for a positive number are accepted and give a negative word. |
| Der.DecodeEncode | src/crypto/asn1.c:98-258 | Every forest of typed objects under 2^31 bytes is recovered from its encoding. |
| Der.HeaderRead | src/crypto/asn1.c:98-147 | A header that was written is read back as the length of its body, whatever follows. |
| Der.ShortForm | src/crypto/asn1.c:98-147 | A tag other than the one expected is refused; a length octet under 128 is the length, and is refused if so much does not follow. |
| Der.PartsBit | src/include/ipxe/asn1.h:89-98 | In every class the lower half of the identifiers is primitive and the upper half constructed. |
| Der.AcceptedLength | src/crypto/asn1.c:137-146 | No accepted length exceeds the rest of the cursor. |
| Der.LengthBytesMinimal | src/crypto/asn1.c:739-759 | Length octets have no leading zero. |
| Asn1.Header | src/crypto/asn1.c:739-759 | The octets filled in backwards are the header of section 10.1 of X.690: tag and length if the length is under 128, and otherwise the tag, the number of length octets and the octets, which have no leading zero and read back as the length. |
| Asn1.Cursor.Start | src/crypto/asn1.c:98-147 | The cursor moves to the body, whose length is read octet by octet into 32 bits; a length past 2^31 is an error. |
| Asn1.Cursor.Enter | src/crypto/asn1.c:160-174 | The cursor is the body, or invalid on any error; a wrong tag is an error, and after a length octet under 128 the body is exactly so many bytes. |
| Asn1.Cursor.Skip | src/crypto/asn1.c:187-227 | The cursor is what follows the object, or invalid at the end or on any error. |
| Asn1.Cursor.Shrink | src/crypto/asn1.c:240-258 | The cursor is exactly its first object, or invalid on any error. |
| Asn1.Walk | src/crypto/asn1.c:160-258 | Shrinking, entering and skipping reads exactly the objects that are there. |
| Asn1.Builder.Grow | src/crypto/asn1.c:768-791 | Success if and only if no failure is pending and memory is granted; the contents move up by the space made before them; after a failure all later calls fail if and only if there were contents. |
| Asn1.Builder.Prepend | src/crypto/asn1.c:824-842 | The encoding of an object goes before the contents, under the same condition. |
| Asn1.Builder.Wrap | src/crypto/asn1.c:851-867 | The contents become the body of an object, under the same condition. |
| Asn1.Build | src/crypto/asn1.c:768-867 | Building from back to front writes the encoding of every forest of objects, and succeeds if and only if every reallocation that it takes is granted. |
| Asn1.Chain | src/crypto/ocsp.c:166-179 | Several calls of which only the last status is looked at: it is zero if and only if, from some call on, all are granted memory, and those before were refused it, or had nothing to add, on an empty builder; the contents are then those of the later calls. |
| Asn1.ChainExactly | src/crypto/ocsp.c:166-179 | After a last status of zero everything has been written if and only if no call that had something to add was refused; with contents before, or after the first call, the last status is zero if and only if all calls were granted. |
| Asn1.Forgets | src/crypto/asn1.c:772-786 | A builder that is refused memory while it is empty succeeds on the next call, without what was to be written first. |
| LineBuf.Feed | src/core/linebuf.c:91-143 | However a stream without NULs is cut into pieces, the lines are those of the whole stream, without their LF and at most one CR; there is an error if and only if there is a NUL. |
| LineBuf.LinesAppend | src/core/linebuf.c:91-143 | Complete lines may be split off a stream before the rest arrives. |
| LineBuf.LinesLaw | src/core/linebuf.c:91-143 | A line ends at the first LF, and one CR before it is not part of it. |
| LineBuf.LineBuffer.Buffer | src/core/linebuf.c:91-143 | Bytes up to the first LF are consumed and kept as the lines and the rest of the stream so far; a NUL among them, or lack of memory, changes nothing. |
| LineBuf.LineBuffer.BufferedLine | src/core/linebuf.c:45-58 | The line that the last call completed, and none if it completed none. |
| Time.Consecutive | src/core/time.c:117-145 | Consecutive days from 1970 on have consecutive numbers, across months, leap days and centuries. |
| Time.TomorrowValid | src/core/time.c:107-109 | The day after a valid date is a valid date. |
| Time.AfterItsNumber | src/core/time.c:117-133 | Every valid date is as many days after the first of January 1970, counted one by one, as its number says. |
| Time.NumberOfAfter | src/core/time.c:117-133 | And every number is that of the date so many days after. |
| Time.Epoch | src/core/time.c:132-133 | The first of January 1970 is day zero. |
| Time.KnownDates | src/core/time.c:117-133 | The day numbers of the last day of 1999, the leap day of 2000 and the last day of 32-bit time. |
| Time.KnownMonths | src/core/time.c:107-109 | The lengths of all twelve months. |
| Time.IsPosix | src/core/time.c:117-145 | The seconds are those of the formula in section 4.15 of POSIX:2008. |
| Time.WeekdayAgrees | src/core/time.c:96-105 | The separately computed weekday is the day number plus 4, modulo 7. |
| Time.LeapIsGregorian | src/core/time.c:60-71 | Leap years are those of the Gregorian calendar. |
| Time.LeapYearCounted | src/core/time.c:79-87 | The count of leap years grows by one with each leap year. |
| Time.Tm.MkTime | src/core/time.c:117-145 | For a valid date, the seconds of as many whole days as it is after the first of January 1970, counted one by one, and of the time of day; the weekday from the same count; and from 1970 on the POSIX formula. |
| Process.Fair | src/core/process.c:98-121 | A process with k others ahead of it is among the first k + 1 that successive steps execute unless it is deleted, whatever others add, delete or reschedule. |
| Process.Scheduler.Run | src/core/process.c:98-121 | Successive steps execute exactly those processes. |
| Process.Scheduler.RunsInTurn | src/core/process.c:98-121 | So the process has run after k + 1 steps of the scheduler. |
| Process.Scheduler.Step | src/core/process.c:98-121 | The first process is moved to the end, or taken off if it is to run once, before it executes; every process that stays on and that its actions do not delete is on the queue afterwards, and one taken off is not unless it is added again; no process is on the queue twice, and the queue holds one reference to each. |
| Process.KeptThrough | src/core/process.c:98-121 | What a step and the actions of its process leave on the queue, told from the actions alone. |
| Process.Scheduler.ProcessAdd | src/core/process.c:59-69 | The process is on the queue afterwards, at the end if it was not before, with one reference, however often it is added. |
| Process.Scheduler.ProcessDel | src/core/process.c:79-90 | The process is not on the queue afterwards, and all others are, in the same order; its reference goes with it; deleting it again has no effect. |

## Left out

- Memory contents in `Heap`: what realloc() copies and the debugging aids for memory checkers.
- Other cache discarders than the certificate store, and finding certificates, which only reorders the store.
- Heaps populated more than once, and alignments that are not powers of two.
- InterfaceLookup.Lookup: requires that the lookup does not go round in a loop of pass-through filters, because the code never returns from one.
- Interfaces that pass a close on instead of handling it; those with pass-through have a close method in this code. An object has one close method for all its interfaces, and what a free method does is only recorded.
- Reporting of the capacity by a block device translator before it closes.
- Endianness and unions in the cipher; columns are four-byte sequences. Cipher modes.
- Big integer primitives on limbs; they are functions on values here.
- SanTransfers.DeliverAllHonest: that a command which the device ends with status zero has transferred its data is assumed of the device, and is how that event is modelled.
- Writing to a SAN device, which runs the same loop; ACPI descriptors; reading the capacity. A delay of several seconds is one step of the script.
- SanBoot.Device.ParseIso9660: requires a block size above zero, because the loop that doubles it does not end otherwise.
- Settings.Blocks.Register: requires, for an empty name, a parent that is itself registered, because the code then follows the pointer to the parent's own parent; and of a block that is already registered that its parent and name stay the same, because otherwise the code links it into two lists.
- Settings.Blocks.StorePriority: requires at most eight bytes, because more are decoded from beyond the buffer into which they are fetched, which has no meaning in C.
- Settings blocks with different values of `order`, redirection, clearing a whole block, settings other than the priority, and running the applicators.
- Integers and other typed contents of ASN.1 objects, and what asn1_skip_if_exists() leaves in the cursor on error.
- Dates before 1970, and leap seconds.
- Console, hardware drivers, ACPI, build configuration: plumbing without a property to prove.
