# KBoot in Dafny

A model of the self-contained algorithmic parts of the KBoot boot loader, with proofs of what
they promise. `dafny verify dfyconfig.toml` checks the whole project.

- **Memory managers.** `RangeMap.dfy` and `MemoryMap.dfy` model the map of physical memory: a
  sorted list of ranges that stands for a function from addresses to types; `MemoryHistory.dfy`
  follows whole runs of allocations and frees. `Heap.dfy` models `malloc`, `realloc` and `free`,
  `SpaceAllocator.dfy` the allocator of virtual address space.
- **Inflate.** `CanonicalCode.dfy` defines the canonical Huffman codes of RFC 1951,
  `HuffmanTable.dfy` the lookup table and overflow tree and the decoder that uses them,
  `MatchCopy.dfy` the ways a match is copied, `Adler32.dfy` the checksum.
- **Flattened device tree.** `FdtFormat.dfy` defines the structure block as a run of items,
  `FdtTree.dfy` relates items to trees, `FdtBlob.dfy` holds the buffer and the header,
  `FdtReader.dfy`, `FdtWriter.dfy` and `FdtEdit.dfy` are the reading, writing and editing
  functions, `FdtRoundTrip.dfy` and `FdtTreeEdit.dfy` state what a client sees, `FdtClient.dfy`
  joins the three. `FdtNodes.dfy` gets from node to node and writes in place, and `FdtOverlay.dfy`
  and `FdtFixups.dfy` are the first steps of applying an overlay: its phandles are shifted and the
  references inside it follow; `FdtVerdict.dfy` says when they do. `FdtBytes.dfy` and `FdtNames.dfy`
  say in bytes and texts what blocks and names look like.
- **Compressed files.** `Decompress.dfy` turns a forward-only decoder into reads at any offset.
- **Configuration.** `ConfigParser.dfy` is the grammar of configuration files as functions,
  `ConfigReader.dfy` the parser that works character by character, `ConfigRoundTrip.dfy` and
  `ConfigImage.dfy` relate text and command lists in both directions, `ConfigNumbers.dfy` does so
  for numbers in every notation, `ConfigScan.dfy` tells from a one-pass scan of the text how a
  parse ends, and `ConfigSample.dfy` gives files that are accepted and refused.
- **Arithmetic and sorting.** `UDivMod.dfy` is 64-bit division from 32-bit words, `QSort.dfy`
  the quicksort on an explicit stack, `Bits.dfy` numbers as bit strings, `Common.dfy` what several
  modules use.

Code that works in place is imperative here too: range list, heap, Huffman table and blob are
classes whose methods reassign the fields or write the arrays that the source changes, with the
source's loops. Beside each stands a specification: the address-to-type function and its
canonical list, the list of live allocations, the canonical code, the sequential overlapping
copy, the items and the tree a blob stands for. The methods are proved against it, and the
promises are proved about it.

Where the code does not do what is wanted of it, the exact case is stated, with an input: the
high search of `memory_alloc` (`MemoryMap.Misled`), the search of `allocator_alloc`
(`SpaceAllocator.Misled`), the token buffer after a failed parse (`ConfigScan.ParseEnds`), the
requests to the heap that get too small a chunk (`BootHeap.ServedFits`), reads past the end of
a compressed file (`Decompress.Reader.Failure`), the room test of `fdt_add_string_`
(`FdtWriter.StringTestExact`), the step of `fdt_next_tag` (`FdtFormat.NextTagProgress`), overlay
phandles of 0 (`FdtOverlay.ApartFromBase`), references listed more than once
(`FdtFixups.ReferencesFollow`) and a reserve map with an empty entry (`FdtRoundTrip.MapReadsBack`).

Several specifications come as a value of a small enumeration (`State(..) == Intact`) rather
than as a predicate. That keeps proof obligations small: a method can then say that the state is
intact without the statement being taken apart at every use.

## Model

| member | source | states |
|---|---|---|
| MemoryMap.RangeList.MemoryAlloc | source/memory.c:483-530 | In terms of the arguments, for the whole map: none exactly if no block of that size is wholly FREE, below 4 GiB, no lower than the minimum or else than that of the platform, no higher than a given maximum, and aligned as asked or else to a page; otherwise the highest such block with the HIGH flag and the lowest without; only that block changes. The search goes to a wild block exactly when it is misled |
| MemoryMap.WantedIsFits | source/memory.c:496-507 | The limits that memory_alloc arranges are those of the request, default values included |
| MemoryMap.MisledExact | source/memory.c:497-521 | In terms of the arguments: a search is misled if and only if it goes from the top, no block is wanted, the limits are in order, and a free range above the lowest address ends below the size of the request |
| MemoryMap.RangeList.FindFree | source/memory.c:497-521 | The scan over the list, in either direction, gives the best suitable block of the whole map, exactly unless it is misled |
| MemoryMap.IsSuitableRange | source/memory.c:430-466 | 64-bit test of one range, wrap-around included: yes iff some aligned block fits, and then the address is the best one in that range |
| MemoryMap.SmallNeverMisled | source/memory.c:447-447 | A request no larger than the lowest permitted address is never misled |
| MemoryMap.MisledExample | source/memory.c:447-447 | A concrete map and request for which the subtraction wraps and the high search accepts a range that cannot hold the block |
| MemoryMap.UnderflowMeansNoFit | source/memory.c:440-456 | In the wrapping case no block fits the range at all |
| MemoryMap.RangeList.MemoryFree | source/memory.c:538-556 | On page-aligned input the block becomes FREE, the map stays canonical and nothing else changes |
| MemoryHistory.FreeHolds | source/memory.c:538-556 | Freeing a held block leaves the map with the other held blocks |
| MemoryHistory.AllocHolds | source/memory.c:483-530 | A new block overlaps no held one and joins them |
| MemoryHistory.HeldCanBeFreed | source/memory.c:538-556 | A held block is wholly of its own type, so memory_free accepts it |
| MemoryHistory.RunHolds | source/memory.c:483-556 | After any part of any run of allocations and frees the map is the first one with exactly the blocks in use taken from its free memory |
| MemoryHistory.RunFreeable | source/memory.c:538-556 | At any point of a run every block in use can be freed |
| MemoryHistory.AllFreedRestores | source/memory.c:483-556 | Whenever a run of allocations and frees in any order has no block in use, the range list is identical to the one at the start |
| MemoryHistory.Session | source/memory.c:483-556 | Any calls of memory_alloc and memory_free, with any arguments they assert, each free of some block still held: every allocation takes the best block that fits exactly if one fits, every free succeeds, and the maps passed through form such a run |
| MemoryHistory.FreedAtOnce | source/memory.c:483-556 | An allocation and the free of its block, one after the other, leave the identical range list |
| MemoryMap.RangeList.MapInsert | source/memory.c:343-347 | The list stays sorted, disjoint, page aligned and maximally merged, and its address-to-type function changes exactly inside the inserted range |
| MemoryMap.RangeList.MapRemove | source/memory.c:355-358 | The same for removal: addresses in the range become unmapped, no other address changes |
| MemoryMap.RangeList.InsertRange | source/memory.c:264-340 | Insertion without merging: the resulting list equals the overlay of the new range on the old list |
| MemoryMap.RangeList.SwallowFollowing | source/memory.c:311-337 | The loop removes or trims exactly the followers the new range overlaps |
| MemoryMap.RangeList.ClipPrevious | source/memory.c:286-308 | A predecessor is trimmed, or split in two when it reaches past the new range |
| MemoryMap.RangeList.MergeRanges | source/memory.c:236-256 | Merging with both neighbours restores canonical form without changing the address-to-type function |
| MemoryMap.RangeList.Finalize | source/memory.c:651-664 | INTERNAL becomes FREE everywhere, every other address keeps its type, and the list is canonical again |
| RangeMap.CanonicalUnique | source/memory.c:236-256 | Two canonical lists with the same address-to-type function are the same list |
| RangeMap.OverlayType | source/memory.c:264-340 | The function of an overlay: the new type inside the range, the old function outside |
| RangeMap.BlockInRange | source/memory.c:430-466 | On a canonical list a block of one type lies inside a single range, so looking at ranges one by one misses nothing |
| BootHeap.Heap.Malloc | source/memory.c:75-119 | A request that does not wrap around, and fits the heap if it is the first, is refused exactly if no free chunk has room for it and a header; otherwise it gets the first such chunk, less than a header more than it asked for, and what is left of the chunk stays free. For all requests the exact new chunk list; the internal error exactly for size 0 and when no chunk fits; wild exactly when the 64-bit total wraps around to less than a header and a chunk is found for it; the live allocations are the old ones and the new one |
| BootHeap.ServedNew | source/memory.c:104-119 | The new allocation is live, at least as large as the rounded request and less than a header larger, and exactly as large unless the chunk is used up; the free bytes become fewer by it and its header |
| BootHeap.SplitExample | source/memory.c:104-112 | A fresh heap: 80000 bytes leave 51040 bytes free, which serve the next request |
| BootHeap.ServedFits | source/memory.c:82-112 | For every size: what malloc returns has room for the request and its header exactly if the rounded size and the header do not wrap around 64 bits and a very first request does not exceed the heap |
| BootHeap.ServedFitsExample | source/memory.c:86-112 | A first request for all bytes of the heap gets a chunk that lacks its header |
| BootHeap.WrappedExample | source/memory.c:82-112 | The largest size is granted a bare header by any free chunk, and a size eight less asks for a chunk smaller than its header |
| BootHeap.RoundedTotal | source/memory.c:82-84 | Rounding in 64 bits gives less than the size exactly for the last seven sizes, which become 0; a total of at least a header is a true sum |
| BootHeap.Heap.Free | source/memory.c:156-185 | A used chunk becomes free and joins free neighbours on both sides, a double free is reported and changes nothing; the live allocations are the old ones without that one |
| BootHeap.JoinedOk | source/memory.c:168-184 | Freeing keeps the chunks tiling the heap with no two free neighbours and removes one live allocation |
| BootHeap.ServedOk | source/memory.c:106-118 | Serving a request keeps the chunks tiling the heap with no two free neighbours and adds one live allocation |
| BootHeap.FillUnique | source/memory.c:156-185 | The live allocations determine the whole chunk list |
| BootHeap.MallocFree | source/memory.c:75-185 | An allocation freed at once gives back the identical chunk list |
| BootHeap.AllFreed | source/memory.c:156-185 | Freeing all live allocations, in any order, gives one free chunk |
| BootHeap.ServedKeeps | source/memory.c:75-119 | A new allocation overlaps no live allocation, and all of those keep address and size |
| BootHeap.Heap.Realloc | source/memory.c:127-152 | Succeeds exactly if the rounded size is unchanged, and then nothing moves, or it is not 0 and a free chunk is large enough, and then into the first such chunk; the new allocation is less than a header larger than was asked for, begins with the old contents as far as they fit, and every other live allocation keeps place, size and bytes; a null address allocates; size 0 frees; wild as malloc is |
| BootHeap.MoveKeeps | source/memory.c:144-149 | Copying into the new allocation and freeing the old one changes no third allocation |
| HuffmanTable.HuffTable.Build | 3rdparty/miniz/tinfl.c:177-199 | For any code lengths: success iff they are complete or use at most one symbol; then table and tree slots are exactly those of the canonical code, every lookup entry included |
| HuffmanTable.HuffTable.InsertAll | 3rdparty/miniz/tinfl.c:186-199 | All symbols inserted: each code of RFC 1951 section 3.2.2 is reachable by its reversed bits and nothing else is |
| HuffmanTable.HuffTable.InsertLong | 3rdparty/miniz/tinfl.c:190-198 | A code longer than ten bits is threaded into the tree without disturbing any other code |
| HuffmanTable.HuffTable.InsertShort | 3rdparty/miniz/tinfl.c:190-190 | A short code fills every lookup slot that begins with its reversed bits |
| HuffmanTable.NodesFit | 3rdparty/miniz/tinfl.c:193-198 | The tree never needs more than 576 slots, whatever the code lengths |
| HuffmanTable.HuffTable.ReverseCode | 3rdparty/miniz/tinfl.c:189-189 | The reversal loop yields the code with its bits in the opposite order |
| HuffmanTable.HuffTable.FirstCodes | 3rdparty/miniz/tinfl.c:180-185 | The next-code array holds the first canonical code of each length, and the check accepts exactly the complete codes and those of at most one symbol |
| HuffmanTable.HuffTable.CountLengths | 3rdparty/miniz/tinfl.c:179-179 | The counters hold the number of symbols of each length |
| HuffmanTable.HuffTable.Decode | 3rdparty/miniz/tinfl.c:86-90 | On any bit buffer of at least 15 bits it returns the one symbol whose canonical code is a prefix, and that code's length |
| HuffmanTable.DecodesUnique | 3rdparty/miniz/tinfl.c:77-90 | At most one symbol and length can be decoded from a bit buffer |
| HuffmanTable.HuffTable.Decodable | 3rdparty/miniz/tinfl.c:60-69 | The slow path's test says yes exactly when the bits already in the buffer contain a whole code |
| HuffmanTable.HuffTable.FillBits | 3rdparty/miniz/tinfl.c:58-71 | No byte is fetched beyond the last one the next code needs |
| HuffmanTable.HuffTable.HuffDecode | 3rdparty/miniz/tinfl.c:77-90 | Refill and decode together: the symbol is the first code of the input, and exactly its bits leave the buffer |
| CanonicalCode.PrefixFree | 3rdparty/miniz/tinfl.c:180-189 | No canonical code is a prefix of another |
| CanonicalCode.SomeMatches | 3rdparty/miniz/tinfl.c:180-189 | With a complete code every bit string of 15 bits starts with some code |
| CanonicalCode.AtMostOneMatches | 3rdparty/miniz/tinfl.c:180-189 | No bit string starts with two codes |
| CanonicalCode.FirstIsKraft | 3rdparty/miniz/tinfl.c:180-181 | The shifted running total is the Kraft sum of the lengths so far |
| CanonicalCode.Rfc1951Example | 3rdparty/miniz/tinfl.c:180-189 | The example of RFC 1951 section 3.2.2: the codes of eight symbols with lengths from 2 to 4 |
| CanonicalCode.AcceptedExamples | 3rdparty/miniz/tinfl.c:180-183 | Length assignments that are accepted and refused: no symbol, one symbol, a complete code; an incomplete and an oversubscribed one |
| MatchCopy.CopyMatch | 3rdparty/miniz/tinfl.c:281-334 | Every copy path gives the sequential, overlapping copy of RFC 1951 section 3.2.3 through a window that wraps around |
| MatchCopy.StaleWindow | 3rdparty/miniz/tinfl.c:283-291 | A wrapping buffer is always the window of some stream that reaches back a full buffer, so a distance beyond the bytes put out so far copies what stood there |
| MatchCopy.CopyWrapped | 3rdparty/miniz/tinfl.c:289-297 | The byte loop with masked indices is that copy, stopping at the buffer end |
| MatchCopy.CopyBlocks | 3rdparty/miniz/tinfl.c:299-307 | The eight-byte loop is that copy when source and destination are far enough apart |
| MatchCopy.CopyTriples | 3rdparty/miniz/tinfl.c:321-334 | The three-byte loop with its tail is that copy, overlap included |
| MatchCopy.CopyFast | 3rdparty/miniz/tinfl.c:298-334 | The choice between the two fast loops never changes the result |
| MatchCopy.ExpandPeriodic | 3rdparty/miniz/tinfl.c:281-334 | A copy longer than its distance repeats the last bytes with that period |
| MatchCopy.MatchLengths | 3rdparty/miniz/tinfl.c:94-95 | The length tables give the lengths of RFC 1951 section 3.2.5 |
| MatchCopy.LengthsContiguous | 3rdparty/miniz/tinfl.c:94-95 | Length codes cover 3 to 258 without gap |
| MatchCopy.MatchDistances | 3rdparty/miniz/tinfl.c:96-97 | The distance tables give the distances of RFC 1951 section 3.2.5 |
| MatchCopy.DistancesContiguous | 3rdparty/miniz/tinfl.c:96-97 | Distance codes cover 1 to 32768 without gap or overlap |
| MatchCopy.ExtraBits | 3rdparty/miniz/tinfl.c:94-97 | The extra bits of RFC 1951 section 3.2.5: one more for every four length symbols and every two distance symbols |
| Adler32.Update | 3rdparty/miniz/tinfl.c:348-363 | For any buffer and start value: the low half is the sum of the bytes and the high half the sum of the low halves, modulo 65521, as RFC 1950 section 2.2 says; no 32-bit sum overflows and the loop ends although its first block may be empty |
| Adler32.FoldIsSum | 3rdparty/miniz/tinfl.c:348-363 | The sums kept byte by byte are the sums over all bytes, the second one weighted by distance from the end |
| Adler32.AbcExample | 3rdparty/miniz/tinfl.c:348-363 | The checksum of the text abc |
| Adler32.NoOverflow | 3rdparty/miniz/tinfl.c:351-361 | Within 5552 bytes both deferred sums stay below 2^32 |
| Adler32.FoldConcat | 3rdparty/miniz/tinfl.c:348-363 | The checksum of a concatenation is the checksum continued, so calls may split the data anywhere |
| UDivMod.UDivModDi4 | 3rdparty/compiler-rt/udivmoddi4.c:27-196 | For all 64-bit a and b != 0, a = q * b + r with r < b on every branch |
| UDivMod.DivideLoop | 3rdparty/compiler-rt/udivmoddi4.c:175-193 | The shift-subtract loop turns its starting registers into quotient and remainder, for divisors up to 2^64 - 1 |
| UDivMod.DivideRound | 3rdparty/compiler-rt/udivmoddi4.c:176-191 | One round brings down one bit and subtracts at most once |
| UDivMod.SignTrick | 3rdparty/compiler-rt/udivmoddi4.c:188-190 | The sign mask is all ones exactly when the remainder is not below the divisor |
| UDivMod.DivideByHigh | 3rdparty/compiler-rt/udivmoddi4.c:55-104 | Divisors whose low word is zero, all four cases |
| UDivMod.DivideByLow | 3rdparty/compiler-rt/udivmoddi4.c:106-143 | Divisors of one word, powers of two included |
| UDivMod.DivideByLong | 3rdparty/compiler-rt/udivmoddi4.c:144-168 | Divisors of two words |
| UDivMod.LoadHalves | 3rdparty/compiler-rt/udivmoddi4.c:100-167 | The shifted halves hold the dividend split at the right bit |
| QSort.QSort | source/lib/qsort.c:45-130 | For any total preorder and fewer than 9437183 elements: a sorted permutation; the scans stay in bounds, the run ends and the 40-slot stack never overflows |
| QSort.PushFits | source/lib/qsort.c:100-112 | Pushing the larger side keeps the smaller side within half the room of its level, so at most 20 parts are ever pushed |
| QSort.RoomEnough | source/lib/qsort.c:41-43 | Every array of fewer than 2^23 elements is within that bound |
| QSort.Scan | source/lib/qsort.c:76-96 | The two unguarded scans with exchanges cross with everything left of them at most the pivot and everything right of them at least |
| QSort.MedianOfThree | source/lib/qsort.c:71-74 | After the three comparisons the first element is a median and the second and last are sentinels for the scans |
| QSort.Partition | source/lib/qsort.c:61-99 | Two elements of the part can be out of order only if both are left, or both are right, of the pivot |
| QSort.InsertionSort | source/lib/qsort.c:114-124 | The tail loop sorts a short part in place |
| QSort.OrderedStep | source/lib/qsort.c:49-130 | Rearranging one pending part cannot put elements of other parts out of order |
| FdtWriter.CreateWithFlags | 3rdparty/libfdt/fdt_sw.c:109-141 | The initial state, with the reserve map behind the header rounded up to 48 bytes, and each error exactly when the source gives it |
| FdtWriter.AddReservemapEntry | 3rdparty/libfdt/fdt_sw.c:188-206 | In the first state an entry is appended to the map; in every other state BADSTATE; NOSPACE exactly when it does not fit |
| FdtWriter.FinishReservemap | 3rdparty/libfdt/fdt_sw.c:208-217 | Adds the terminator and enters the struct state |
| FdtWriter.FdtBeginNode | 3rdparty/libfdt/fdt_sw.c:219-234 | Appends one BEGIN_NODE item, or reports BADSTATE or NOSPACE and changes nothing |
| FdtWriter.FdtEndNode | 3rdparty/libfdt/fdt_sw.c:236-248 | Appends one END_NODE item, or reports BADSTATE or NOSPACE and changes nothing |
| FdtWriter.AddString | 3rdparty/libfdt/fdt_sw.c:250-265 | A new string goes in front of the strings block, whose other bytes stay; zero exactly when it does not fit, and outside exactly when the test is fooled |
| FdtWriter.StringTestExact | 3rdparty/libfdt/fdt_sw.c:257-260 | The unsigned room test agrees with "does not fit" exactly for strings that are not longer than the buffer below the strings block |
| FdtWriter.StringTestExample | 3rdparty/libfdt/fdt_sw.c:257-260 | A string of 64 bytes passes the test of a full buffer of 64 bytes |
| FdtWriter.FindAddString | 3rdparty/libfdt/fdt_sw.c:276-291 | An existing place of the name, suffixes of other strings included, with the block unchanged, or the name in front of it; zero exactly when there is no room |
| FdtBlob.PlaceExact | 3rdparty/libfdt/fdt.c:307-318 | A string is found exactly if it stands somewhere in the block, and at its first place |
| FdtWriter.PropertyPlaceholder | 3rdparty/libfdt/fdt_sw.c:293-323 | Appends one property item, its name found or added; or fails exactly when both together do not fit, with the added name taken out again and items, room and strings block as before |
| FdtWriter.FdtProperty | 3rdparty/libfdt/fdt_sw.c:325-335 | Appends the property with that name and value, or fails as the placeholder does |
| FdtWriter.FdtFinish | 3rdparty/libfdt/fdt_sw.c:337-384 | A finished tree with the same items and the same strings block: strings moved behind the structure, every name offset corrected, blocks back to back |
| FdtWriter.CorrectNames | 3rdparty/libfdt/fdt_sw.c:363-377 | The fix-up loop leaves every item readable with offsets counted from the start of the strings |
| FdtWriter.HalfwayStep | 3rdparty/libfdt/fdt_sw.c:363-377 | One round moves one item from the old way of counting to the new one |
| FdtWriter.FdtResize | 3rdparty/libfdt/fdt_sw.c:148-186 | Into a larger, smaller or the same buffer: same items and reserve map, NOSPACE exactly when they do not fit |
| FdtFormat.NextTagItem | 3rdparty/libfdt/fdt.c:161-213 | On a block that encodes items, fdt_next_tag steps from each item to the next |
| FdtFormat.NextTagProgress | 3rdparty/libfdt/fdt.c:161-213 | On any aligned block a successful step moves forward, except exactly over a property whose length word is 0xFFFFFFF4 |
| FdtFormat.NextTagExample | 3rdparty/libfdt/fdt.c:161-213 | A block of twelve bytes on which fdt_next_tag stays where it is |
| FdtFormat.OffsetPtrInBounds | 3rdparty/libfdt/fdt.c:139-159 | The 32-bit wrap-around tests amount to the plain bounds test for a tree within INT_MAX bytes |
| FdtFormat.EncodesInjective | 3rdparty/libfdt/fdt.c:161-213 | Bytes and strings determine the items: nothing is lost in the encoding |
| FdtFormat.EncodesSplice | 3rdparty/libfdt/fdt_rw.c:54-96 | Replacing a run of items replaces the bytes that encode it and no others |
| FdtFormat.PrependKeeps | 3rdparty/libfdt/fdt_sw.c:250-265 | Strings counted from the end of the block are found unchanged after a prepend |
| FdtReader.FdtNextTag | 3rdparty/libfdt/fdt.c:161-213 | The loops and tests compute the tag function on any structure block, malformed ones included, and at the end of the int range the offset that wraps around; the byte-level lemmas say what that function is |
| FdtBytes.PlainToken | 3rdparty/libfdt/fdt.c:199-213 | At any aligned place of any block: the bytes 00000002, 00000004 and 00000009 are the tags 2, 4 and 9, four bytes long |
| FdtBytes.BeginToken | 3rdparty/libfdt/fdt.c:177-184 | 00000001, a name and a NUL are the tag 1, padded to a multiple of four |
| FdtBytes.EndlessName | 3rdparty/libfdt/fdt.c:177-184 | A name without a NUL is reported as -11 |
| FdtBytes.PropToken | 3rdparty/libfdt/fdt.c:186-197 | 00000003 and a big-endian length are the tag 3 with header and data, padded to a multiple of four; -11 if that does not lie within the block |
| FdtBytes.NoToken | 3rdparty/libfdt/fdt.c:168-206 | Any other four bytes are reported as -11, and a place without four bytes as -8 |
| FdtBytes.SmallestTree | 3rdparty/libfdt/fdt_sw.c:219-384 | The block of a tree with one empty node, byte by byte, in both directions: sixteen bytes of which only the padding is free |
| FdtBytes.SampleBlock | 3rdparty/libfdt/fdt_sw.c:219-384 | A block with two properties and two child nodes, byte by byte |
| FdtBytes.EntryExample | 3rdparty/libfdt/fdt_sw.c:188-206 | A reserve map entry, byte by byte, in both directions: address and size, most significant byte first |
| FdtReader.FdtNextNode | 3rdparty/libfdt/fdt.c:239-277 | The next node, the way out of the node, or the error, with the depth tracked |
| FdtReader.NextNodeAt | 3rdparty/libfdt/fdt.c:239-277 | On any structure block and any offset: the result and depth of the scan over the bytes, or that it never ends |
| FdtReader.ScanOfItems | 3rdparty/libfdt/fdt.c:239-277 | On a block that encodes items the scan over the bytes is the scan over the items |
| FdtReader.NodeEndOffset | 3rdparty/libfdt/fdt_wip.c:73-81 | The offset right behind the end of the node |
| FdtReader.GetString | 3rdparty/libfdt/fdt_ro.c:34-98 | The length of the string at any offset of a finished or unfinished tree, or the error of the probe, BADOFFSET or TRUNCATED |
| FdtReader.GetProperty | 3rdparty/libfdt/fdt_ro.c:394-448 | The first property of the node with that name, NOPs skipped, or the error that ends the walk |
| FdtReader.FdtGetprop | 3rdparty/libfdt/fdt_ro.c:451-506 | The value a lookup in the node's property list gives |
| FdtReader.GetName | 3rdparty/libfdt/fdt_ro.c:300-336 | The node's name |
| FdtTree.FindIsLookup | 3rdparty/libfdt/fdt_ro.c:394-448 | The property search equals a lookup by name in the list of the node's properties |
| FdtTree.WalkTree | 3rdparty/libfdt/fdt.c:239-277 | Walking the items of a tree lists exactly its nodes in preorder with depth, name and properties |
| FdtTree.WalkIsNextNode | 3rdparty/libfdt/fdt.c:239-277 | That walk is fdt_next_node called again and again |
| FdtTree.ListingInjective | 3rdparty/libfdt/fdt.c:239-277 | Two trees with the same listing are the same tree |
| FdtTree.NodeEnd | 3rdparty/libfdt/fdt_wip.c:73-81 | From inside a tree the walk leaves it exactly behind its last item |
| FdtRoundTrip.WriteAndRead | 3rdparty/libfdt/fdt_sw.c:109-384 | Any tree and reserve map, names of any length: written with the sequential writer, finished and read back with node and property walks they give the listing of that tree, which no other tree has; this succeeds if and only if the flags are known and the finished tree fits the buffer |
| FdtRoundTrip.FinalSizeIs | 3rdparty/libfdt/fdt_sw.c:250-335 | The size of a finished tree is the sum of its parts without deduplication of names, and at most that with it |
| FdtRoundTrip.SizeExamples | 3rdparty/libfdt/fdt_sw.c:109-384 | The smallest finished tree has eighty bytes; a name that two properties share is kept once with deduplication and twice without |
| FdtRoundTrip.WriteTree | 3rdparty/libfdt/fdt_sw.c:219-335 | Writing a tree recursively appends exactly its items and names, and fails exactly if they do not fit together |
| FdtRoundTrip.WriteProps | 3rdparty/libfdt/fdt_sw.c:293-335 | The same for a list of properties |
| FdtRoundTrip.Dump | 3rdparty/libfdt/fdt.c:239-277 | The client loop over fdt_next_node reads every node with depth, name and properties |
| FdtRoundTrip.ReadProps | 3rdparty/libfdt/fdt_ro.c:338-354 | The client loop over property offsets reads all properties of a node in order |
| FdtRoundTrip.MapReadsBack | 3rdparty/libfdt/fdt_ro.c:189-199 | The reserve map reads back in full exactly when no entry has size zero |
| FdtRoundTrip.NumMemRsv | 3rdparty/libfdt/fdt_ro.c:189-199 | On any bytes: the index of the first entry of size zero, or TRUNCATED |
| FdtRoundTrip.EmptyOfMap | 3rdparty/libfdt/fdt_ro.c:189-199 | On a written map that is how many entries stand before the first empty one |
| FdtEdit.Splice | 3rdparty/libfdt/fdt_rw.c:54-68 | Everything behind the splice point moves by the difference; NOSPACE and BADOFFSET exactly as tested |
| FdtEdit.BlocksReplaced | 3rdparty/libfdt/fdt_rw.c:54-96 | After a splice the blob is that of the old items with the run replaced; reserve map and strings are as before |
| FdtEdit.FdtSetprop | 3rdparty/libfdt/fdt_rw.c:258-289 | The first property of that name gets the value, or a new one comes first in the node; NOSPACE exactly when it does not fit, and then tree and strings block are as before |
| FdtEdit.FindAddString | 3rdparty/libfdt/fdt_rw.c:127-153 | An existing place of the name or a new string at the end; NOSPACE changes nothing |
| FdtEdit.AddProperty | 3rdparty/libfdt/fdt_rw.c:202-233 | A new first property; when its bytes do not fit, the name it added goes out again |
| FdtEdit.FdtDelprop | 3rdparty/libfdt/fdt_rw.c:318-331 | The first property of that name is taken out, nothing else changes |
| FdtEdit.SubnodeOffset | 3rdparty/libfdt/fdt_ro.c:225-242 | The first child whose name matches, unit addresses optional, or the error |
| FdtNames.MatchExact | 3rdparty/libfdt/fdt_ro.c:13-32 | A node is found by its whole name, or by its name without the unit address and by nothing else |
| FdtNames.MatchExample | 3rdparty/libfdt/fdt_ro.c:13-32 | uart@10 is found by uart@10 and uart, not by uart@1; uart not by uart@10, uarts not by uart |
| FdtEdit.FdtAddSubnode | 3rdparty/libfdt/fdt_rw.c:333-372 | An empty node behind the parent's properties, EXISTS exactly when a child matches, NOSPACE exactly when it does not fit and then nothing changes |
| FdtEdit.FdtDelNode | 3rdparty/libfdt/fdt_rw.c:379-391 | The node's items are taken out, all others stay |
| FdtTreeEdit.SetPropInTree | 3rdparty/libfdt/fdt_rw.c:276-289 | On the blob of any tree: the blob of the tree with that property of that node set; NOSPACE exactly if the growth does not fit, and then the same tree and the same strings block |
| FdtTreeEdit.PropReads | 3rdparty/libfdt/fdt_rw.c:276-289 | Reading any property of any node after the set: only that property of that node differs, and no node comes or goes |
| FdtTreeEdit.ReplaceNode | 3rdparty/libfdt/fdt_rw.c:276-391 | Replacing a node: every node neither above nor below it is the old one, and those above it keep name, properties and number of children |
| FdtTreeEdit.AddSubnodeInTree | 3rdparty/libfdt/fdt_rw.c:333-372 | On the blob of any tree: EXISTS exactly if a child matches, else NOSPACE exactly if the node does not fit, both without any change; else the offset behind the properties and the blob of the tree with a new first child |
| FdtTreeEdit.DelNodeInTree | 3rdparty/libfdt/fdt_rw.c:379-391 | On the blob of any tree: the blob of the tree without that child |
| FdtTreeEdit.Context | 3rdparty/libfdt/fdt_rw.c:54-96 | Replacing a node anywhere in a tree replaces its items and nothing else |
| FdtTreeEdit.LookupSet | 3rdparty/libfdt/fdt_rw.c:276-289 | A lookup after a set gives the new value for that name and the old one for every other name |
| FdtTreeEdit.SetShape | 3rdparty/libfdt/fdt_rw.c:258-289 | A new property comes in front of the others, which stay; otherwise the first one of that name gets the value in its place |
| FdtTreeEdit.GrowthIsSize | 3rdparty/libfdt/fdt_rw.c:184-233 | The growth that is tested is what the properties of the node take more, and a new string exactly if the name stands nowhere |
| FdtTreeEdit.EmptyNodeSize | 3rdparty/libfdt/fdt_rw.c:359-363 | The room that an added node is tested for is what its items take |
| FdtTreeEdit.ChildExists | 3rdparty/libfdt/fdt_ro.c:225-242 | The child search fails exactly when no child of the node matches |
| FdtClient.CompleteIsEditable | 3rdparty/libfdt/fdt_sw.c:337-384 | What fdt_finish leaves meets all that the editing functions ask for, with the strings that were written |
| FdtClient.OpenInto | 3rdparty/libfdt/fdt_rw.c:415-451 | In place: NOSPACE exactly if the tree is larger than the new size, and otherwise the same tree with the new size; the blocks are never found in the wrong order |
| FdtClient.WriteSetAndDump | 3rdparty/libfdt/fdt_rw.c:276-289 | Any tree written, finished, opened in a larger buffer and given a property reads back as the tree with that property set; this succeeds if and only if the finished tree fits, and the growth fits the larger buffer |
| FdtNodes.FirstChild | 3rdparty/libfdt/fdt.c:279-288 | On any node of any tree: the offset of its first child, NOTFOUND if it has none |
| FdtNodes.NextChild | 3rdparty/libfdt/fdt.c:290-305 | The offset of the next child of the same parent, NOTFOUND behind the last one |
| FdtNodes.ChildNamed | 3rdparty/libfdt/fdt_ro.c:225-242 | The offset of the first child whose name matches, unit addresses optional, and NOTFOUND exactly if none does |
| FdtNodes.PropBy | 3rdparty/libfdt/fdt_ro.c:469-492 | The name and data of the property at an offset that the property walk gives |
| FdtNodes.AlikeAt | 3rdparty/libfdt/fdt_wip.c:13-31 | Trees that differ in data of the same lengths only have all nodes at the same offsets |
| FdtNodes.SetPartial | 3rdparty/libfdt/fdt_wip.c:13-31 | On any node of any tree: exactly those bytes of that property change, NOTFOUND and NOSPACE exactly as the source says; astray exactly where the 32-bit end of the write wraps around and passes the test |
| FdtOverlay.FindMaxPhandle | 3rdparty/libfdt/fdt_ro.c:114-140 | The walk over the blob of any tree gives the largest phandle of the tree |
| FdtNames.PhandleFirst | 3rdparty/libfdt/fdt_ro.c:508-523 | The property phandle counts before linux,phandle in either order, if it has four bytes |
| FdtNames.Names | 3rdparty/libfdt/fdt_overlay.c:156-343 | The names phandle, linux,phandle and __local_fixups__ as texts |
| FdtOverlay.MaxIsBound | 3rdparty/libfdt/fdt_ro.c:114-140 | No node has a larger phandle |
| FdtOverlay.MaxIsReached | 3rdparty/libfdt/fdt_ro.c:114-140 | Some node has that phandle |
| FdtOverlay.AdjustNodePhandles | 3rdparty/libfdt/fdt_overlay.c:156-177 | On the blob of any tree, from any node down: the phandles are shifted as the function of the tree says, the first error in preorder stops it, and the blob holds the tree with what was done so far |
| FdtOverlay.AdjustExact | 3rdparty/libfdt/fdt_overlay.c:116-177 | The shift succeeds if and only if every phandle property has four bytes and its value stays below 0xFFFFFFFF |
| FdtNames.ShiftLimits | 3rdparty/libfdt/fdt_overlay.c:116-140 | A phandle of 0xfffffffe may stay, but not be shifted by 1 or by 3, and one of three bytes is refused; with the errors |
| FdtOverlay.ShiftedAt | 3rdparty/libfdt/fdt_overlay.c:116-177 | After a shift that succeeds, at every node both phandle properties are shifted and all other properties are as before |
| FdtOverlay.PhandleShifts | 3rdparty/libfdt/fdt_ro.c:508-523 | The phandle of a node moves by the shift if it has a phandle property, and is 0 otherwise |
| FdtOverlay.ApartFromBase | 3rdparty/libfdt/fdt_overlay.c:838-848 | After the shift by the largest phandle of the base, a phandle of the overlay is distinct from those of all nodes of the base if and only if it was not 0 |
| FdtOverlay.ZeroExample | 3rdparty/libfdt/fdt_overlay.c:838-848 | An overlay phandle of 0 becomes the phandle 5 that the base has already |
| FdtOverlay.DistinctStay | 3rdparty/libfdt/fdt_overlay.c:116-177 | Two phandles of an overlay are equal after the shift exactly if they were before |
| FdtFixups.UpdateNodeReferences | 3rdparty/libfdt/fdt_overlay.c:220-306 | On the blob of any tree, fixups that list words of the fixups included: error, stray write and tree as the function of the tree says, of which the rows below say when it succeeds and what it does then |
| FdtVerdict.FixupsSucceed | 3rdparty/libfdt/fdt_overlay.c:220-343 | Unless fixups list words of the fixups or of phandles: the references are brought up to date if and only if there are no fixups, or every fixup property has whole words and names a property of its node, every fixup child matches a child of its node, and every listed word lies within its property |
| FdtVerdict.FixupsFail | 3rdparty/libfdt/fdt_overlay.c:241-303 | Otherwise a listed word that is not within its property decides, with BADOVERLAY or, where its 32-bit end wraps around into the property, a stray write; or BADOVERLAY for something unusable. If nothing is unusable it is the first such word |
| FdtVerdict.FixupsAnswer | 3rdparty/libfdt/fdt_overlay.c:220-343 | In every case the answer is that of the first check that fails, read off the tree before the first write |
| FdtVerdict.OnceExample | 3rdparty/libfdt/fdt_overlay.c:253-282 | An overlay with one reference listed once: for every shift it succeeds, and the reference moves by the shift |
| FdtFixups.NodeGood | 3rdparty/libfdt/fdt_overlay.c:220-306 | Fixups that succeed are exactly the listed words shifted one after the other, all of them within their properties, if none lies in the fixups themselves |
| FdtFixups.PatchedWord | 3rdparty/libfdt/fdt_overlay.c:259-282 | A word that no other listed word overlaps partly is shifted as often as it is listed, modulo 2^32 |
| FdtFixups.PhandlesStay | 3rdparty/libfdt/fdt_overlay.c:220-306 | The fixups change no phandle, if none of the listed words lies in one |
| FdtFixups.UpdateLocalReferences | 3rdparty/libfdt/fdt_overlay.c:325-343 | From the first node named __local_fixups__ below the root; without one nothing happens |
| FdtFixups.ShiftOverlay | 3rdparty/libfdt/fdt_overlay.c:838-848 | The first three calls of fdt_overlay_apply on the blobs of any two trees: the base stays, and the overlay is shifted by the largest phandle of the base with its references |
| FdtFixups.ReferencesFollow | 3rdparty/libfdt/fdt_overlay.c:116-343 | For every overlay tree, every listed word and every node with a phandle: a word listed once refers to the same nodes after shift and fixups as before, and a reference listed several times still refers to its node if and only if the shifts add up to one modulo 2^32 |
| FdtFixups.TwiceExample | 3rdparty/libfdt/fdt_overlay.c:259-282 | An overlay whose reference is listed twice: the shifts add up to one only if the shift is 0 |
| Decompress.Decoder.Decompress | source/fs/decompress.c:280-295 | An arbitrary streaming decoder: it consumes the payload and emits the stream in order, in chunks of any size; a call may do nothing only once the stream has ended, and then every later call does nothing |
| Decompress.Decoder.Write | source/fs/decompress.c:280-295 | Output stored from the dictionary offset on keeps the last dictionary-full of the stream in place |
| Decompress.InDictionary | source/fs/decompress.c:243-248 | The piece copied to the caller is the stream at its offset |
| Decompress.EveryDistance | source/fs/decompress.c:280-295 | The dictionary reaches back as far as any distance symbol with any extra bits |
| Decompress.BlockStays | source/fs/decompress.c:264-278 | As long as the payload offset is not at a block start, the block in the buffer is the right one |
| Decompress.Reader.Close | source/fs/decompress.c:210-217 | Closing a handle forgets the stream if it is that handle's |
| Decompress.Reader.Restart | source/fs/decompress.c:228-233 | Another handle, or an earlier offset, starts the stream over |
| Decompress.Reader.Deliver | source/fs/decompress.c:241-257 | Available data is skipped up to the offset and then given out, in step with the output offset |
| Decompress.Reader.DecodeMore | source/fs/decompress.c:262-294 | Each round moves the decoder on or fails for a reason: the source cannot be read, the payload not be decoded (which forgets the current handle), all payload is taken, or the stream has ended before the payload and the loop goes round for ever |
| Decompress.Reader.Read | source/fs/decompress.c:225-298 | Over any history of reads, on any handles: a success returns exactly count bytes of this handle's stream from the offset on; a failure has one of those reasons, and unless decoding failed fewer bytes were produced than were asked for; the loop ends unless it stays as said |
| SpaceAllocator.OverlayTiling | source/lib/allocator.c:44-129 | Laying an allocated region over a tiling gives a tiling of the same space, without touching free regions |
| SpaceAllocator.Allocator.InsertRegion | source/lib/allocator.c:44-129 | The region list becomes the overlay of the old list by the new region, also when it ends at 2^64 |
| SpaceAllocator.Allocator.constructor | source/lib/allocator.c:240-252 | One free region over the space, which with size 0 is the whole address space |
| SpaceAllocator.BlockInRegion | source/lib/allocator.c:145-159 | A free block never crosses a region boundary |
| SpaceAllocator.PassesExact | source/lib/allocator.c:149-151 | The 64-bit test decides, region by region, whether the first aligned address fits, unless it wraps around |
| SpaceAllocator.FirstIsBest | source/lib/allocator.c:145-159 | The first region that passes gives the lowest fit of the whole space, exactly unless the search is misled |
| SpaceAllocator.Allocator.Search | source/lib/allocator.c:145-161 | The answer of the search is right if and only if it is not misled, which a wrapped result shows |
| SpaceAllocator.RoomNeverMisled | source/lib/allocator.c:149-151 | A space that ends size and alignment before 2^64 never misleads |
| SpaceAllocator.MisledExample | source/lib/allocator.c:149-151 | The last page of the address space with a two-page alignment does |
| SpaceAllocator.Allocator.Alloc | source/lib/allocator.c:137-162 | Takes the lowest aligned free block and nothing else, and fails exactly if there is none; wild exactly when the search is misled |
| SpaceAllocator.Allocator.Insert | source/lib/allocator.c:176-201 | Succeeds if and only if no address of the range is allocated; a range that wraps always succeeds and takes nothing |
| SpaceAllocator.Allocator.Reserve | source/lib/allocator.c:213-232 | The part of the range inside the space becomes allocated; a range that wraps reserves nothing |
| ConfigParser.ParseValues | source/config.c:962-1069 | A successful value list leaves the token buffer empty if it was and takes no characters back |
| ConfigParser.ParseCommandLoop | source/config.c:1073-1121 | A successful command list leaves the token buffer empty; parsing ends |
| ConfigRoundTrip.TextBack | source/config.c:909-935 | An escaped string reads as the string, comment signs included |
| ConfigRoundTrip.IntegerBack | source/config.c:880-905 | The decimal digits of a 64-bit number read as the number and stop in front of the delimiter |
| ConfigRoundTrip.ValueBack | source/config.c:1006-1057 | The text of any value, nested to any depth, reads as that value |
| ConfigRoundTrip.ArgsBack | source/config.c:962-1069 | The text of a value list reads as the list |
| ConfigRoundTrip.CommandsBack | source/config.c:1073-1121 | The text of a command list, in a block or in a file, reads as the list |
| ConfigRoundTrip.ParseBack | source/config.c:1127-1141 | Parsing the text of any well-formed command list gives it back and restores nesting count, token buffer and returned character |
| ConfigRoundTrip.LeftOver | source/config.c:1127-1141 | A token left in the buffer by an earlier parse reads as if it stood in front of the new file |
| ConfigRoundTrip.CutOff | source/config.c:1110-1112 | A parse that fails inside a command name of a block leaves that name in the buffer |
| ConfigScan.ParseEnds | source/config.c:1073-1141 | For every text: how the parse ends, read off a one-pass scan, with the nesting count back at zero as asserted; and an error leaves a name in the token buffer if and only if the file ends inside a command name of an open block, which is that name and the end of the file |
| ConfigScan.CommandsScan | source/config.c:1073-1121 | The command loop and the scanner come to the same end: result, error with what the buffer holds, or no return |
| ConfigScan.ValuesScan | source/config.c:962-1069 | The same for a value list |
| ConfigScan.PendingIsEnd | source/config.c:1080-1116 | A name under way at the end of a text is the end of that text |
| ConfigRoundTrip.ReadHangs | source/config.c:810-839 | Reading a character does not return exactly if a comment is open that no line end closes |
| ConfigImage.CommandsParsed | source/config.c:1073-1121 | Whatever is parsed is well formed: names, strings and numbers fit, blocks close |
| ConfigImage.Image | source/config.c:1127-1141 | A command list is what some text parses to if and only if it is well formed |
| ConfigImage.Normalise | source/config.c:1127-1141 | Writing out what was parsed and parsing it again gives the same list |
| ConfigReader.Parser.ReadChar | source/config.c:810-839 | The character loop with the returned-character slot reads as the function over the characters to come |
| ConfigReader.Parser.ReturnChar | source/config.c:843-853 | The slot is empty whenever a character is returned |
| ConfigReader.Parser.Digits | source/config.c:897-904 | The digit loop computes the number of the specification in 64 bits, which the lemmas on numbers pin down in each notation |
| ConfigNumbers.HexBack | source/config.c:884-905 | Any hexadecimal digits behind 0x or 0X, each in either case, read as their value modulo 2^64 |
| ConfigNumbers.OctBack | source/config.c:884-905 | Any octal digits behind 0 read as their value modulo 2^64 |
| ConfigNumbers.DecBack | source/config.c:893-905 | Any decimal digits, the first not 0, read as their value modulo 2^64 |
| ConfigNumbers.HexNumber | source/config.c:884-905 | The hexadecimal digits of a 64-bit number read as the number |
| ConfigNumbers.OctNumber | source/config.c:884-905 | So do its octal digits |
| ConfigNumbers.DecNumber | source/config.c:893-905 | and its decimal digits |
| ConfigReader.Parser.String | source/config.c:909-935 | The string loop agrees with the specification on every input, errors included |
| ConfigReader.Parser.VariableName | source/config.c:939-957 | The name loop agrees with the specification |
| ConfigReader.Parser.ValueList | source/config.c:962-1069 | The value loop agrees with the specification: result, error, and state left |
| ConfigReader.Parser.CommandList | source/config.c:1073-1121 | The command loop agrees with the specification |
| ConfigReader.Parser.Parse | source/config.c:1127-1141 | A parse of a file is the specified parse, with the token buffer as it was left |
| ConfigSample.SampleParsed | source/config.c:962-1141 | A file with a value of every kind, escapes, a block and a nested list, as a text, and the command it parses to |
| ConfigSample.SpaceNeeded | source/config.c:994-1000 | A value directly behind another one is an error |
| ConfigSample.OctalOnly | source/config.c:884-905 | So is a digit 9 behind a 0 |
| ConfigSample.Layout | source/config.c:810-839 | Comments, empty lines, tabs and a line that goes on behind a backslash are accepted |
| ConfigSample.BraceBehindName | source/config.c:1073-1121 | A block may end right behind a command name |
| ConfigSample.BraceBehindValue | source/config.c:988-991 | and right behind a value |
| ConfigSample.OpenEnds | source/config.c:909-1121 | A list, a string and a block that do not end, and a variable without a name, are errors |

## Left out

- Lists are sequences: the links, the allocation of list nodes and the iterators of `lib/list.h` are not modelled; a chunk or range is found by its place or address.
- Internal errors, boot errors and logging: a method that would stop the loader returns a failing result instead.
- `memory_protect`: on unaligned starts it shortens the range, and it may keep an iterator to a merged node; not modelled.
- `memory_snapshot`, `memory_map_dump` and the large allocations: thin layers over what is modelled.
- BootHeap.Heap.Malloc: when the total wraps around to less than a header the loader cuts a chunk inside its own header; the model reports that and stops. Sizes have 64 bits, so the wrap-around of 32-bit builds is not modelled; chunk headers are list elements and not bytes of the heap area.
- `tinfl_decompress` as a coroutine: its re-entry at every state number, the zlib header, the stored blocks and the run lengths of code lengths are not modelled; table construction, decoding, copying and checksum are separate methods.
- HuffmanTable.HuffTable.HuffDecode: the 32-bit bit buffer; the 64-bit refill of the fast loop is not modelled, and combining disjoint bits with OR is written as a sum.
- MatchCopy.CopyMatch: the stream it continues reaches back at least as far as the distance, which `MatchCopy.StaleWindow` supplies for any buffer; match lengths of 3 or more and distances of 1 or more, as the tables give them; symbols 286 and 287 and distance symbols 30 and 31, which the tables map to zero, are not modelled. Masks of power-of-two windows are written as remainders.
- QSort.QSort: elements are moved as wholes, not byte by byte.
- The header of a device tree is kept in fields beside the buffer, not as big-endian words in its first 40 bytes; versions below 17 and the checks that can be compiled out are not modelled. Addresses are offsets, so the 8-byte alignment test of the blob's address is absent.
- FdtWriter.AddString: a string that the fooled room test would write below the buffer is not written; the writer answers OUTSIDE, which is no error of the library, and `FdtWriter.StringTestExact` gives the condition.
- FdtWriter.FdtResize: old and new buffer are the same or disjoint, so partly overlapping moves are not modelled.
- FdtReader.NextNodeAt: where the loop of the source never ends the method says so and stops.
- FdtReader.FdtNextNode: on trees whose structure block encodes items; `FdtReader.NextNodeAt` covers all others.
- FdtReader.NodeEndOffset: on trees whose structure block encodes items.
- FdtReader.GetProperty: on trees whose structure block encodes items.
- FdtReader.FdtGetprop: on trees whose structure block encodes items.
- FdtReader.GetName: on trees whose structure block encodes items.
- FdtEdit.SubnodeOffset: on trees whose structure block encodes items.
- FdtClient.OpenInto: in place, on blocks in the order every writer and editor here leaves them; the copy into another buffer and the reordering of blocks are not modelled.
- FdtEdit.FdtSetprop: the probe of the header is a precondition. `fdt_appendprop`, `fdt_set_name`, `fdt_pack` and the NOP operations are not modelled.
- FdtFixups.UpdateNodeReferences: where the 32-bit end of a write wraps around the model stops; the old word is read only where there is one, although the source reads it in front of the bounds test.
- FdtFixups.ReferencesFollow: words that overlap each other partly, and words that lie in a phandle or in the fixups, are left to the function of the tree.
- References of an overlay to symbols of the base (`overlay_fixup_phandles`), the merge of the fragments and the update of the symbols are not modelled.
- Decompress.Decoder.Decompress: the decoder is abstract; unless the payload is sound it may fail at any call, and the bytes it emits are those of a fixed stream. Opening a compressed file (`decompress_open`) is not modelled.
- Decompress.Reader.Read: where the source asserts that payload is left, although the decoder may still hold output, the read answers with a status of its own, and so it does where the loop would go round for ever because the stream has ended before the payload.
- SpaceAllocator.Allocator.Alloc: when the search is misled the loader enters a region that is not free or runs over the last address; the model reports that and stops.
- MemoryMap.RangeList.MemoryAlloc: when the search is misled the loader enters a block outside the limits in the map; the model reports that and stops.
- ConfigReader.Parser.Parse: characters come from a fixed file, not from a helper that looks at the nesting count; line and column numbers and error messages are not modelled, and where the loader would read on for ever or write behind the token buffer the routines say so and stop.
- Substitution of variables, environments, and the commands of the configuration.
- Path lookup, parent and depth queries, string lists and address cells of the device tree.
- The line editor, the file systems, disks, frame buffer, character sets and driver initialisation of the device tree are not modelled.
- User interface, device probing, network and ELF loading: input, output and hardware.
