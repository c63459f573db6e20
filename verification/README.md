# iew_c_essentials containers and helpers in Dafny

This project models the core of iew_c_essentials, a set of macro-generated C containers and small arithmetic helpers, and proves properties of that model. Each macro family is modelled once, generically: the element type, the hash function and the null key and value are parameters.

**Hash table** (`HashSlots`, `HashTable`). This is the open-addressing table of `makeHashTableImpl`.
- It uses linear probing over a power-of-two slot array, and an empty slot has hash 0.
- `Table` keeps the slot array, `capacity` and `length`, plus a ghost `contents` map. Its invariant says:
  - capacity is a power of two;
  - `length` counts the occupied slots and is at most half the capacity;
  - the occupied slots hold exactly the keys of `contents`, each once;
  - every entry is reachable from its home slot `hash & (capacity - 1)` through occupied slots.
- `erase` re-inserts every later entry of the probe run (`fix_up`), and `expand` rehashes into a doubled array. Both are proved to keep this invariant and the map.

**Vector** (`Vectors`). One class `Vec` models the three expansions of the growable vector: `makeVecOfTypeImpl`, `makeVecImpl`/`makePrimitiveVecOfTypeImpl`, and the older single-parameter macros. They differ only in the reallocation call and in the return type of `free`. `Vec` holds:
- the `data` array, `len`, `cap` and `sizeof(type)`;
- the lazily cached `begin` and `end` pointers.

**Buffer** (`Buffers`). `Buf` is the aligned buffer of `makeBufOfTypeImpl`. It is a byte block of `cap` slots with stride `alignedSize`, of which the first `lim` are visible. Slots are handed out as byte offsets.

**Fixed aligned array** (`AlignedArrays`). These are the pure address computations of `makeArrayOfTypeImpl` over a layout of element size, alignment and compile-time length.

**Shared traversal** (`Traverse`). These are the `each`, `each_reverse` and `search` loops shared by all containers. Each is specified by `Visit`: the sequence of callback indices and the result it returns.

**Aligned allocation** (`AlignMath`, `AlignedMalloc`).
- `ice_align_up` is modelled over natural numbers.
- `ice_aligned_malloc`/`ice_aligned_free` are modelled over an abstract heap that records the 16-bit back-offset stored before each returned address.

**Bit helpers** (`Bits`). These are trailing zeros, floor log2 and the set-bit loop of ice_bits.h, on `bv32`.

**Strings** (`Utf8`, `Strings`).
- `Utf8` holds UTF-8 as in section 3 of RFC 3629, and the utf8.h helpers string.c relies on:
  - `utf8size_lazy` is the byte length up to the NUL;
  - `utf8len` is the codepoint count;
  - `utf8codepoint` advances by the length its lead byte announces.
- `Strings` holds the string.c functions over byte sequences.
  - A C string is a `seq<bv8>` without NUL bytes.
  - A NULL pointer is `None`.
  - Whether an allocation fails is a parameter.

**FNV-1a** (`Fnv`). These are the 32- and 64-bit byte, int, `uint32_t` and `uint64_t` hash steps of icehash.c and hash.h. The offset bases are those of the reference fnv library, 0x811c9dc5 and 0xcbf29ce484222325.

**Growth and errors** (`Growth`, `ColErrors`). `Growth` holds the growth rule `ceil(1.5 * n)` as the integer `(3n + 1) / 2`. `ColErrors` holds the `col_error_t` codes.

## Model

| member | source | states |
|---|---|---|
| Traverse.Ascending | vec_macros.h:229-238 | the visiting order of `each` is 0, 1, ..., n-1 |
| Traverse.Descending | vec_macros.h:239-255 | the visiting order of `each_reverse` is n-1 down to 0, each index once |
| Traverse.Visit | vec_macros.h:229-238 | the indices called form a prefix of the order; all but the last returned OK; the result is OK exactly when every index was called and returned OK, otherwise it is the first non-OK result |
| Traverse.VisitUnique | vec_macros.h:229-238 | any call sequence and result with the early-exit properties of `each` are exactly the ones `Visit` gives |
| Traverse.Each | vec_macros.h:229-238 | the counting loop with early return calls the callback in ascending order and returns what `Visit` over 0..n-1 returns |
| Traverse.ReverseStart | vec_macros.h:244 | the start `len - 1` of `each_reverse` in `size_t`: n-1 for n > 0, still a `size_t` value |
| Traverse.EachReverseAsWritten | vec_macros.h:239-255 | the loop as written visits ReverseStart(n) down to 0, calling index 0 outside the loop |
| Traverse.DescendFrom | vec_macros.h:243-254 | the loop from `start` down to 1, then the extra call for 0, visits start..0 in descending order with early exit |
| Traverse.EachReverse | buf_macros.h:183-195 | the corrected reverse traversal visits len-1 down to 0 and visits nothing on an empty container |
| Traverse.EachReverseWrapsOnEmpty | icealignedarray.h:113 | on an empty container the loop as written calls the callback first with index SIZE_MAX, while the corrected one makes no call |
| Traverse.EachReverseAgreesWhenNonEmpty | icealignedarray.h:108-124 | for 0 < len the loop as written and the corrected traversal agree |
| Traverse.SearchFrom | vec_macros.h:265-283 | the search answer is the first index whose predicate matched, with the predicate's error; or len when nothing matched and nothing failed; or no index with the first failing error |
| Traverse.Search | vec_macros.h:265-283 | the loop returns the first matching index (len if none), leaves the index out-parameter untouched on an error before a match, and returns the predicate's error |
| Growth.Grow | vec_macros.h:112 | the grown capacity is ceil(3n/2): 2c is 3n or 3n+1 |
| Growth.GrowIsCeiling | utils.c:47 | the grown capacity is the least c with 2c >= 3n, at least n, and larger than n for n > 0 |
| Growth.GrowThree | buf_macros.h:108 | reserving 3 gives capacity 5 |
| Growth.CheckedCapacityFits | vec_macros.h:113-118 | passing `new_cap <= SIZE_MAX / sizeof(type)` guarantees the byte size `new_cap * sizeof(type)` does not overflow |
| AlignMath.ClearLowBitsRoundsDown | icemalloc.h:48-49 | clearing the bits below a power of two a rounds down to a multiple of a, by less than a |
| AlignMath.AlignUp | icemalloc.h:43-50 | `ice_align_up(num, align)` is a multiple of align with num <= r < num + align |
| AlignMath.AlignUpIsLeast | icemalloc.h:48-49 | no multiple of align lies between num and `ice_align_up(num, align)`: it is the least one |
| AlignMath.AlignUpFixedIffAligned | icemalloc.h:48-49 | aligning leaves num unchanged exactly when num is already a multiple of align |
| AlignMath.AlignUpIdempotent | icemalloc.h:48-49 | aligning twice equals aligning once |
| AlignMath.MultipleOfMultiple | icealignedarray.h:95 | a slot offset i * stride is a multiple of the alignment |
| AlignMath.SlotStride | buf_macros.h:82 | `(sizeof(type) + align) & ~(align - 1)` is a multiple of align with size < stride <= size + align |
| AlignMath.SlotStrideIsLeast | icealignedarray.h:66 | no multiple of align lies between the element size and the stride |
| AlignMath.KnownStrides | Google_tests/icealignedarray_test.cpp:53-55 | a 12-byte element gets stride 16 at alignment 16 and 64 at alignment 64 |
| AlignMath.DoublePow2 | ice_hash_table_macros.h:199-200 | doubling a power-of-two capacity gives a power of two |
| AlignedMalloc.MallocRequest | icemalloc.c:42-45 | the byte count handed to malloc is size plus the header when that fits a `size_t`; otherwise it wraps to fewer bytes than the header alone |
| AlignedMalloc.AlignedAddress | icemalloc.c:42-49 | the returned address is a multiple of align and lies in [p + 2, p + 2 + align - 1], inside the header of the block |
| AlignedMalloc.StoredOffset | icemalloc.c:52 | the stored offset fits 16 bits and equals `ptr - p` whenever the alignment is at most 2^15 |
| AlignedMalloc.OffsetForAlignedBlock | icemalloc.c:49-52 | when the block p is a multiple of align, the offset is align_up(2, align) |
| AlignedMalloc.KnownOffsets | Google_tests/icemalloc_test.cpp:31-47 | the offset is 16 at alignment 16, 4 at alignment 4 and 2 at alignment 1 |
| AlignedMalloc.FreeRecoversBlock | icemalloc.c:59-66 | address minus stored offset is the block malloc returned |
| AlignedMalloc.OffsetTruncatedAtLargeAlign | icemalloc.c:32 | at alignment 2^16 and block 2^16 the stored offset truncates to 0, so free would release the returned address instead of the block |
| AlignedMalloc.Heap.constructor | icemalloc.c:35 | a heap starts with no recorded offsets |
| AlignedMalloc.Heap.AlignedMalloc | icemalloc.c:35-57 | NULL for align 0, size 0 or a failed malloc; otherwise the aligned address, with its truncated offset recorded before it |
| AlignedMalloc.Heap.AlignedMallocChecked | icemalloc.c:39-56 | as AlignedMalloc, but alignments whose offset does not fit 16 bits give NULL; the offset recorded before the result is exact |
| AlignedMalloc.Heap.AlignedFree | icemalloc.c:59-66 | NULL frees nothing; otherwise the block freed is the address minus the offset recorded before it |
| AlignedMalloc.AllocateThenFree | icemalloc.c:35-66 | allocating and then freeing releases exactly the block malloc returned, and NULL exactly for the rejected arguments |
| Bits.AllClearIsZero | ice_bits.h:49-59 | a word with no bit set below 32 is 0 |
| Bits.ZerosDownFrom | ice_bits.h:37 | counts the clear bits from bit i downwards; stops at the highest set bit |
| Bits.LeadingZeros | ice_bits.h:37 | `GetNumberOfLeadingZeros` is 32 exactly for 0; otherwise bit 31-n is the highest set bit |
| Bits.FloorLog2 | ice_bits.h:44-46 | for v != 0, 2^r <= v < 2^(r+1); for v == 0, 31 - 32 wraps to 0xFFFFFFFF |
| Bits.TrailingZeros | ice_bits.h:49-59 | the count is 32 exactly for 0; otherwise bit `count` is set and every bit below it is clear |
| Bits.LowestBitIsolated | ice_bits.h:70 | `w & -w` is the lowest set bit of w |
| Bits.LowestBitMask | ice_bits.h:70 | `w & -w` is bit b when b is set and all lower bits are clear |
| Bits.XorClearsOnlyBit | ice_bits.h:73 | xor-ing out the lowest bit clears exactly that bit |
| Bits.XorSingleBit | ice_bits.h:73 | xor with bit b flips bit b and no other |
| Bits.SetBits | ice_bits.h:65-75 | the set bits below k listed in strictly increasing order |
| Bits.SetBitsSound | ice_bits.h:65-75 | every listed position is a set bit |
| Bits.SetBitsComplete | ice_bits.h:65-75 | every set bit below k is listed |
| Bits.SetBitsSkip | ice_bits.h:69-73 | skipping clear bits up to the next set bit b appends exactly b |
| Bits.SetBitsGap | ice_bits.h:69-73 | a run of clear bits adds nothing to the list |
| Bits.LoopStep | ice_bits.h:69-73 | one iteration visits the lowest remaining bit, which is above every earlier one, and leaves the higher bits remaining |
| Bits.LoopExit | ice_bits.h:69 | when no bit remains every set bit has been visited |
| Bits.ForEachBitPos | ice_bits.h:65-75 | the body runs once per set bit, at strictly increasing positions, exactly the list SetBits(word, 32) |
| Bits.SetBitsCount | ice_bits.h:65-75 | the loop runs at most 32 times: one iteration per set bit |
| Fnv.BytesLE64 | icehash.c:66-70 | the memory bytes of a `uint64_t` are those of its low word followed by its high word |
| Fnv.FoldStepsAppend | hash.h:51-67 | hashing a + b is hashing b from the state after a |
| Fnv.FoldStepsFour | hash.h:51-56 | folding four bytes is byte1 applied to b[0], b[1], b[2], b[3] in order |
| Fnv.FoldStepsEight | hash.h:58-67 | folding eight bytes is byte1 applied to b[0] .. b[7] in order |
| Fnv.Fnv32aFoldAppend | icehash.c:36-52 | the 32-bit hash of a + b continues from the hash of a |
| Fnv.Fnv32aByte4 | icehash.c:36-41 | `fnv_32a_byte4` is byte1 folded over its four bytes in index order |
| Fnv.Fnv32aByte8 | icehash.c:43-52 | `fnv_32a_byte8` is byte1 folded over its eight bytes in index order |
| Fnv.Fnv32aInt | icehash.c:54-58 | `fnv_32a_int` hashes the four little-endian bytes of the two's complement value |
| Fnv.Fnv32aUint32 | icehash.c:60-64 | `fnv_32a_uint32_t` hashes the four little-endian bytes of the value |
| Fnv.Fnv32aUint64 | icehash.c:66-70 | `fnv_32a_uint64_t` hashes the eight little-endian bytes of the value |
| Fnv.Fnv32aUint64Halves | hash.h:81-85 | hashing a `uint64_t` is hashing its low word, then its high word |
| Fnv.Fnv64aFoldAppend | icehash.c:84-100 | the 64-bit hash of a + b continues from the hash of a |
| Fnv.Fnv64aByte4 | icehash.c:84-89 | `fnv_64a_byte4` is the 64-bit byte1 folded over four bytes in order |
| Fnv.Fnv64aByte8 | icehash.c:91-100 | `fnv_64a_byte8` is the 64-bit byte1 folded over eight bytes in order |
| Fnv.Fnv64aInt | icehash.c:102-106 | `fnv_64a_int` hashes the four little-endian bytes of the two's complement value |
| Fnv.Fnv64aUint32 | icehash.c:108-112 | `fnv_64a_uint32_t` hashes the four little-endian bytes of the value |
| Fnv.Fnv64aUint64 | icehash.c:114-118 | `fnv_64a_uint64_t` hashes the eight little-endian bytes of the value |
| Fnv.Fnv64aUint64Halves | hash.h:129-133 | hashing a `uint64_t` is hashing its low word, then its high word |
| Fnv.KnownAnswersByte1 | Google_tests/hash_test.cpp:34-35 | byte 42 from the offset basis hashes to 0x2f0c9f3d (32-bit) and 0xaf63a74c8601927d (64-bit) |
| Fnv.KnownAnswersUint32 | Google_tests/hash_test.cpp:39-51 | 12345678 is the bytes 4E 61 BC 00 and hashes to 0x2f55268c; three more 32-bit answers for 0x11223344, 0xFFFFFFFF and 0 |
| Fnv.KnownAnswersUint32Wide | hash.h:123-127 | the 64-bit hashes of 12345678 and 0x11223344 |
| Fnv.KnownAnswersUint32WideEdges | hash.h:123-127 | the 64-bit hashes of 0xFFFFFFFF and 0 |
| Fnv.KnownAnswersUint64 | Google_tests/hash_test.cpp:65-67 | 0x1122334455667788 is stored as 88 77 .. 11 and hashes to 0xf24b8e95 (32-bit) and 0x82f950555efebd75 (64-bit) |
| Fnv.KnownAnswersInt | Google_tests/hash_test.cpp:99-100 | -127 is 0xFFFFFF81 and hashes to 0x50460f07 (32-bit) and 0xaabb74a0b07d0de7 (64-bit) |
| Fnv.KnownAnswersIntBits | hash.h:69-79 | `fnv_*_int(-127)` equals `fnv_*_uint32_t(0xFFFFFF81)` |
| Utf8.CStrOf | string.c:155-159 | the string read from a NUL-padded buffer has no NUL, is a prefix of the buffer, and stops at the first NUL |
| Utf8.Utf8Encode | string.c:117-149 | the UTF-8 encoding is 1, 2, 3 or 4 bytes long at the thresholds 0x80, 0x800 and 0x10000 |
| Utf8.LeadLength | string.c:198 | the codepoint length a lead byte announces is 1 to 4 |
| Utf8.EncodeDecode | string.c:117-149 | the encoding starts with a lead byte announcing its length, continues with continuation bytes, decodes back to the codepoint, and has no NUL for a nonzero codepoint |
| Utf8.EncodeDecode2 | string.c:130-134 | two-byte encodings round-trip |
| Utf8.Bytes2 | string.c:130-134 | the two-byte lead and continuation bytes, bit by bit |
| Utf8.EncodeDecode3 | string.c:135-140 | three-byte encodings round-trip |
| Utf8.Bytes3 | string.c:135-140 | the three-byte lead and continuation bytes, bit by bit |
| Utf8.EncodeDecode4 | string.c:141-148 | four-byte encodings round-trip |
| Utf8.Bytes4 | string.c:141-148 | the four-byte lead and continuation bytes, bit by bit |
| Utf8.Next | string.c:249 | `utf8codepoint` advances by at least one byte, by the lead length, and never past the end |
| Utf8.StartsFrom | string.c:235-251 | the codepoint starts from p are within the string and the first is p |
| Utf8.CodepointCount | string.c:79-81 | `str_len` is at most the byte count and 0 exactly for the empty string |
| Utf8.StartsCount | string.c:79-81 | there are no more codepoint starts than bytes |
| Utf8.BytePos | string.c:214-261 | the byte position of codepoint k is within the string, and before its end for k < count |
| Utf8.StartsIncreasing | string.c:235-251 | codepoint starts strictly increase |
| Utf8.BytePosMonotone | string.c:263-284 | a larger codepoint index never has a smaller byte position |
| Utf8.BytePosEnds | string.c:263-284 | codepoint 0 starts at byte 0 and codepoint count is the byte length |
| Utf8.StartsShift | string.c:87-111 | walking the tail of a + b from inside b is walking b |
| Utf8.StartsAppend | string.c:87-111 | after a complete a, the starts of a + b number those of a plus those of b |
| Utf8.CountAppend | string.h:57-69 | appending to a string that ends on a codepoint boundary adds the codepoint counts |
| Utf8.EncodingIsOneCodepoint | string.c:151-160 | an encoded rune is one complete codepoint starting at 0 |
| Utf8.MatchedEncodingDecodes | string.c:151-160 | where an encoded rune occurs, the codepoint there decodes to that rune |
| Strings.OfEmpty | string.c:63-70 | `str_of_empty` is "" unless allocation fails, then NULL |
| Strings.NbOf | string.c:39-61 | `str_nbof(s, nb)` is the first min(nb, size) bytes of s ("" for NULL), NULL only on allocation failure |
| Strings.Of | string.c:35-37 | `str_of(s)` is a byte-for-byte clone of s, "" for NULL |
| Strings.Append | string.h:57-69 | `str_append` returns str for NULL or empty s; for NULL str a clone of s, NULL exactly when the allocation fails; otherwise str followed by s, NULL exactly when the reallocation fails |
| Strings.AppendAsWritten | string.c:87-111 | as written, when realloc moves the block the copy of the old contents is read from the released block |
| Strings.AppendInPlaceAgrees | string.c:102-106 | when realloc grows in place the code as written gives the intended result |
| Strings.AppendReadsReleasedBlock | string.c:102-106 | "a" appended with "b" gives "xb" when the released block holds "x" |
| Strings.AppendCounts | Google_tests/string_test.cc:44-64 | appending adds byte sizes and codepoint counts |
| Strings.AppendRuneAddsOne | string.h:57-69 | appending an encoded rune adds exactly one codepoint |
| Strings.IndexFrom | string.c:166-204 | the index search from a codepoint start reports -1 or an index at least the count so far |
| Strings.IndexFromNone | string.c:166-204 | the search gives -1 exactly when lookup occurs at no codepoint start |
| Strings.IndexFromFound | string.c:166-204 | a found index names a codepoint start where lookup occurs, with no earlier one |
| Strings.IndexOfIsFirstMatch | string.c:166-204 | `str_index_string` is -1 iff lookup's bytes occur at no codepoint boundary; otherwise the codepoint index of the first boundary where they occur |
| Strings.IndexString | string.c:166-204 | the pointer-walking loops return -1 for NULL, 0 for an empty lookup, and otherwise the first matching codepoint index |
| Strings.IndexRune | string.c:151-160 | rune 0 gives 0; a valid rune gives the index of its encoding |
| Strings.CStrOfPadded | string.c:155-159 | the zero-padded encoding read as a C string is the encoding |
| Strings.IndexRuneFindsCodepoint | Google_tests/string_test.cc:66-80 | a found rune index names a codepoint that decodes to the rune |
| Strings.RuneToChars | string.c:117-149 | rune 0 gives five zero bytes; a valid rune gives its UTF-8 encoding padded with zeros; larger runes keep the four-byte lead pattern |
| Strings.MaskRanges | string.c:126-135 | the masks of `str_rune_to_chars` select exactly the ranges below 0x80, 0x800 and 0x10000 |
| Strings.FourByteLead | string.c:141-147 | the four-byte branch always writes a lead byte of the form 1111xxxx |
| Strings.CodepointBytePos | string.c:214-261 | a NULL string leaves both tokens alone; otherwise each token gets the byte position of its codepoint, clamped to the end |
| Strings.Resolved | string.c:225-260 | a resolved token points at the byte of its clamped codepoint index |
| Strings.DropOne | string.c:249-250 | advancing to the next codepoint start shifts the remaining starts by one |
| Strings.ScanStep | string.c:238-245 | a token whose codepoint is reached gets its byte position and index, other tokens stay |
| Strings.ScanFinish | string.c:253-260 | tokens not reached by the end of the string are clamped to its end |
| Strings.Slice | string.c:263-284 | the substring of a C string is a C string |
| Strings.SliceWhole | string.c:263-284 | the substring over all codepoints is the whole string |
| Strings.SliceJoin | string.c:263-284 | adjacent substrings join to the substring over both ranges |
| Strings.Substring | string.c:263-284 | `str_substring` is the codepoints [min, max) of the clamped bounds, "" for NULL, NULL only on allocation failure |
| Strings.SampleCodepoints | Google_tests/string_test.cc:15-42 | "a猫🍌c" has codepoint starts 0, 1, 4, 8; "a猫🍌" has 3 codepoints and 8 bytes |
| Strings.SampleSubstrings | Google_tests/string_test.cc:109-141 | substrings (1,2), (0,4), (1,10) and the swapped (2,1) of the sample |
| Strings.SampleIndices | Google_tests/string_test.cc:82-107 | index of a, 猫, 🍌, c in the sample is 0, 1, 2, 3 and of b is -1 |
| Vectors.Inserted | vec_macros.h:149-165 | insertion puts x at i and shifts the later elements right by one |
| Vectors.Erased | vec_macros.h:191-202 | erasure drops element i and shifts the later ones left by one |
| Vectors.EraseUndoesInsert | vec_macros.h:191-202 | erasing at i what was inserted at i restores the vector |
| Vectors.InsertUndoesErase | vec_macros.h:149-165 | inserting back the erased element restores the vector |
| Vectors.InsertAtEndAppends | macros.h:142-158 | insertion at len is a push_back |
| Vectors.EraseReadRangeAsWritten | vec_macros.h:195 | as written, `erase(i)` reads len - i elements starting at i + 1 |
| Vectors.EraseReadsPastLiveRange | icemacros.h:215 | that read range ends at len + 1, one element past the live range |
| Vectors.Vec.constructor | icemacros.h:100-111 | `vec_new`: len 0, cap 0, no elements, no cached pointers |
| Vectors.NewVec | icemacros.h:100-111 | `vec_new` is NULL exactly when the allocation of the vector fails; otherwise a fresh empty vector with no cached pointers |
| Vectors.Vec.Free | icemacros.h:113-124 | `free` returns OK and leaves no elements, no capacity and no cached pointers |
| Vectors.Vec.Reserve | vec_macros.h:105-133 | OK and no change for n <= cap; otherwise cap becomes ceil(1.5n), or BadAlloc with nothing changed on size overflow or allocator failure; len and elements never change |
| Vectors.Vec.PushBack | vec_macros.h:135-147 | on OK the elements are the old ones followed by val; on BadAlloc nothing changes; a push_back that does not reallocate keeps the cached pointers |
| Vectors.Vec.Insert | vec_macros.h:149-165 | on OK the elements are old[..i] + [val] + old[i..], or old + [val] for i >= len; on BadAlloc nothing changes |
| Vectors.Vec.Back | vec_macros.h:167-173 | Underflow and untouched output when empty, otherwise the last element |
| Vectors.Vec.Get | vec_macros.h:175-181 | IllegalArgument and untouched output for i >= len, otherwise element i |
| Vectors.Vec.Set | vec_macros.h:183-189 | IllegalArgument and no change for i >= len, otherwise only element i changes |
| Vectors.Vec.Erase | vec_macros.h:191-202 | IllegalArgument for i >= len; otherwise element i is removed with the rest in order and the cached end cleared |
| Vectors.Vec.Len | icemacros.h:74-76 | the number of elements |
| Vectors.Vec.PopBack | icemacros.h:77-87 | Underflow when empty; otherwise the last element, one element fewer, the cached end cleared |
| Vectors.Vec.Clear | icemacros.h:88-91 | no elements, same capacity and data, the cached end cleared |
| Vectors.Vec.Empty | icemacros.h:92-94 | true exactly when there are no elements |
| Vectors.Vec.Data | icemacros.h:95-97 | the data array, whose first len slots are the elements |
| Vectors.Vec.Begin | icemacros.h:224-227 | the cached begin pointer is set to the data |
| Vectors.Vec.End | icemacros.h:229-232 | a cleared end pointer is recomputed as data + len; a cached one is returned as it is |
| Vectors.Vec.Each | vec_macros.h:229-238 | the callback sees 0..len-1 ascending and the first non-OK result is returned |
| Vectors.Vec.EachReverse | vec_macros.h:239-255 | corrected traversal: the callback sees len-1 down to 0, nothing on an empty vector (where the source's `size_t i = len - 1` wraps to SIZE_MAX), and the first non-OK result is returned |
| Vectors.Vec.Search | vec_macros.h:265-283 | the first matching index, or len when none matches |
| Vectors.PushThenPop | macros.h:50-60 | push_back(x) then pop_back returns x and restores the elements |
| Vectors.EraseOverreadsFullVector | macros.h:188 | erasing index 0 of a full two-element vector reads the half-open slot range [1, 3), whose last slot 2 is one past the 2-slot block |
| Vectors.StaleEndAfterPush | vec_macros.h:261-264 | after `end()` on an empty vector, a push_back that does not reallocate leaves `end()` at index 0 with one element live |
| Vectors.EraseMiddle | Google_tests/vec_uint64_test.cc:156-177 | removing 100 from [10, 100, 1000] leaves [10, 1000] |
| Vectors.InsertAtFront | Google_tests/vec_uint64_t_test.cc:182-243 | inserting 10 at the front of [100, 1000] gives [10, 100, 1000] |
| Buffers.ByteOf | buf_macros.h:143-152 | the byte `memset` writes is c modulo 256 |
| Buffers.Filled | buf_macros.h:143-152 | exactly the bytes in [from, to) become b, the others stay |
| Buffers.ReserveRequestAsWritten | buf_macros.h:110-114 | as written: the capacity check uses `sizeof(type)` and the byte count `new_cap * alignedSize` wraps modulo 2^64 |
| Buffers.ReserveRequest | buf_macros.h:101-125 | the corrected request: ceil(1.5n) slots whose byte count fits a `size_t`, or no request when it does not |
| Buffers.ReserveByteCountWraps | buf_macros.h:110-114 | with a 1-byte type at stride 2, reserving 6148914691236517205 passes the check and asks for 0 bytes |
| Buffers.OneByteStride | buf_macros.h:82 | a 1-byte type at alignment 2 has stride 2 |
| Buffers.GrowToHalfRange | buf_macros.h:108 | growing 6148914691236517205 gives 2^63 |
| Buffers.Buf.constructor | buf_macros.h:75-86 | `buf_new`: no slots, nothing visible, stride `(sizeof(type) + align) & ~(align - 1)` |
| Buffers.NewBuf | buf_macros.h:75-86 | `buf_new(align)` is NULL exactly when align is 0 (aligned malloc refuses it) or the allocation fails; otherwise a fresh empty buffer with the stride for align |
| Buffers.Buf.Free | buf_macros.h:88-99 | `free` returns OK with every field reset |
| Buffers.Buf.Reserve | buf_macros.h:101-125 | OK and no change for n <= cap; otherwise cap becomes ceil(1.5n) with the old bytes kept, or BadAlloc with nothing changed; lim never changes |
| Buffers.Buf.SlotInBlock | buf_macros.h:135-141 | every slot below cap lies inside the block and is aligned |
| Buffers.Buf.Back | buf_macros.h:127-133 | Underflow and untouched output when lim == 0, otherwise the slot of index lim-1 |
| Buffers.Buf.Get | buf_macros.h:135-141 | Overflow and untouched output for i >= lim, otherwise the aligned slot at byte offset i * alignedSize |
| Buffers.Buf.Memset | buf_macros.h:143-152 | for i < lim exactly the bytes of slot i become c; Overflow and no change otherwise |
| Buffers.Buf.Lim | buf_macros.h:154-156 | the number of visible slots, at most cap |
| Buffers.Buf.SetLim | buf_macros.h:157-162 | lim becomes min(n, cap); nothing else changes |
| Buffers.Buf.Clear | buf_macros.h:163-165 | lim becomes 0; cap and data stay |
| Buffers.Buf.Empty | buf_macros.h:166-168 | true exactly when lim == 0 |
| Buffers.Buf.Data | buf_macros.h:169-171 | the byte block of cap slots |
| Buffers.Buf.Each | buf_macros.h:173-182 | the callback sees 0..lim-1 ascending and the first non-OK result is returned |
| Buffers.Buf.EachReverse | buf_macros.h:183-195 | corrected traversal: the callback sees lim-1 down to 0, nothing when lim == 0 (where the source's `size_t i = lim - 1` wraps to SIZE_MAX), and the first non-OK result is returned |
| Buffers.ReserveThenSetLim | Google_tests/buf_test.cpp:35-63 | a 12-byte type at alignment 64: stride 64, reserve(3) gives cap 5, set_lim(10) gives lim 5, slot 2 is at byte 128, slot 5 is Overflow |
| AlignedArrays.Stride | icealignedarray.h:66 | the slot stride is a multiple of the alignment above the element size |
| AlignedArrays.BlockSize | icealignedarray.h:68 | the block holds len slots and is empty exactly for len 0 |
| AlignedArrays.Get | icealignedarray.h:89-97 | IllegalArgument for i >= len; otherwise base + i * stride, aligned and inside the block |
| AlignedArrays.SlotsDisjoint | icealignedarray.h:93-95 | distinct slots do not overlap and each holds a whole element |
| AlignedArrays.Len | icealignedarray.h:81-83 | always the compile-time length |
| AlignedArrays.Back | icealignedarray.h:85-87 | `get(len - 1)`: the last slot, or IllegalArgument when len - 1 wraps for len 0 |
| AlignedArrays.New | icealignedarray.h:65-73 | NULL for len 0 or a failed malloc; otherwise an address aligned as requested |
| AlignedArrays.Each | icealignedarray.h:98-107 | the callback sees 0..len-1 ascending and the first non-OK result is returned |
| AlignedArrays.EachReverse | icealignedarray.h:108-124 | corrected traversal: the callback sees len-1 down to 0, each once, nothing when len == 0 (where the source's `size_t i = len - 1` wraps to SIZE_MAX), and the first non-OK result is returned |
| AlignedArrays.ThreeVec3Slots | Google_tests/icealignedarray_test.cpp:52-87 | three 12-byte elements at alignment 16 lie at offsets 0, 16 and 32, index 3 is IllegalArgument, and back is the slot at 32 |
| HashSlots.Pos | ice_hash_table_macros.h:103 | the slot d steps after h stays in the table |
| HashSlots.Dist | ice_hash_table_macros.h:111 | the probe distance from h to j leads back to j |
| HashSlots.Next | ice_hash_table_macros.h:111 | the next slot is (index + 1) modulo capacity, a slot of the table, wrapping to 0 after the last; for the power-of-two capacity the table keeps this is `(index + 1) & (capacity - 1)` |
| HashSlots.Home | ice_hash_table_macros.h:103 | the home slot, hash modulo capacity (the source's `hash & (capacity - 1)` for a power-of-two capacity), is a slot of the table |
| HashSlots.PosInjective | ice_hash_table_macros.h:107-113 | a probe visits each slot at most once per round |
| HashSlots.PosCompose | ice_hash_table_macros.h:107-113 | probing d1 and then d2 steps is probing d1 + d2 steps |
| HashSlots.NextIsPos | ice_hash_table_macros.h:111 | one more step of the probe loop is one more distance |
| HashSlots.ProbeFrom | ice_hash_table_macros.h:107-113 | the probe passes only occupied slots of other keys and stops at an empty slot or the key |
| HashSlots.ProbeStopsAtEmpty | ice_hash_table_macros.h:107 | the probe stops no later than the first empty slot |
| HashSlots.EmptyFrom | ice_hash_table_macros.h:156 | the `fix_up` walk passes only occupied slots and stops at the first empty one |
| HashSlots.TracksInsert | ice_hash_table_macros.h:147-149 | filling an empty slot with a new key adds the key to the map |
| HashSlots.TracksReplace | ice_hash_table_macros.h:131-132 | overwriting a key's slot updates only its value |
| HashSlots.TracksRemove | ice_hash_table_macros.h:180-182 | clearing an occupied slot removes only its key |
| HashSlots.CountOccupied | ice_hash_table_macros.h:78 | the occupied count never exceeds the capacity |
| HashSlots.CountUpdate | ice_hash_table_macros.h:144 | filling or clearing one slot changes the count by one |
| HashSlots.CountPrefix | ice_hash_table_macros.h:211-221 | the count over a prefix grows by one per occupied slot |
| HashSlots.CountPrefixBound | ice_hash_table_macros.h:211-221 | a prefix has no more occupied slots than the whole |
| HashSlots.EmptySlotExists | ice_hash_table_macros.h:126 | a table with fewer entries than slots has an empty slot |
| HashSlots.CountAllEmpty | ice_hash_table_macros.h:87 | a zeroed table has no entries |
| HashSlots.ProbeFindsPresentKey | ice_hash_table_macros.h:99-115 | probing for a stored key reaches its slot |
| HashSlots.ProbeMissesAbsentKey | ice_hash_table_macros.h:107-114 | probing for an absent key ends at an empty slot |
| HashSlots.FillKeepsReachable | ice_hash_table_macros.h:147-149 | filling a slot keeps every other entry reachable |
| HashSlots.ProbedSlotIsReachable | ice_hash_table_macros.h:124-149 | an entry placed where its probe stopped is reachable from its home |
| HashSlots.InsertKeepsAllReachable | ice_hash_table_macros.h:124-149 | inserting at the probe end keeps every entry reachable |
| HashSlots.HoleKeepsWays | ice_hash_table_macros.h:180-185 | after a slot is cleared every entry is still reachable except through the hole |
| HashSlots.RunEndsBeforeWrap | ice_hash_table_macros.h:156 | the run after the hole ends at an empty slot before wrapping around |
| HashSlots.WayStaysInRun | ice_hash_table_macros.h:154-167 | an entry whose probe path crosses the hole sits later in the same run |
| HashSlots.FixUpStart | ice_hash_table_macros.h:154-156 | before `fix_up` only entries of the run after the hole may be unreachable |
| HashSlots.FixUpStep | ice_hash_table_macros.h:157-163 | each entry of the run, once removed, has a probe ending at an empty slot |
| HashSlots.MoveEntry | ice_hash_table_macros.h:157-163 | removing and re-inserting an entry keeps the map, the stored hashes and the count |
| HashSlots.FixUpMove | ice_hash_table_macros.h:157-164 | the re-insertion keeps the `fix_up` loop invariant for the next slot |
| HashSlots.FixUpMoveWays | ice_hash_table_macros.h:157-164 | after re-insertion every entry outside the rest of the run is reachable |
| HashSlots.FixUpDone | ice_hash_table_macros.h:156 | when `fix_up` meets the empty slot every entry is reachable |
| HashSlots.ProbeEndsInTable | ice_hash_table_macros.h:126 | with an empty slot the probe ends inside the table |
| HashSlots.InsertAbsent | ice_hash_table_macros.h:140-151 | inserting an absent key at its probe end adds it to the map and keeps every entry reachable |
| HashSlots.ReplacePresent | ice_hash_table_macros.h:127-133 | replacing a present key's value keeps the map otherwise and every entry reachable |
| HashSlots.ProbeDecides | ice_hash_table_macros.h:107-114 | the probe for a key stops at its slot when present and at an empty slot when absent |
| HashSlots.OccupiedBelow | ice_hash_table_macros.h:245-253 | the occupied slots below n, as `each` visits them |
| HashSlots.OccupiedBelowExact | ice_hash_table_macros.h:245-253 | every occupied slot below n is visited |
| HashSlots.OccupiedBelowAscending | ice_hash_table_macros.h:245 | the visited slots are in ascending order |
| HashSlots.OccupiedBelowPrefix | ice_hash_table_macros.h:245-253 | the slots visited below i are a prefix of those below n |
| HashSlots.OccupiedSlotsHoldKeys | ice_hash_table_macros.h:243-255 | `each` visits every key of the table exactly once |
| HashSlots.CopyStep | ice_hash_table_macros.h:211-221 | copying one more old slot adds its key to the copied map |
| HashSlots.CopyComplete | ice_hash_table_macros.h:211-221 | after the copy loop every key is copied |
| HashTable.SetEntry | ice_hash_table_macros.h:116-152 | the probe ends in the table; a slot with the key gets the new value and returns the old one; otherwise an empty slot gets the entry and the null value is returned |
| HashTable.Rehash | ice_hash_table_macros.h:205-221 | the new array holds the same map with every entry reachable and the same count |
| HashTable.FixUp | ice_hash_table_macros.h:154-167 | the run after the hole is re-inserted: map and count unchanged and every entry reachable again |
| HashTable.EachSlot | ice_hash_table_macros.h:243-255 | the callback sees the occupied slots in ascending order and the first non-OK result is returned |
| HashTable.Table.constructor | ice_hash_table_macros.h:80-93 | `ht_new`: capacity 16, length 0, every slot empty, the empty map |
| HashTable.NewTable | ice_hash_table_macros.h:80-93 | `ht_new` is NULL exactly when the struct or the slot allocation fails; otherwise a fresh valid table of capacity 16 and length 0 holding no keys |
| HashTable.Table.Get | ice_hash_table_macros.h:99-115 | the value stored for key, or the null value when absent |
| HashTable.FindSlot | ice_hash_table_macros.h:174-193 | the probe of `ht_erase` stops at the first slot on the key's probe sequence that is empty or holds the key |
| HashTable.Table.Erase | ice_hash_table_macros.h:169-195 | returns the key's value (the null value if absent); the key alone leaves the map |
| HashTable.Table.RemoveAt | ice_hash_table_macros.h:178-188 | clearing a found slot and running `fix_up` removes exactly its key |
| HashTable.Table.Expand | ice_hash_table_macros.h:197-226 | Overflow or BadAlloc change nothing; otherwise capacity doubles with map and length unchanged |
| HashTable.Table.Put | ice_hash_table_macros.h:227-242 | a null value erases the key; a failed expand gives the null value with nothing inserted; otherwise the key maps to value and the old value (or null) is returned; the table is expanded only when half full |
| HashTable.Table.Store | ice_hash_table_macros.h:238-241 | with room left, `set_entry` maps key to value and returns the old value or null |
| HashTable.Table.Each | ice_hash_table_macros.h:243-255 | the callback sees each occupied slot once in ascending order and the first non-OK result is returned |
| HashTable.Table.Len | ice_hash_table_macros.h:256-258 | the number of keys stored |

## Left out

- Memory lifetime: the model does not cover `free` releasing memory, double free or use after free. `str_free` and `ht_free` are not modelled, and the vector, buffer and array `free` only reset fields.
- The class constructors of `Vec`, `Buf` and `Table` always succeed. The NULL results of `vec_new`, `buf_new` and `ht_new` are modelled by NewVec, NewBuf and NewTable, which take the allocation outcomes as parameters.
- Callbacks that change the container while `each`, `each_reverse` or `search` run. Callbacks are pure functions of the index, and `pUserData` is left out.
- Logging (`ltrace`) and the debug assertions. The assertions become preconditions: a nonzero hash, and a power-of-two alignment.
- Floating point: `ceil(1.5 * (double) n)` is the integer `(3n + 1) / 2`. The `fnv_*_float` functions are not modelled.
- `ice_aligned_realloc`, `col_align_alloc` and `ice_zmalloc_cache_aligned` are one allocation outcome, passed as a parameter. `col_align_alloc` freeing the old block on failure is not modelled.
- utils.h, icehash.h, vec_char.h and vec_uint64_t.h only declare or instantiate. The stack allocator, `ice_offset_of`, the emplace and search functions of the buffer tests, and icestring.h are not part of this model.
- The `memmove`/`memset` return-value checks: those calls return their destination, so the BadAlloc branches they guard are never taken.
- AlignedMalloc.Heap.AlignedMalloc: the block address is a parameter and the size of the block malloc returns is not tracked. The wrap of `size + hdr_size` (icemalloc.c:42-45) is stated by MallocRequest, but the method still returns an aligned address for a size whose request wrapped.
- AlignedArrays.New: requires ValidLayout, whose `len * stride <= SIZE_MAX` excludes macro expansions where `len * size_aligned` (icealignedarray.h:68) wraps. Such an expansion requests the wrapped byte count, which the model does not cover.
- Vectors.Vec.PushBack: requires `len < SIZE_MAX`. At `len == SIZE_MAX` the `len + 1` of `reserve` wraps to 0, a case the vector cannot reach with elements of two or more bytes.
- Vectors.Vec.Insert: requires `len < SIZE_MAX` for the same reason as PushBack.
- Utf8.Next: stops at the end of the string. `utf8codepoint` trusts the lead byte and can step past the NUL of a string that ends inside a codepoint.
- Strings.IndexString: counts codepoints in an unbounded integer. The C `int` counter would overflow past 2^31 codepoints.
- Strings.IndexRune: for runes above 0x10FFFF it states only the byte pattern `str_rune_to_chars` writes, not the index found.
- Strings.CodepointBytePos: the tokens are passed as values and returned, where the C code updates them through pointers.
- The test expecting stride 12 for a 12-byte type at alignment 1 (Google_tests/buf_test.cpp:145) contradicts buf_macros.h:82, which gives 13. The model follows buf_macros.h.

## Findings

| source | as written | input that shows it | evidently intended | confidence | as-written member | corrected member |
|---|---|---|---|---|---|---|
| vec_macros.h:195 | `erase(i)` moves `len - i` elements starting at `data + i + 1` | erase(0) on a full 2-slot vector reads the slot range [1, 3), and slot 2 is one past the block | move `len - i - 1` elements, staying inside the live range | not executed | Vectors.EraseReadsPastLiveRange | Vectors.Vec.Erase |
| vec_macros.h:244 | `each_reverse` starts at `len - 1` on a `size_t`; the same loop is at buf_macros.h:188 and icealignedarray.h:113 | len == 0: the first callback gets index SIZE_MAX | no callback on an empty container | not executed | Traverse.EachReverseWrapsOnEmpty | Traverse.EachReverse |
| buf_macros.h:110 | the overflow check divides by `sizeof(type)` but the block is `new_cap * alignedSize` bytes | 1-byte type, stride 2, reserve(6148914691236517205): the check passes and the byte count wraps to 0 | reject capacities whose byte size at the stride overflows | not executed | Buffers.ReserveByteCountWraps | Buffers.ReserveRequest |
| string.c:102 | after `realloc` the old contents are copied from the old pointer | "a" appended with "b" when realloc moves the block: the copy reads the released block | copy only the appended bytes after a successful realloc | not executed | Strings.AppendReadsReleasedBlock | Strings.Append |
| icemalloc.c:52 | the offset `ptr - p` is stored in a `u_int16_t` | align 65536 and a block at 65536: the offset 65536 truncates to 0 and free releases the wrong address | refuse alignments whose offset does not fit the 16-bit slot | not executed | AlignedMalloc.OffsetTruncatedAtLargeAlign | AlignedMalloc.Heap.AlignedMallocChecked |
