# evol-headers core in Dafny

This project models four headers of the evol-headers C library and proves properties of the model:

- `ev_types.h`: the type descriptor `EvTypeData`. It holds a size, an alignment, copy/free/hash/equal operations and default/invalid values. `TYPEDATA_GEN` builds it from the defaults plus a list of overrides.
- `ev_hash.h`: MurmurHash3 x64-128 and the 64-bit `ev_hash_murmur3` built on it.
- `ev_vec.h`: the generic vector. Its metadata is `length`, `capacity`, a type descriptor and the allocation kind. It supports init, find, push, append, pop, last, the iterators, set-length, set-capacity, grow, clear and fini.
- `ev_str.h`: the dynamic string `evstring`. Its header is `length`, `size` and the allocation kind. It supports creation, the push family, length and size changes, comparison, slicing, first-match and all-match search, replace-first and character search.

Modules:

- `Runtime` (`runtime.dfy`) holds `Exit`. This is how an operation ends in C: it returns, it loops forever, it trips an `assert`, or it has undefined behaviour such as a write past a buffer. It also holds `Allocate`, a nondeterministic `malloc`/`realloc` outcome.
- `Types` (`types.dfy`) models `EvTypeData` as a datatype. An override is a value and `TYPEDATA_GEN` is a fold of overrides over the defaults.
- `Hash` (`hash.dfy`) holds MurmurHash3 as `bv64` functions (`Murmur3`) and as the loop of the C code (`Hash128`, `MurmurHash3X64_128`). The loop is proved equal to the functions. On the functions it proves:
  - `fmix64` and the finalisation are bijections;
  - the hash reads only the first `len` bytes;
  - the upper 32 bits of the 64-bit seed are dropped;
  - two reference vectors hold.
- `Vec` (`vec.dfy`) holds the class `Vector`. Its elements are an `array` of `capacity` slots and its header fields are class fields. A ghost `freed` log records which elements a free callback was applied to.
- `StrText` (`strtext.dfy`) holds the pure text algorithms of `ev_str.h`:
  - slicing, comparison and the string type descriptor;
  - `findFirst`, and the scan `findAll` performs;
  - replace-first as a value;
  - the character searches.

  `findFirst` is specified by a greedy subsequence counter (`Greedy`). The counter is characterised independently: it completes exactly when the query is a subsequence of the text, and `FindFirstSpec` returns the shortest such prefix.
- `Str` (`str.dfy`) holds the class `EvString`. Its header fields are fields and its data area is the array `buf`, with the operations that allocate or change a string.

C's `malloc`/`realloc` failures are a nondeterministic choice (`Runtime.Allocate`), so every method states both its success and its `EV_*_ERR_OOM` outcome. Where the C code loops forever, asserts or writes out of bounds, the method returns the matching `Exit`. It terminates in Dafny either way.

`Vec.GrownCapacity` and `Str.GrownSize` are the same 3/2 rule, but they model two macros, `EV_VEC_GROWTH_RATE` (ev_vec.h:30-35) and `EV_STR_GROWTH_FACTOR` (ev_str.h:39-44). A build can override each of them separately.

Unsigned 64-bit wrap-around is written out where the cited code depends on it:

- `Str.Space` for `getSpace`;
- `Vec.AsInt32` and `Vec.AsU32` for the `i32`/`u32` results of `find`, `push` and `append`;
- `bv64` arithmetic throughout `Hash`.

Behaviour of the code that the comments or the design describe differently:

- `evstring_findAll` returns 0 when `results` is NULL, even though its `check_run` flag suggests a counting dry run (ev_str.h:671-682). `Str.FindAll` returns 0 in that case.
- `evstring_findFirst` advances a cursor through the query on every matching text byte and never resets it (ev_str.h:532-541). It therefore finds the shortest prefix of the text that contains the query as a subsequence, not as a substring. `StrText.FindFirstSpecCorrect` states this.
- A match that ends exactly at the end of the text makes `findAll` and `replaceFirst` call `evstring_slice` with a begin equal to the length. That trips its assert (ev_str.h:489). Both `Str.FindAll` and `StrText.ReplaceFirstSpec` show it as `AssertFails`.
- `findFirst` on an empty text or query trips the same slice asserts. `StrText.FindFirst` returns `None` there.
- The default hash operation (ev_types.h:41-43) is declared `void`, so it discards `ev_hash_murmur3`'s value. `Types.RunHash` returns `NoValue` for it.
- `EV_VEC_INIT_CAP` and the growth rate of 3/2 apply as written. Growing a capacity of 0 or 1 leaves it unchanged, so a push onto a full vector of capacity 0 or 1 writes past the end in `ev_vec_push` (ev_vec.h:531-545). In `ev_vec_setlen` and `evstring_setLength` the same case is a loop that never ends.
- `evstring_setSize(n)` reallocates `H + n` bytes but records `size = n`. As a result `getSpace` reports `H` bytes fewer than the block offers. On a literal, whose `size` does not count the header, `getSpace` wraps around to nearly 2^64. The `evstr` literal's `size` is `len`, so a push onto a fresh literal always fails with `EV_STR_ERR_OOM` (`Str.PushOntoLiteral`). A literal that `setLength` has first shortened by `H + k` bytes or more accepts a push of `k` bytes; `Str.ShortenLiteral` states when that shortening succeeds.

## Model

| member | source | states |
|---|---|---|
| Types.DefaultOpsWithoutOverrides | ev_types.h:33-47 | a descriptor `TYPEDATA_GEN` builds without `COPY`, `EQUAL` or `HASH` arguments carries the `EV_REGISTER_TYPE` defaults; copying through it yields the source value, its equality holds exactly for equal values, and its hash leaves the caller no value |
| Types.LastForAbsent | ev_types.h:76 | a field that no `TYPEDATA_GEN` argument designates keeps its default initialiser |
| Types.DefaultHashReturnsNothing | ev_types.h:41-43 | a caller of the default hash operation receives no hash value |
| Types.Apply | ev_types.h:88-93 | one override replaces exactly its target field (copy, free, hash, equal, default or invalid value) and leaves every other field, the size and the alignment as they were |
| Types.LastForFront | ev_types.h:76 | the override that wins for a field is the last one in the list that names it |
| Types.ApplyAllField | ev_types.h:64-77 | after all overrides, each field holds the payload of the last override naming it, or its previous value when none does |
| Types.ApplyAllLayout | ev_types.h:64-77 | overrides never change the size or the alignment |
| Types.TypeDataGenFields | ev_types.h:64-77 | `TYPEDATA_GEN` yields the type's size and alignment; each operation is the default one, and both values are zero, unless the last override for that field says otherwise |
| Types.TypeDataGenHasAllOps | ev_types.h:64-77 | every descriptor built by `TYPEDATA_GEN` has all four operations set |
| Hash.RotlIsRotation | ev_hash.h:37-40 | the shift-and-or `rotl64` is a rotation for the three amounts the hash uses |
| Hash.PackedIsLoadLE | ev_hash.h:52-55 | packing up to eight bytes by shifts is the little-endian value of those bytes |
| Hash.GetBlock64IsLoadLE | ev_hash.h:52-55 | block `i` is the little-endian 64-bit word at bytes `8i .. 8i+8` |
| Hash.XorShiftInvolution | ev_hash.h:62-66 | each `k ^= k >> 33` step of `fmix64` undoes itself |
| Hash.Fmix64 | ev_hash.h:60-69 | `fmix64` maps 0 to 0 |
| Hash.Fmix64RoundTrip | ev_hash.h:60-69 | `fmix64` has an inverse: multiplying by the odd constants' inverses and undoing the xor-shifts returns the input |
| Hash.Fmix64Injective | ev_hash.h:60-69 | two words have the same `fmix64` exactly when they are equal |
| Hash.TailK1IsLoadLE | ev_hash.h:123-131 | the low tail word collected by the fall-through cases 8 to 1 is the little-endian value of the first (up to 8) tail bytes |
| Hash.TailK2IsLoadLE | ev_hash.h:114-121 | the high tail word collected by cases 15 to 9 is the little-endian value of the tail bytes after the eighth |
| Hash.FinalizeUnfold | ev_hash.h:137-146 | the finalisation xors in the length, cross-adds, applies `fmix64` to both halves and cross-adds again |
| Hash.FinalizeRoundTrip | ev_hash.h:137-146 | for a given length the finalisation can be inverted, so it recovers the pre-final state |
| Hash.FinalizeInjective | ev_hash.h:137-146 | distinct pre-final states give distinct 128-bit hashes |
| Hash.GetBlock64ReadsPrefix | ev_hash.h:88-93 | a block read depends only on the bytes inside that block |
| Hash.BlocksReadPrefix | ev_hash.h:90-102 | the body loop over `n` blocks depends only on the first `16n` bytes |
| Hash.HashReadsOnlyPrefix | ev_hash.h:73-150 | the 128-bit hash of `len` bytes depends only on those `len` bytes |
| Hash.SeedUpperBitsIgnored | ev_hash.h:154-159 | `ev_hash_murmur3` truncates its seed to 32 bits, so seeds that agree on the low 32 bits give the same hash |
| Hash.EmptyKeyVector | ev_hash.h:73-150 | the empty key with seed 0 hashes to two zero words |
| Hash.HelloVector | ev_hash.h:73-150 | the five bytes `hello` with seed 0 hash to the published x64-128 value `cbd8a7b341bd9b02 5b1e906a48ae1d19` |
| Hash.TailHigh | ev_hash.h:114-120 | the switch's fall-through for cases 15 to 9 builds the high tail word |
| Hash.TailLow | ev_hash.h:123-130 | the switch's fall-through for cases 8 to 1 builds the low tail word |
| Hash.MixTailHigh | ev_hash.h:112-121 | the high half of the tail stage: mix and fold into `h2` only when more than 8 tail bytes remain |
| Hash.MixTailLow | ev_hash.h:112-131 | the low half of the tail stage: mix and fold into `h1` only when some tail byte remains |
| Hash.Hash128 | ev_hash.h:73-146 | the block loop, the tail switch and the finalisation compute exactly the 128-bit MurmurHash3 state of the first `len` bytes |
| Hash.MurmurHash3X64_128 | ev_hash.h:73-150 | the two output words are the two halves of the hash, and no other slot of `out` is written |
| Hash.EvHashMurmur3 | ev_hash.h:154-159 | `ev_hash_murmur3` is the first 64-bit word of the 128-bit hash seeded with the low 32 bits of `seed` |
| Vec.GrownCapacity | ev_vec.h:34 | growing by 3/2 in integer arithmetic never shrinks, and strictly grows exactly when the capacity is at least 2 |
| Vec.AsInt32 | ev_vec.h:478-502 | the `i32` result is the value modulo 2^32 in the signed range, and equals it when it fits |
| Vec.AsU32 | ev_vec.h:578-599 | the `u32` result is the value modulo 2^32, and equals it when it fits |
| Vec.ApplyAllSnoc | ev_vec.h:457-464 | applying one more override after a list is the same as applying the extended list |
| Vec.InitOverridesAsList | ev_vec.h:457-464 | `ev_vec_init_impl`'s override of copy, then equal, then free is the `TYPEDATA_GEN` fold over those present, so each field holds the last override given |
| Vec.GeneratedDescriptorDefaults | ev_vec.h:478-549 | a vector whose element descriptor comes from `TYPEDATA_GEN` without `COPY` or `EQUAL` stores pushed values unchanged, and `ev_vec_find` over it finds the first element `==` to the value |
| Vec.FirstMatch | ev_vec.h:478-502 | the index of the first element equal to the value under the descriptor's equality, or -1 when no element is |
| Vec.FirstMatchAt | ev_vec.h:478-502 | an index whose element matches, with none before it, is the first match |
| Vec.ScaleInjective | ev_vec.h:551-576 | byte offsets `k * size` with a non-zero size identify the element index |
| Vec.Vector.HeapBlock | ev_vec.h:466-475 | a new heap vector is empty, holds `EV_VEC_INIT_CAP` slots and the given descriptor |
| Vec.Vector.Init | ev_vec.h:448-476 | `ev_vec_init` yields NULL when `malloc` fails, otherwise an empty heap vector of capacity 32 whose descriptor carries the overrides |
| Vec.Vector.StackBlock | ev_vec.h:145-164 | a stack vector has the given length and capacity and initial slots |
| Vec.Vector.IterAfterIsOffset | ev_vec.h:551-576 | `k` steps of `ev_vec_iter_next` from `ev_vec_iter_begin` reach byte offset `k * size`, which is `ev_vec_iter_end` exactly at `k == length` |
| Vec.Vector.Last | ev_vec.h:628-640 | `ev_vec_last` yields nothing for an empty vector and otherwise its final element |
| Vec.Vector.IterLoopStep | ev_vec.h:551-576 | before the end iterator the index is below the length and the next iterator is one element further |
| Vec.Vector.IterLoopEnd | ev_vec.h:551-566 | reaching the end iterator with a non-zero element size means every element was visited |
| Vec.Vector.Find | ev_vec.h:478-502 | `ev_vec_find` returns the first index matching the value under the equal operation (as an `i32`), or -1; it is -1 for a zero-size type whose iteration never starts |
| Vec.Vector.SetCapacity | ev_vec.h:698-729 | a stack vector reports OOM; an unchanged capacity is a no-op; otherwise the capacity becomes the requested one, the old elements up to the smaller capacity are kept, and the length is not adjusted |
| Vec.Vector.Grow | ev_vec.h:731-738 | the capacity becomes `capacity * 3 / 2`, or stays when `realloc` fails or the vector is on the stack; the elements are kept |
| Vec.Vector.SetLen | ev_vec.h:678-696 | a length within the capacity is set directly; a larger one grows until it fits, fails with OOM on the stack or when growing fails, and never ends when the capacity is 0 or 1 |
| Vec.Vector.Push | ev_vec.h:524-549 | the copied value is appended and its index returned; a full stack vector returns the OOM code and is unchanged; a full vector of capacity below 2 is written past its end |
| Vec.Vector.Append | ev_vec.h:578-599 | the first `n` values are appended and the old length returned; OOM leaves the contents unchanged; growth that cannot progress never ends |
| Vec.Vector.Pop | ev_vec.h:601-626 | the last element is removed; it is copied out when asked, otherwise it goes through the free operation when there is one; an empty vector is undefined |
| Vec.Vector.FreeElements | ev_vec.h:660-676 | the free operation is applied to every element, in order, when it exists and the element size is non-zero |
| Vec.Vector.Clear | ev_vec.h:660-676 | each element is freed and the length becomes 0, with the storage kept |
| Vec.Vector.Fini | ev_vec.h:504-522 | each element is freed, then the vector becomes empty with no storage |
| StrText.Slice | ev_str.h:477-499 | negative bounds count from one past the end; the slice exists exactly when the wrapped bounds pass the three asserts, and is then a non-empty window inside the string |
| StrText.SliceWhole | ev_str.h:477-499 | `slice(s, 0, -1)` is the whole string, and trips the assert on an empty one |
| StrText.SliceToEnd | ev_str.h:477-499 | `slice(s, b, -1)` is the suffix from `b`, and trips the assert when `b` is the length |
| StrText.SliceFromStart | ev_str.h:477-499 | `slice(s, 0, e)` is the first `e` bytes for `0 < e <= len` |
| StrText.SliceNegative | ev_str.h:477-499 | with both bounds negative, which slices exist and where they lie |
| StrText.Strlen | ev_str.h:300-306 | the index of the first NUL byte |
| StrText.Memcmp | ev_str.h:405-418 | zero exactly when the first `n` bytes agree |
| StrText.CmpZeroIffEqual | ev_str.h:405-418 | `evstring_cmp` is zero exactly when the two strings are equal |
| StrText.CmpLengthMismatch | ev_str.h:405-418 | strings of different lengths compare as 1, in either order |
| StrText.StringEqual | ev_str.h:195-198 | the string equality holds exactly for equal strings |
| StrText.StringTypeDataOps | ev_str.h:200-202 | the string descriptor takes its equality from `evstring_cmp` and keeps the default copy, free and hash; its equality holds exactly for equal strings |
| StrText.GreedyCompleteIff | ev_str.h:532-541 | the cursor of the matching loop reaches the end of the query exactly when the query is a subsequence of the text scanned |
| StrText.GreedyMonotone | ev_str.h:532-541 | scanning more text never moves the cursor back |
| StrText.FindFirstSpec | ev_str.h:519-543 | the result is either not found (offset `~0`, length 0) or a query-length view inside the text window |
| StrText.FindFirstSpecCorrect | ev_str.h:519-543 | a match is found exactly when the query is a subsequence of the text; it ends at the shortest prefix of the text that contains the query as a subsequence |
| StrText.FindFirstImpl | ev_str.h:519-543 | the matching loop returns what `FindFirstSpec` states |
| StrText.FindFirst | ev_str.h:545-553 | `evstring_findFirst` trips a slice assert exactly when the text or the query is empty, and otherwise searches the whole text for the whole query |
| StrText.FindFirstFound | ev_str.h:545-553 | over whole strings, a match is found exactly when the query is a subsequence of the text, and otherwise the result is the not-found view |
| StrText.ScanStart | ev_str.h:666-673 | before the first search, nothing has been found and the whole text remains to be scanned |
| StrText.ScanRound | ev_str.h:673-680 | each found view lies beyond the previous one; it is the last one with an assert failure when it reaches the end of the text, otherwise the scan continues after it |
| StrText.ScanEnd | ev_str.h:673-674 | when no further match is found, the views found are all the matches and the scan ends normally |
| StrText.FindAllOrdered | ev_str.h:657-683 | the views `findAll` reports lie inside the text, have the query's length and are increasing and non-overlapping |
| StrText.FindAllTrivial | ev_str.h:668-670 | an empty text, an empty query or a query longer than the text gives no views |
| StrText.ScanRounds | ev_str.h:673-680 | a text made of gaps that do not contain the query's first byte, each followed by the query, plus a tail that does not complete it, yields one view per query occurrence, in order |
| StrText.FindAllRounds | ev_str.h:657-683 | for such a text, `findAll` reports exactly those views |
| StrText.SearchTextVector | str_test.c:46-57 | `findAll` of `Hello` in the test sentence finds three views of length 5 at offsets 0, 26 and 56 |
| StrText.ReplaceFirstShape | ev_str.h:555-589 | `replaceFirst` trips a slice assert exactly when a string is empty or the match ends the text; with no match it copies the text; otherwise the result is the text before the match, the replacement, then the text after the match |
| StrText.FirstIndexOf | ev_str.h:626-639 | the first index holding the byte, or -1 when it does not occur |
| StrText.LastIndexOf | ev_str.h:641-655 | the last index holding the byte, or -1 when it does not occur |
| StrText.FindFirstChar | ev_str.h:626-639 | `evstring_findFirstChar`'s forward loop returns the first index of the byte, or -1 |
| StrText.FindLastChar | ev_str.h:641-655 | `evstring_findLastChar`'s backward loop returns the last index of the byte, or -1 |
| Str.GrownSize | ev_str.h:43 | growing by 3/2 in integer arithmetic never shrinks, and strictly grows exactly when the size is at least 2 |
| Str.Space | ev_str.h:501-508 | `getSpace` is `size - length - 1 - H` when that is non-negative, and otherwise wraps modulo 2^64 |
| Str.NewStringSpace | ev_str.h:235-261 | a string fresh from `new_impl` has no spare room |
| Str.LiteralSpace | ev_str.h:64-73 | on a literal `getSpace` wraps to `2^64 - H` |
| Str.ResizedSpace | ev_str.h:333-363 | after `setSize(n)` the data area is `n - length - 1` bytes, `H` more than `getSpace` reports |
| Str.EvString.GetLength | ev_str.h:325-331 | the recorded length is the length of the contents |
| Str.EvString.HeapBlock | ev_str.h:235-261 | a heap string's size counts the header, the bytes and the terminating NUL |
| Str.EvString.Literal | ev_str.h:64-73 | an `evstr` literal has length `len` and size `len + 1`, on the stack |
| Str.EvString.NewImpl | ev_str.h:235-261 | a fresh heap string holding the first `len` bytes and a NUL, with size `H + len + 1`, or an assert failure when `malloc` fails |
| Str.EvString.NewFromStr | ev_str.h:300-306 | a fresh heap string holding the bytes before the first NUL, followed by a NUL, with size `H + strlen + 1`, or an assert failure when `malloc` fails |
| Str.EvString.NewFromView | ev_str.h:308-313 | a fresh heap string holding exactly the view's bytes, followed by a NUL, with size `H + len + 1`, or an assert failure when `malloc` fails |
| Str.EvString.Free | ev_str.h:315-323 | only heap strings are released; the header is otherwise untouched |
| Str.EvString.SetSize | ev_str.h:333-363 | literals report OOM; an unchanged size is a no-op; otherwise the recorded size becomes `n`, the bytes that fit are kept and the length is not checked |
| Str.EvString.Grow | ev_str.h:365-371 | the size becomes `size * 3 / 2`, or stays on failure or for a literal; the bytes are kept |
| Str.EvString.AddSpace | ev_str.h:510-517 | the size grows by exactly the requested amount, or stays on failure |
| Str.EvString.GrowTo | ev_str.h:373-395 | grows until the header plus the needed bytes fit, fails with OOM, or never ends when the size is below 2 |
| Str.EvString.SetLength | ev_str.h:373-395 | the length becomes `n` after growing to fit `n` bytes and a NUL; shortening keeps the prefix; literals can only shrink by at least `H`; below size 2 growth never ends |
| Str.EvString.Clear | ev_str.h:397-403 | sets the length to 0 when the header's room allows, through `setLength(0)` |
| Str.EvString.PushImpl | ev_str.h:421-446 | on success the contents gain the first `sz` bytes, followed by a NUL; on OOM they are unchanged; a heap string too small to grow never returns |
| Str.EvString.PushChar | ev_str.h:448-455 | on success the contents gain the byte |
| Str.EvString.PushStr | ev_str.h:457-465 | on success the contents gain the bytes before the source's first NUL |
| Str.EvString.PushView | ev_str.h:467-475 | on success the contents gain the view's bytes, and pushing a view of the string onto itself trips the assert |
| Str.PushOntoLiteral | ev_str.h:64-73 | every push onto a fresh literal fails with `EV_STR_ERR_OOM` |
| Str.ShortenLiteral | ev_str.h:373-395 | a literal's length can be set to `n` exactly when `n + H` fits its data; otherwise OOM |
| Str.Record | ev_str.h:678-680 | storing a view appends it to the results so far, and is a write past the end when those are full |
| Str.FindAll | ev_str.h:657-683 | the count and the stored views are exactly the matches of the scan; too many matches write past `results`; a match ending the text trips the slice assert; NULL `results` gives 0 |
| Str.PushDroppingError | ev_str.h:578-586 | a push inside `replaceFirst`, whose result is ignored, either appends the bytes or leaves the string unchanged |
| Str.BuildReplacement | ev_str.h:572-586 | when every push succeeds, the new string is the text before the match, the replacement and the text after it; a match ending the text trips the slice assert |
| Str.ReplaceFirst | ev_str.h:555-589 | `replaceFirst` returns a fresh heap string equal to the replace-first value when no allocation fails, a copy of the text when there is no match, and asserts where that value does |

## Left out

- `ev_log.h`, `ev_map.h`, `ev_numeric.h`, `memory_tracking.h` and the tostr machinery are not part of this model.
- The fmt functions of `ev_str.h` (`newFmt`, `pushFmt`) format through `vsnprintf`, which is not part of this model.
- The magic-number asserts (`evstr_asserttype`, `__ev_vec_getmeta`) and the raw memory layout of the header in front of the data are not modelled. Headers are fields, and only well-formed handles exist.
- Alignment is carried as a number and never used.
- `ev_vec_init_impl`'s `tostr` override (ev_vec.h:463-464) assigns a field that `EvTypeData` does not declare. The override has nowhere to go in the model, so it is omitted.
- `realloc` moving a block, and so stale handles and views into an old block, are not modelled. A method ensures only that the new buffer is the old one or fresh.
- Vec.Vector.Fini: after freeing the block, ev_vec.h:521 sets the handle to `EV_VEC_EMPTY` (ev_vec.h:401-420): length 0, capacity 0, on the stack, with `TypeData(i32)`. The model keeps the element type's descriptor, because a `Vector<T>` cannot hold the descriptor of `i32`. It also does not record that the heap block was released.
- Vec.Vector.Last, Vec.Vector.Find, Vec.Vector.Push, Vec.Vector.Append, Vec.Vector.Pop, Vec.Vector.Clear and Vec.Vector.Fini require `length <= capacity` (`Valid()`). `ev_vec_setcapacity` is public and can shrink the capacity below the length (`Vec.Vector.SetCapacity` allows it). In that state the C code reads, writes or frees slots past the block. The model does not describe these operations in that state.
- Vec.Vector.SetCapacity: the product `capacity * size` and the 3/2 growth are unbounded integers. `u64` overflow of the byte size is not modelled.
- Str.EvString.Grow: `size * 3 / 2` is an unbounded integer. `u64` overflow of the size is not modelled, and neither is the `u64` overflow of lengths and counts elsewhere.
- StrText.FindFirstChar: the C loop counter is an `int`. Texts longer than 2^31 bytes are not modelled.
- StrText.FindLastChar: the C loop counter is an `int`. Texts longer than 2^31 bytes are not modelled.
- Str.EvString.PushStr: only a source distinct from the target's buffer is modelled. Pushing a string's own bytes onto itself can read freed memory after a `realloc`.
- StrText.Memcmp: it states only when the result is zero, not the sign or value `memcmp` returns otherwise, which `evstring_cmp` passes through.
- `char` stands for a byte of the string. There is no signedness or encoding.
- `getblock64` reads through a `u64` pointer. It is modelled as a little-endian load of eight bytes (`Hash.GetBlock64IsLoadLE`), so a big-endian host is not covered.
- Vector elements are values of a type `T`. The `memcpy` of an element is modelled as copying the value, and the `memcmp` that `ev_vec_find` uses without an equal operation as `==`, so padding bytes are not modelled.
- `EV_COPY` to `EV_INVALID` (ev_types.h:95-100) are plain field reads of the descriptor, so they have no separate members.
- `H` is 24, the size of the string header in a release build. A debug build's `magic` field would make it 32.
- Str.ReplaceFirst: pushes inside `replaceFirst` ignore their errors. When one fails with OOM the result is only the partial string (`complete` is then false).
- Some C functions are split into several members (`Hash.Hash128`, `Hash.MixTailHigh`/`MixTailLow`, `Str.Record`, `Str.PushDroppingError`, `Str.BuildReplacement`, `Str.EvString.GrowTo`). This keeps each proof small, and each part cites the lines it models.
