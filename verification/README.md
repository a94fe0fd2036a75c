# core.h in Dafny

This project models the in-memory core of the single-header C library `core.h`. The core has
five cooperating components, each modelled in its own module:

- **`Vectors`** (`vec.dfy`): the header-prefixed growable vector `Vec(T)`. Its `len`/`cap`
  header becomes two fields of a class, and its element block is an array that growth
  replaces. Growth goes from capacity 0 to 8 and doubles after that.
- **`ArenaVectors`** (`avec.dfy`): `AVec(T)`, the same vector with every block taken from an
  arena. Growth goes through `arena_realloc`, which copies nothing, so the vector copies its
  elements itself.
- **`Rings`** (`ring.dfy`): the ring-buffer scratch allocator. It bump-allocates over a
  4096-byte buffer and restarts at offset 0 when a request would run past the end.
- **`Arenas`** (`arena.dfy`): the chained bump arena `ArenaAllocator`.
  - It is a linked chain of nodes, each with a block and a cursor.
  - Allocation is always served from the last block, and a full last block gets a fresh
    4096-byte block chained after it.
  - `arena_clear` resets every cursor, and `arena_realloc` is a plain allocation.
  - The chain is seen abstractly as a sequence of `Block(cap, cursor)`. Addresses are
    `Addr(block, offset)`.
- **`Views`** (`views.dfy`): `StringView` and the byte scans that every string type shares
  (`partial_cmp_ptr`, `string_view_contains`). A view's `data` is all the memory readable at
  its pointer, which may reach past its `len`.
- **`Strings`** (`strings.dfy`): the small-string-optimised `String`.
  - It is a tagged union of 24 inline bytes, whose byte 23 holds `24 - len`, and a heap
    block with `cap` and `len`.
  - It supports transform, ×1.5 growth, push and pop, compare and substring search.
  - `Shape` is the abstract value that `string_len`, `string_cap` and `string_cstr` report.
    The effect of push and pop is specified on `Shape`.
- **`AStrings`** (`astrings.dfy`): the arena-backed `AString`.
- **`Mem`** (`mem.dfy`): bytes, `memcpy` and `strcpy`.

The library's push and pop count the terminating NUL in the stored length. Push writes the
character at `len - 1` and a NUL at `len`. Pop writes a NUL at the new `len - 1`. The model
keeps this convention throughout. `string_new` therefore reports length 24, and pop after push
restores a string only when it is terminated.

## Model

| member | source | states |
|---|---|---|
| Vectors.Grown | core.h:995 | a full vector's new capacity is larger than the old one: 8 from 0, twice the old one otherwise |
| Vectors.NextCap | core.h:985-1004 | the capacity after `core_vec_maygrow_internal` never shrinks, stays the same exactly when `len < cap`, and always leaves room for one more element |
| Vectors.PushedCapShape | core.h:231 | after `n` pushes onto `vec_new()` the capacity holds the `n` elements; it is 0 only for no pushes and 8 for 1 to 8 pushes; after that it is always 8·2^k and less than twice the length |
| Vectors.NinePushes | core.h:225 | nine pushes onto `vec_new()` give capacity 16 |
| Vectors.Vec.WithSize | core.h:968-975 | an empty vector with the requested capacity |
| Vectors.Vec.Empty | core.h:1010-1017 | `vec_new`: length 0, capacity 0 |
| Vectors.Vec.FromParts | core.h:1028-1033 | `len = cap = n`, holding exactly the given elements |
| Vectors.Vec.Copy | core.h:1019-1026 | a fresh vector with the same length, capacity and elements |
| Vectors.Vec.At | core.h:244 | the element at an index below the length |
| Vectors.MayGrowAsWrittenReadsFreed | core.h:994-1001 | on a full vector, the C code as written reads the header and elements through the old address after `realloc`: exactly when `realloc` moves the block, those are reads of freed memory; in place it keeps length and elements with the grown capacity |
| Vectors.Vec.MayGrow | core.h:985-1004 | length and elements are kept; the capacity becomes `NextCap(len, cap)`; the block is replaced only when `len >= cap` |
| Vectors.Vec.Push | core.h:231 | the contents become the old contents followed by the value, and the capacity becomes `NextCap(len, cap)`; the block is kept when there is room and replaced by a fresh one when full |
| Vectors.Vec.Pop | core.h:232 | the last element is dropped and the block is kept |
| Vectors.Vec.Clear | core.h:227 | length 0, with the capacity and block kept |
| Vectors.Vec.Put | core.h:233-241 | the new length is `max(len, index + 1)` and the slot holds the value; it grows once if that length reaches the capacity; other slots that existed before keep their values; the block is kept unless the new length reaches the capacity |
| ArenaVectors.BlockBytes | core.h:1280 | a block request always covers the 16-byte header |
| ArenaVectors.AVec.WithSize | core.h:1279-1286 | an empty vector whose block is the arena's `AllocChain` answer for `cap·elem + 16` bytes |
| ArenaVectors.AVec.Empty | core.h:1309-1317 | length and capacity 0; only the header is allocated from the arena |
| ArenaVectors.AVec.At | core.h:345 | the element at an index below the length |
| ArenaVectors.AVec.MayGrow | core.h:1288-1307 | the same growth rule as `Vec`. On growth the block is a fresh arena allocation of the grown size, and length and elements are still kept although `arena_realloc` copies nothing. Without growth the block and the arena are untouched |
| ArenaVectors.AVec.Push | core.h:333 | contents are the old contents followed by the value, and the capacity becomes `NextCap(len, cap)`; with room, the block, its address and the arena chain are unchanged; when full, the chain and the new address are `AllocChain` of the old chain for `BlockBytes(Grown(cap))` |
| ArenaVectors.AVec.Pop | core.h:334 | the last element is dropped |
| ArenaVectors.AVec.Clear | core.h:330 | length 0, with the block kept |
| ArenaVectors.AVec.Put | core.h:335-343 | as `Vec.Put`; when the new length stays below the capacity, the block, its address and the arena chain are unchanged; otherwise the chain and the new address are `AllocChain` of the old chain for `BlockBytes(Grown(cap))` |
| ArenaVectors.AVec.Copy | core.h:1319-1326 | a fresh arena vector with the same length, capacity and elements, allocated as `AllocChain` says |
| ArenaVectors.AVec.ToVec | core.h:1328-1333 | a heap vector with the same capacity, length and elements |
| Rings.RingAlloc | core.h:786-792 | a grant ends where the new write position is; the offset is the old position exactly when the request fits or the position was 0; otherwise it is 0 |
| Rings.RingAllocInBounds | core.h:786-792 | a request no larger than the buffer keeps the write position inside the buffer |
| Rings.ConsecutiveGrantsDisjoint | core.h:786-792 | a grant that does not wrap starts where the previous one ended |
| Rings.WrapOverwrites | core.h:786-792 | a wrapping grant starts at 0 and overlaps an earlier region still handed out |
| Rings.NoWrapWhileFits | core.h:781-793 | requests whose sizes add up to the room left are granted back to back, at the running sums |
| Rings.RunRingInBounds | core.h:781-793 | from a position inside the buffer, every region of a run of requests each no larger than the buffer lies inside it |
| Rings.ZeroedBufferGrantsOutside | core.h:781-793 | on the zero-initialised ring buffer of the thread context, every non-empty request is granted at offset 0 and runs past the end of a buffer of size 0 |
| Rings.RingBuffer.Init | core.h:773-779 | a fresh 4096-byte buffer with write position 0 |
| Rings.RingBuffer.Zeroed | core.h:1443 | the zero-initialised buffer: no block, size 0 |
| Rings.RingBuffer.Alloc | core.h:781-793 | as written: the block is never created; the grant and new write position are `RingAlloc` of the old state |
| Rings.RingBuffer.AllocLazy | core.h:781-793 | corrected: a buffer without a block first gets a 4096-byte one, so a request of at most 4096 bytes lands inside it; the grant is `RingAlloc` |
| Arenas.AllocChain | core.h:1069-1085 | allocation serves from the last block or appends one default-sized block; the returned address ends at the new cursor; earlier blocks are unchanged; no cursor passes its block's end |
| Arenas.ClearChain | core.h:1063-1067 | same number of blocks and the same capacities, every cursor at 0 |
| Arenas.ClearIdempotent | core.h:1097-1099 | clearing twice is clearing once |
| Arenas.AllocAfterClear | core.h:1074-1080 | after a clear, allocation restarts at the last block's start or in a new block, never in an earlier block |
| Arenas.SuccessiveAllocsDisjoint | core.h:1069-1085 | two successive allocations never overlap |
| Arenas.AllocChainCons | core.h:1074-1076 | allocating on a longer chain delegates to the rest of the chain |
| Arenas.AllocChainSingle | core.h:1077-1084 | allocation on a one-block chain either bumps the cursor or chains one fresh block |
| Arenas.ArenaAllocator.New | core.h:1042-1054 | one block of `size` bytes (4096 when `size` is 0) with its cursor at 0 |
| Arenas.ArenaAllocator.Zeroed | core.h:1443 | a zero-initialised arena: no block |
| Arenas.ArenaAllocator.Alloc | core.h:1069-1087 | the chain and address after the call are exactly `AllocChain` of the old chain |
| Arenas.ArenaAllocator.Realloc | core.h:1091-1095 | `src` is ignored: the same as `Alloc` |
| Arenas.ArenaAllocator.Clear | core.h:1063-1067 | the chain becomes `ClearChain` of the old chain, with the nodes kept |
| Arenas.ArenaAllocator.Dealloc | core.h:1056-1061 | every block of the chain is released |
| Views.StrLen | core.h:400-402 | the index of the first NUL, with no NUL before it |
| Views.ViewFrom | core.h:400-402 | the view's length is the C string's length; its data is the memory |
| Views.PartialCmp | core.h:434-441 | true exactly when the first `n` bytes agree |
| Views.ViewContains | core.h:419-432 | false for an empty predicate; otherwise true exactly when the predicate occurs at a start index below `len` |
| Views.OccursInItself | core.h:419-432 | a non-empty view contains itself |
| Views.MatchMayRunPastLength | core.h:423-428 | an occurrence may run past the haystack's length: the first two bytes of "abcd" contain "bc" |
| Views.OccursGrows | core.h:419-432 | an occurrence is still found in a longer view of the same memory |
| Strings.GrownCap | core.h:463-470 | ⌊cap·3/2⌋, which is larger than `cap` from 2 on |
| Strings.PushShape | core.h:581-599 | push keeps the bytes before the old terminator, writes `c` there and a NUL after it, goes long at 24 bytes, grows a full long string to `GrownCap`, and keeps the string consistent |
| Strings.PopKeepsConsistent | core.h:625-636 | pop keeps a string consistent and terminated |
| Strings.ShrinkReportsShortLength | core.h:625-636 | a long string popped to fewer than 24 bytes turns short and reports length 24, not its real length |
| Strings.PushThenPop | core.h:581-636 | on a terminated short string, or a long one above 24 bytes, pop right after push restores the form and every counted byte |
| Strings.PushAll | core.h:618-623 | pushing `k` bytes adds `k` to the length and keeps the string consistent |
| Strings.PushAllText | core.h:618-623 | after pushing `bytes`, the content is the old content before its terminator, then `bytes`, then a NUL |
| Strings.PushAllSnoc | core.h:618-623 | pushing one more byte after a run of pushes is pushing the longer run |
| Strings.String.Len | core.h:573-579 | `24 - data[23]` for a short string, `len` for a long one, never above the capacity |
| Strings.String.Cap | core.h:565-571 | 24 for a short string, above 24 exactly for a long one |
| Strings.String.Cstr | core.h:557-563 | the inline buffer exactly for a short string |
| Strings.String.IntoView | core.h:704-709 | a view whose length is `string_len` and whose first bytes are the string's content |
| Strings.String.New | core.h:472-477 | a zeroed short string, which reports length 24 |
| Strings.String.NewSize | core.h:479-490 | long exactly when `size > 24`, with `cap = size` and length 0 |
| Strings.String.From | core.h:492-505 | up to 22 bytes: short, holding the bytes; 23 bytes: the terminator overwrites the reserved byte and the length reads 24; above 24 bytes: long with `len = cap = n` and a NUL after the bytes; except at 23 bytes the result is a C string (`IsCString`) |
| Strings.String.FromParts | core.h:507-522 | long exactly when the capacity is above 24, holding the C string in a block of `cap + 1` bytes (corrected, see Findings); short otherwise with reserved byte `24 - len`; given the C string's length plus one, the string reads back as the C string and its NUL; given the C string's own length, it reads back as the C string and is a C string, except for a short one of 23 bytes |
| Strings.ShortFromPartsText | core.h:518-521 | the counted bytes of a short result are the C string padded with zeros, and exactly the C string and its NUL when the length counts them |
| Strings.String.Transform | core.h:444-461 | short becomes long with length 24 and capacity 25, keeping the 24 bytes; long becomes short, keeping its bytes and reading as length 24 below 24 bytes |
| Strings.String.Grow | core.h:463-470 | capacity becomes `GrownCap(cap)` and the bytes are kept |
| Strings.String.Push | core.h:581-599 | the string's new value is `PushShape` of its old value |
| Strings.String.Pop | core.h:625-636 | old and new value are related by `PopStep` |
| Strings.String.PushBytes | core.h:618-623 | the new value is `PushAll` of the old value and the bytes |
| Strings.String.PushPtr | core.h:618-623 | the new value is `PushAll` of the old value and the C string's bytes |
| Strings.String.PushStr | core.h:611-616 | pushes the other string's first `len - 1` bytes, as read on entry |
| Strings.String.CmpView | core.h:654-667 | true exactly when the lengths are equal and the first `len` bytes agree |
| Strings.String.Cmp | core.h:638-652 | true exactly when the two strings report the same counted bytes |
| Strings.String.Contains | core.h:669-682 | false for an empty predicate; otherwise true exactly when the predicate occurs at a start index below `string_len` |
| Strings.Copy | core.h:700-702 | same form, length and capacity; a string whose counted bytes are a C string and its terminator, or a C string followed by a NUL (every `string_from` result but the 23-byte one), is copied exactly |
| Strings.CstrParts | core.h:700-702 | the C string at `cstr` up to its first NUL, with the string's length and capacity; for counted bytes that are a C string and its terminator, exactly the bytes before the terminator; for counted bytes followed by a NUL, exactly the counted bytes |
| Strings.ViewIntoString | core.h:408-410 | long exactly when the view is longer than 24, with length and capacity the view's length and the C string copied; short otherwise, with length 24 for a 23-byte C string and the view's length else, holding the C string padded with zeros; a view of a C string (`string_view_from`) reads back as its bytes unless it has 23 bytes |
| Strings.CopyOfLongFromOverflows | core.h:507-515 | a long `string_from` result has `strlen` equal to its capacity, so `string_from_parts` as written, reached from `string_copy` or `string_view_into_string`, copies `cap + 1` bytes into `cap` |
| AStrings.GrownCap | core.h:1104-1109 | ⌊cap·3/2⌋ |
| AStrings.PushedCapGrows | core.h:1185-1191 | pushes never shrink the capacity, a push onto a full string grows it, pushes that fit keep it, and the capacity always holds the pushed length |
| AStrings.PushStrNeverExits | core.h:1193-1197 | as written, the loop of `astring_push_str` never exits on a string of length at least 1 |
| AStrings.AString.Len | core.h:1181-1183 | the length, never above the capacity |
| AStrings.AString.Cap | core.h:1177-1179 | the size of the block, 0 without one |
| AStrings.AString.AsView | core.h:1173-1175 | the length and the memory at `astring_cstr` |
| AStrings.AString.New | core.h:1111-1118 | no block, capacity and length 0 |
| AStrings.AString.NewSize | core.h:1120-1129 | a block of `size` bytes allocated as `AllocChain` says, length 0 |
| AStrings.AString.From | core.h:1131-1138 | a block of exactly `n` bytes holding the C string's bytes, with `len = cap = n` |
| AStrings.AString.FromParts | core.h:1140-1149 | a block of `cap` bytes starting with the C string and its NUL, with the given length and capacity; given the C string's length it reads back as the C string followed by a NUL |
| AStrings.AString.Grow | core.h:1104-1109 | capacity becomes `GrownCap(cap)` in a fresh arena block; the bytes are not carried over |
| AStrings.AString.Push | core.h:1185-1191 | writes `c` at `len - 1` and a NUL at `len`; the length grows by one; a full string first grows; without growth the earlier bytes and the block are kept |
| AStrings.AString.Pop | core.h:1205-1208 | the length drops by one and a NUL is written at the new last counted byte |
| AStrings.AString.PushBytes | core.h:1199-1203 | length grows by the number of bytes, with the capacity as `PushedCap` predicts; when nothing grows, the content is the old content before its terminator, then the bytes, then a NUL |
| AStrings.AString.PushPtr | core.h:1199-1203 | as `PushBytes` for the C string's bytes |
| AStrings.AString.PushStr | core.h:1193-1197 | corrected: pushes the other string's first `len - 1` bytes, with the result described as for `PushBytes`, including that a push that fits keeps the block and the arena chain |
| AStrings.AString.Cmp | core.h:1210-1224 | true exactly when the two strings have the same counted bytes |
| AStrings.AString.ContainsView | core.h:1242-1255 | false for an empty predicate; otherwise true exactly when the predicate occurs at a start index below the length |
| AStrings.AString.Contains | core.h:1226-1240 | as `ContainsView`, with the other string's length and memory |
| AStrings.AString.Copy | core.h:1268-1270 | same length and capacity in a fresh block of the same arena; a terminated C-string content, or a C string followed by a NUL, is copied exactly |
| AStrings.AString.CstrParts | core.h:1268-1270 | the C string in the block up to its first NUL, with the length and capacity; for counted bytes that are a C string and its terminator, exactly the bytes before the terminator; for counted bytes followed by a NUL, exactly the counted bytes |
| AStrings.AString.ToString | core.h:1272-1274 | a heap string exactly when the capacity is above 24, with the same length and capacity; a short result reports 24 for a 23-byte C string and the length else; a terminated C-string content keeps its bytes in either form, and so does a C string followed by a NUL unless it becomes a short string of 23 bytes |
| AStrings.FromString | core.h:1169-1171 | same length and capacity in a fresh arena block; a terminated C-string content, or a C string followed by a NUL, keeps its bytes |

## Left out

- I/O is not part of this model: file handles, the std streams, `print`/`println` and logging
  (core.h:798-963, core.h:1338-1428).
- The printf-based formatting functions rest on `vsnprintf`, a foreign call, and are not
  modelled. These are `string_format`, `string_vformat`, `string_pushf`, `astring_format`,
  `astring_vformat` and `tmp_printf`.
- The global allocator's function pointers, `malloc`/`realloc`/`free` and the debug logging
  wrappers (core.h:715-771) are not modelled. A heap allocation is a fresh array, and
  allocation failure is not modelled.
- The thread context (core.h:1443) is not modelled as a global. Its zero-initialised ring
  buffer and arena appear as `RingBuffer.Zeroed` and `ArenaAllocator.Zeroed`.
- `tmp_copy` and `tmp_copy_str` are a ring allocation plus a `memcpy` and are not modelled
  separately.
- `string_destroy`, `vec_destroy` and `avec_destroy` only free memory or null the pointer, so
  they are not modelled.
- `string_view_new` and `string_view_copy` are the `StringView` constructor and are not
  modelled separately.
- The debug printers (`vec_dump`, `string_dump`, `astring_dump`) and the `flag_str` stub are
  not modelled.
- The iteration macros `vec_iter` and `vec_foreach` are not modelled.
- Paths with undefined behaviour are excluded by `requires`, not modelled:
  - the null-`self` branch of `ringbuffer_alloc`;
  - `string_from` at length 24;
  - a push onto a string of length 0, which writes at index -1 (core.h:590, core.h:597).
    Strings.String.PushBytes, Strings.String.PushPtr and Strings.String.PushStr require a
    length of at least 1 even when they push no bytes. So pushing nothing onto an empty
    string, a harmless no-op in C (core.h:618-623), is excluded as well;
  - Strings.String.PushStr requires `other` to have a length of at least 1. For an empty
    `other`, such as `string_from("")`, the bound `string_len(&other) - 1` wraps around to
    the largest `size_t` (core.h:613), and the loop pushes bytes read past `other`;
  - Strings.String.Pop and AStrings.AString.Pop require a length of at least 2. At length 1
    the C code writes a NUL at index -1 (core.h:629-631, core.h:1207);
  - Vectors.Vec.Pop and ArenaVectors.AVec.Pop require a length above 0. On an empty vector
    `vec_pop` and `avec_pop` decrement the `size_t` length, which wraps around (core.h:232,
    core.h:334);
  - `vec_put` with an index at or above twice the capacity;
  - arena requests above 4096 bytes that do not fit the last block, which recurse forever;
  - Arenas.ArenaAllocator.Dealloc requires the arena to hold its blocks. On an arena that
    never allocated, or one already released, `vec_destroy` of the NULL buffer frees the
    header address just before NULL (core.h:1056-1061);
  - a push onto a full `AString` of capacity 0 or 1;
  - Strings.Copy, AStrings.AString.Copy, AStrings.AString.ToString and AStrings.FromString
    require a NUL in the memory at `cstr`, which `strcpy` and `strcpy_s` read up to. A
    string from `astring_from` has none in its block (its terminator is written past it),
    so these exclude every `astring_from` result;
  - AStrings.AString.Copy and AStrings.FromString copy with `strcpy_s` into `cap` bytes. A C
    string of `cap` bytes or more is a runtime-constraint violation there, so they require it
    to be shorter than the capacity. A long `string_from` result is such a string;
  - Strings.ViewIntoString requires the C string at the view to fit the string it makes:
    at most the view's length above 24 bytes, and at most 23 bytes otherwise. A view of a
    24-byte C string, or one whose length is shorter than its C string, writes past the block;
  - `file_read` passes `string_from_parts` a capacity equal to the file's size, so the
    as-written copy overflows for every file longer than 24 bytes. `file_read` is I/O and
    is not part of this model (see Findings for `string_from_parts`);
  - the debug assertions of `CORE_ASSERT` (core.h:27-32) become `requires`: a non-NULL
    argument, `vec_at` below the length (core.h:244), a non-empty string for `string_pop`
    and `astring_pop` (core.h:627, core.h:1206), a long string for `string_grow`
    (core.h:465). Without `CORE_DEBUG_ASSERT` they are not checked at all;
  - scans that read past the readable memory.
- Integer widths are not modelled. `size_t` arithmetic is unbounded.
- `STRING_GROW_FACTOR` is the double 1.5. It is modelled as the integer ⌊cap·3/2⌋.
- The bytes stored in arena and ring-buffer blocks are not modelled. Only addresses and
  cursors are.
- Arenas.ArenaAllocator.Dealloc: `vec_destroy` sets each node's buffer to NULL
  (core.h:230, core.h:1060), and the model does the same, with the nodes left linked. The
  node structs themselves leak, and each node's `current_alloc` still points into its
  released block. The model does not track the leaked nodes, and keeps the cursor only as
  an offset.
- Vectors.Vec.Put and ArenaVectors.AVec.Put: when the index passes the old capacity, C copies
  `len` elements from a block of `cap` slots and reads past it. The model keeps the old slots
  and leaves the others unspecified.
- Strings.String.Transform: a long string shorter than 24 bytes turning short reads its
  reserved byte from the top byte of the old 64-bit `len` field, which is 0 on a
  little-endian machine. The inline bytes between the length and byte 23 are left
  unspecified.
- Strings.String.PushStr: the C function takes `other` by value and reads its bytes while
  pushing. When `other` shares a heap block with `self`, a reallocation can change what is
  read. The model reads the bytes on entry.
- AStrings.AString.From: `astring_from` allocates `n` bytes and writes the terminator at index
  `n`, one past the block. The model keeps the `n` bytes and does not model that write.
- AStrings.AString.Push: the bytes of a grown string are not carried over, as
  `arena_realloc` copies nothing. The contract states only the two bytes written, not the
  lost ones.
- AStrings.AString.PushBytes, AStrings.AString.PushPtr and AStrings.AString.PushStr: the
  content is stated only for pushes that do not grow the string. A growth loses the earlier
  bytes, and the contract then states the length, the capacity and the last two bytes.
- AStrings.AString.PushBytes, AStrings.AString.PushPtr and AStrings.AString.PushStr: a push
  that grows the string is served by a fresh block. The requires keep every grown capacity
  within 4096 bytes, so each growth fits a new arena block.
- foo.c is an unfinished sketch and test.c calls functions that core.h does not define.
  Neither is part of this model.

## Findings

| source | as written | input that shows it | evidently intended | confidence | as-written member | corrected member |
|---|---|---|---|---|---|---|
| core.h:1193-1197 | `astring_push_str` loops while `i < astring_len(self)`, and each iteration pushes onto `self`, so the bound grows with the index | any `self` of length at least 1, e.g. after `astring_push` on a 2-byte string: the loop never exits | loop over the other string's `len - 1` bytes, as `string_push_str` does (core.h:611-616) | high, not executed | AStrings.PushStrNeverExits | AStrings.AString.PushStr |
| core.h:994-1001 | after `realloc`, `core_vec_maygrow_internal` reads `vec_len(arr)` and `vec_cap(arr)` and copies `vec_len(arr)` elements from `arr`, the old address | a full vector whose block `realloc` moves: the old block is freed before those reads | take length and capacity from the new block and drop the `memcpy`, since `realloc` already carries the elements | high, not executed | Vectors.MayGrowAsWrittenReadsFreed | Vectors.Vec.MayGrow |
| core.h:507-515 | `string_from_parts` allocates `cap` bytes for a long string and `strcpy`s the C string and its terminator into them | `string_copy` of `string_from` of 25 bytes: `strlen` is 25 and the capacity 25, so 26 bytes go into 25; likewise `string_view_into_string` of `string_view_from` of 25 bytes | allocate `cap + 1` bytes, as `string_new_size` does (core.h:486) | high, not executed | Strings.CopyOfLongFromOverflows | Strings.String.FromParts |
| core.h:781-793 | `ringbuffer_alloc` initialises the buffer only when `self` is NULL, and then writes through it | `tmp_copy` on the zero-initialised `core_context.ring_buffer` (core.h:1443): base NULL, size 0, so a request of 1 byte is granted at offset 0 of a block that does not exist | create the 4096-byte block when the buffer has none | high, not executed | Rings.RingBuffer.Alloc, Rings.ZeroedBufferGrantsOutside | Rings.RingBuffer.AllocLazy |
