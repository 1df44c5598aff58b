# Paging storage engine: a Dafny model

This project models the on-disk paging layer under `src/lib/world/` and proves properties of
the model. The layer has these parts:

- **Integer codec.** `toBytes`/`fromBytes` in `stream.ts` and `write`/`read` in `bytes.ts`
  turn numbers into bytes and back, using JavaScript's 32-bit bitwise operators.
- **Streams.** A seekable `ByteBuffer` cursor, a reader capped by `LimitedRead`, `copy` and
  `readBytes` on top of them, and a `Uint8ArrayStream` writer.
- **Page.** A 16000-byte page (`base.ts`) with a 72-byte header area. It has a header codec,
  page-relative seeks and an allocator. The allocator carves blocks from the head or the tail
  of the free region `[freeOffset, freeOffset + freeLength)`.
- **Entry page.** A slotted page (`entry.ts`). Each entry takes metadata plus payload from the
  head of the free region and a 2-byte slot from its tail.
- **Managers.** Two paging managers (`paging/paging.ts` and the older, self-contained
  `paging.ts`). Each keeps one open entry page and moves a full one to `pendingEntryPages`.

Modules:

| module | file | models |
|---|---|---|
| `Outcomes` | `outcomes.dfy` | `Option`/`Result` wrappers for `undefined` results and thrown errors. |
| `JsNumber` | `js_number.dfy` | `ToInt32`, `& 0xFF`, `>> 8`, `<< 8` and `\| byte` on integers, as ECMAScript defines them for integral numbers. |
| `ByteMath` | `byte_math.dfy` | Shared definitions: windows of a byte sequence, little/big-endian readings, and `Overlay`. `Overlay` is the effect of writing a run of bytes into a typed array: indices outside it are dropped. |
| `Stream` | `stream.dfy` | `stream.ts` |
| `Bytes` | `bytes.dfy` | `bytes.ts` |
| `PageConstants` | `constants.dfy` | `paging/page/constants.ts` |
| `PageBase` | `page_base.dfy` | `paging/page/base.ts` |
| `PageEntry` | `page_entry.dfy` | `paging/page/entry.ts` |
| `PageManager` | `paging.dfy` | `paging/paging.ts` |
| `LegacyPaging` | `legacy_paging.dfy` | `paging.ts` |

**How the code is modelled.** It is modelled in the form it has:

- Classes with mutable fields become Dafny classes. `ByteBuffer`, `LimitedRead`,
  `Uint8ArrayStream`, `Page`, both `EntryPage`s and both `Paging`s work this way.
- Loops become `while` loops with invariants. Each method is proved against a specification
  function: `Encoded`, `Decoded`, `ReadValue`, `Overlay`, `Transferred`, `EntryMetaImage`,
  `Plan`, `Claim`.
- Quirks are modelled as the code is written. The contracts say what the code does. Where
  that is evidently not what was meant, a separate corrected definition is proved beside it
  (see Findings).
- Numbers are unbounded integers passed through `ToInt32` wherever a bitwise operator
  touches them. So wrap-around on large values is modelled exactly.
- A stream cursor set to `undefined` is NaN from then on. `ByteBuffer.lost` records that,
  and `Num` carries the NaN counts that seeks and writes return. Comparisons with NaN are
  false, so such a cursor writes nothing, and every absolute seek from it recurses without end.

## Model

| member | source | states |
|---|---|---|
| JsNumber.ToInt32 | src/lib/world/stream.ts:29-30 | the operand of a bitwise operator becomes the 32-bit value congruent to it modulo 2^32 |
| JsNumber.And0xFF | src/lib/world/stream.ts:29 | `x & 0xFF` is x modulo 256 |
| JsNumber.OrByteBits | src/lib/world/bytes.ts:69 | `x \| b` is a 32-bit value with the bits above the low byte of ToInt32(x) and the low byte ORed with b |
| JsNumber.Shl8 | src/lib/world/stream.ts:49 | `<<= 8` gives a 32-bit value whose low byte is zero |
| JsNumber.Shr8 | src/lib/world/stream.ts:30 | `>> 8` gives a 32-bit value |
| JsNumber.Or8 | src/lib/world/stream.ts:48 | OR of two bytes is a byte, with 0 as its unit |
| JsNumber.OrIntoLowByte | src/lib/world/bytes.ts:69 | ORing a byte into a 32-bit value whose low byte holds o only ORs the low byte |
| JsNumber.ShiftInByte | src/lib/world/stream.ts:48-49 | one `value \|= b; value <<= 8` step on an accumulator holding 256·l (wrapped) gives 256·(256·l + b) (wrapped) |
| Stream.Encoded | src/lib/world/stream.ts:23-25 | toBytes returns exactly n/8 bytes |
| Stream.ToBytes | src/lib/world/stream.ts:23-40 | the loop's bytes are `Encoded`: the low bytes of ToInt32(value); "big" puts the least significant at index 0, "little" at the last index |
| Stream.EncodedPlacement | src/lib/world/stream.ts:27-37 | "big" stores `value & 0xFF` at index 0, "little" at index n/8−1, and the two results are reverses of each other |
| Stream.EncodedValue | src/lib/world/stream.ts:23-40 | read against their label, the stored bytes give ToInt32(value) mod 256^(n/8) |
| Stream.Decoded | src/lib/world/stream.ts:42-59 | fromBytes always returns a 32-bit value with a zero low byte |
| Stream.FromBytes | src/lib/world/stream.ts:42-59 | the loop's value is `Decoded`: 256 × the reading of the n/8 bytes, wrapped to 32 bits; "little" reads the last index as most significant |
| Stream.FromLittle | src/lib/world/stream.ts:46-51 | the "little" loop returns 256 × the little-endian reading of the n/8 bytes, wrapped to 32 bits |
| Stream.FromBig | src/lib/world/stream.ts:51-56 | the "big" loop returns 256 × the big-endian reading of the n/8 bytes, wrapped to 32 bits |
| Stream.LittleStep | src/lib/world/stream.ts:47-50 | one "little" pass extends the reading by the byte at i |
| Stream.BigStep | src/lib/world/stream.ts:52-55 | one "big" pass extends the reading by the byte at i |
| Stream.DecodedNarrow | src/lib/world/stream.ts:42-59 | for 8- and 16-bit widths nothing wraps: fromBytes is exactly 256 × the reading |
| Stream.FromBytesDoesNotInvertToBytes | src/lib/world/stream.ts:23-59 | fromBytes(toBytes(v)) ≠ v for every v with a non-zero low byte, at every width and label |
| Stream.RoundTrip16 | src/lib/world/stream.ts:23-59 | on a 16-bit "little" field the round trip gives 256 × the byte-swapped value |
| Stream.EncodedIntended | src/lib/world/stream.ts:23-40 | the corrected encoder also returns n/8 bytes |
| Stream.DecodedIntended | src/lib/world/stream.ts:42-59 | the corrected decoder returns a 32-bit value |
| Stream.IntendedRoundTrip | src/lib/world/stream.ts:23-59 | the corrected codec round-trips every 0 ≤ v < 2^31 that fits in the width, for both labels |
| Stream.ByteBuffer.constructor | src/lib/world/stream.ts:176-179 | wraps the given array with the cursor at 0 |
| Stream.ByteBuffer.Alloc | src/lib/world/stream.ts:181-183 | a fresh zero-filled buffer of the given length, cursor 0 |
| Stream.ByteBuffer.Seek | src/lib/world/stream.ts:187-199 | relative: cur += value; absolute with cur ≥ 0: cur = value; both return the new cur; an `undefined` value, or a relative seek from a NaN cursor, leaves the cursor NaN; absolute from a negative or NaN cursor recurses without end (StackOverflow) |
| Stream.ByteBuffer.Write | src/lib/world/stream.ts:201-208 | transfers min(length − cur, \|src\|) bytes, advances cur by that count, sets buffer[cur₀+i] = src[i] and changes no other byte; from a NaN cursor it returns NaN and changes nothing |
| Stream.ByteBuffer.Read | src/lib/world/stream.ts:210-217 | transfers min(length − cur, \|buf\|) bytes into buf, advances cur by that count, leaves the buffer unchanged and the rest of buf as it was |
| Stream.Position | src/lib/world/stream.ts:154-156 | reports the cursor (NaN when it is lost) and leaves it in place |
| Stream.Replace | src/lib/world/stream.ts:146-150 | dest from index at on holds src; indices past the end are dropped; nothing else changes |
| Stream.LimitedRead.constructor | src/lib/world/stream.ts:111-126 | a reader over r limited to `length` bytes, none read yet |
| Stream.LimitedRead.Read | src/lib/world/stream.ts:128-142 | bytesRead ≤ bytesLimit is kept; once they are equal it returns 0 and changes nothing; otherwise it delivers min(available, left under the limit, \|buf\|) bytes, and when fewer are left than buf holds it zero-fills buf up to the limit |
| Stream.Copy | src/lib/world/stream.ts:73-86 | ends exactly where `CopyRun` says: dest's bytes and cursor, the reader's cursor and count, and whether it returned or threw ShortCopy; into a dest whose cursor is NaN it fails on the first non-empty read, the reader having moved by that read, and dest unchanged |
| Stream.CopyRunStep | src/lib/world/stream.ts:76-85 | one pass: a read of 0 returns; a write count other than the read count throws after the whole scratch buffer was written; otherwise the copy goes on from the advanced cursors |
| Stream.CopyRunBounds | src/lib/world/stream.ts:76-85 | the reader never passes its limit, nor its end when it started inside |
| Stream.CopyRunMoves | src/lib/world/stream.ts:76-85 | a copy that returns has exhausted the reader (limit reached or end of src) and moved both cursors and the count by the same number of bytes |
| Stream.CopyRunTransfers | src/lib/world/stream.ts:76-85 | a copy that returns has put every byte it moved at its place in dest and changed no other byte |
| Stream.CopyFailsFirstPass | src/lib/world/stream.ts:77-84 | a first read that differs from dest's write count throws, leaving dest with the bytes read then zeros up to 8000 at its cursor (as far as dest reaches) and both cursors moved by their counts |
| Stream.CopyIntoLargerRoom | src/lib/world/stream.ts:76-85 | into a dest with more room than src delivers (under 16000 bytes), copy returns iff src delivers 0 or exactly 8000 bytes |
| Stream.CopyIntended | src/lib/world/stream.ts:73-86 | the corrected copy succeeds exactly when dest has room for everything src can deliver, and then moves all of it |
| Stream.ReadBytes | src/lib/world/stream.ts:61-66 | throws CannotRead exactly when fewer than n/8 bytes are available or the cursor is NaN, else returns `Decoded` of the next n/8 bytes; the cursor moves by the bytes delivered |
| Bytes.Field | src/lib/world/bytes.ts:47-55 | byte k of the stored field is `(v >> 8k) & 0xFF` |
| Bytes.Write | src/lib/world/bytes.ts:47-55 | arr[at+k] = `(v >> 8k) & 0xFF` for k < n/8 inside the array; no other index changes |
| Bytes.ShiftCount | src/lib/world/bytes.ts:64-75 | read shifts at most n/8 times |
| Bytes.ReadStepsPrefix | src/lib/world/bytes.ts:67-72 | the loop's value after k passes, computed pass by pass, equals the closed form: the shifted bytes read big-endian (wrapped) with the OR of the later bytes in the low byte |
| Bytes.Read | src/lib/world/bytes.ts:64-75 | returns `ReadValue`: the bytes up to index n/8−1 are shifted in, the later ones are ORed into the low byte, out-of-range bytes read as 0 |
| Bytes.ReadByteAfterWriteByte | src/lib/world/bytes.ts:83-96 | readByte after writeByte at the same index gives `v & 0xFF`, or 0 outside the array |
| Bytes.ReadByteIsByteAt | src/lib/world/bytes.ts:94-96 | readByte returns the byte at the index, 0 outside the array |
| Bytes.ReadAtStart | src/lib/world/bytes.ts:64-75 | at offset 0 read is the 32-bit wrap of the big-endian reading |
| Bytes.ReadWordAtStart | src/lib/world/bytes.ts:114-116 | readWord at 0 yields arr[0]·256 + arr[1] |
| Bytes.WordRoundTripSwaps | src/lib/world/bytes.ts:104-116 | readWord(0) after writeWord(0, v) gives v byte-swapped |
| Bytes.ReadPastWidth | src/lib/world/bytes.ts:64-75 | from offset n/8−1 on, read is the plain OR of the bytes |
| Bytes.ReadWordAtTwo | src/lib/world/bytes.ts:64-75 | readWord at 2 of [0, 0, 1, 2] gives 3; the position-independent reading gives 258 |
| Bytes.ReadIntended | src/lib/world/bytes.ts:64-75 | the corrected read returns a 32-bit value |
| Bytes.ReadIntendedPositionIndependent | src/lib/world/bytes.ts:64-75 | the corrected read depends only on the field's bytes, wherever it sits, and equals read at offset 0 |
| Bytes.WriteByte | src/lib/world/bytes.ts:83-85 | writes 1 byte at `at` |
| Bytes.ReadByte | src/lib/world/bytes.ts:94-96 | returns the byte at `at` (0 outside) |
| Bytes.WriteWord | src/lib/world/bytes.ts:104-106 | writes 2 bytes, least significant first |
| Bytes.ReadWord | src/lib/world/bytes.ts:114-116 | the 2-byte `ReadValue` |
| Bytes.WriteDWord32 | src/lib/world/bytes.ts:124-126 | writes 4 bytes, least significant first |
| Bytes.ReadDWord32 | src/lib/world/bytes.ts:134-136 | the 4-byte `ReadValue` |
| Bytes.WriteDWord64 | src/lib/world/bytes.ts:144-146 | writes the same 4 bytes as WriteDWord32 |
| Bytes.ReadDWord64 | src/lib/world/bytes.ts:154-156 | reads the same 4 bytes as ReadDWord32 |
| Bytes.Uint8ArrayStream.constructor | src/lib/world/bytes.ts:5-8 | wraps the array at the given cursor |
| Bytes.Uint8ArrayStream.Length | src/lib/world/bytes.ts:10-12 | the array's length, whatever the cursor; `Remaining` plus the cursor gives it back |
| Bytes.Uint8ArrayStream.Remaining | src/lib/world/bytes.ts:10-16 | remaining() + cursor = length() |
| Bytes.Uint8ArrayStream.ReadByte | src/lib/world/bytes.ts:18-22 | returns array[cursor] (0 outside) and advances the cursor by 1 |
| Bytes.Uint8ArrayStream.WriteByte | src/lib/world/bytes.ts:24-27 | writes 1 byte at the cursor and advances it by 1 |
| Bytes.Uint8ArrayStream.WriteWord | src/lib/world/bytes.ts:29-32 | writes 2 bytes at the cursor and advances it by 2 |
| Bytes.Uint8ArrayStream.WriteDWord64 | src/lib/world/bytes.ts:34-37 | writes 4 bytes at the cursor and advances it by 4 |
| PageConstants.Geometry | src/lib/world/paging/page/constants.ts:4-21 | 72 < 16000, MIN_REQUIRED_ENTRY_SIZE = 112 + 2 = 114, the free region of a fresh page is 15928 bytes |
| PageBase.TypeIndex | src/lib/world/paging/page/base.ts:48 | `pageTypes.indexOf` gives −1 exactly for a missing type, else the type's index |
| PageBase.TypeAt | src/lib/world/paging/page/base.ts:61 | `pageTypes[i]` is defined exactly for i in 0..1 |
| PageBase.PageMetaBytes | src/lib/world/paging/page/base.ts:46-51 | the header is 8 + 1 + 2 + 2 = 13 bytes |
| PageBase.WritePageMeta | src/lib/world/paging/page/base.ts:46-51 | the 13 header bytes (id 64 bits, type index 8, freeOffset 16, freeLength 16, in that order) land at the cursor, bytes past the end dropped; the returned sum of the four write counts is min(room, 13), or 4 × the (negative) room when the cursor is past the end; from a NaN cursor the sum is NaN and nothing is written |
| PageBase.ReadPageMeta | src/lib/world/paging/page/base.ts:58-65 | consumes 64, 8, 16, 16 bits in that order; throws CannotRead exactly when fewer than 13 bytes are left or the cursor is NaN, and then leaves the cursor at the end of the buffer (or where it was, when past the end or NaN) |
| PageBase.PageMetaFieldsAlign | src/lib/world/paging/page/base.ts:46-65 | each header field is read back in the width and at the place it was written |
| PageBase.DecodedTypeNeverOverflow | src/lib/world/paging/page/base.ts:61 | no header reads back as an overflow page |
| PageBase.PageMetaDoesNotRoundTrip | src/lib/world/paging/page/base.ts:46-65 | a header whose freeOffset has a non-zero low byte does not read back as written |
| PageBase.FreshHeaderReadBack | src/lib/world/paging/page/base.ts:46-65 | a fresh entry page's header reads back with freeOffset 4718592 and freeLength 3685888 |
| PageBase.AllocSpec | src/lib/world/paging/page/base.ts:116-134 | undefined and meta unchanged iff freeLength < size; else freeLength drops by size; head: returns old freeOffset and keeps freeOffset + freeLength; tail: returns freeOffset + freeLength − size and keeps freeOffset |
| PageBase.AllocInside | src/lib/world/paging/page/base.ts:116-134 | an allocated block lies in the old free region and outside the new one; a valid header stays valid |
| PageBase.AllocateAllDisjoint | src/lib/world/paging/page/base.ts:116-134 | any run of allocations hands out blocks inside the initial region, outside the final one, and pairwise disjoint |
| PageBase.SeekTargetsMeaning | src/lib/world/paging/page/base.ts:143-152 | a free seek by 0 lands where the next head block begins; data = meta + 72; a missing value counts as 0 |
| PageBase.Page.constructor | src/lib/world/paging/page/base.ts:71-76 | a zeroed 16000-byte page, cursor 0, id and type taken only when truthy |
| PageBase.Page.InitialiseNewPage | src/lib/world/paging/page/base.ts:78-81 | freeOffset = 72 and freeLength = 16000 − 72, so they add up to the page size |
| PageBase.Page.New | src/lib/world/paging/page/base.ts:88-92 | a blank page with the given type, the id when non-zero, and the initialised free region |
| PageBase.Page.RemainingFreeSpace | src/lib/world/paging/page/base.ts:139-141 | the free length; on a valid header between 0 and 16000 − 72 |
| PageBase.Page.Alloc | src/lib/world/paging/page/base.ts:116-134 | the header changes exactly as `AllocSpec` says; a valid header stays valid |
| PageBase.Page.Seek | src/lib/world/paging/page/base.ts:143-152 | meta → value, data → 72 + value, free → freeOffset + value, a missing value counting as 0; the stream's own kinds passed through, so a missing value leaves the cursor NaN; StackOverflow from a negative or NaN cursor except on a relative seek |
| PageBase.Page.Flush | src/lib/world/paging/page/base.ts:162-165 | the 13 header bytes land at index 0 and the cursor after them; StackOverflow and nothing written from a negative or NaN cursor |
| PageEntry.EntryMetaLayout | src/lib/world/paging/page/entry.ts:35-43 | totalSize is 4 bytes at the cursor, inPageSize 2 at +4, overflow 8 at +6, each only when truthy; nothing outside the 14 bytes changes |
| PageEntry.UpdateField | src/lib/world/paging/page/entry.ts:36-37 | a truthy field is written at its place; a falsy one is skipped by a relative seek of its width; on a NaN cursor nothing changes |
| PageEntry.UpdateEntryMeta | src/lib/world/paging/page/entry.ts:35-43 | the buffer becomes `EntryMetaImage`; the cursor ends 14 bytes on, or 6 when there is no overflow; on a NaN cursor nothing changes |
| PageEntry.WriteEntryMeta | src/lib/world/paging/page/entry.ts:44-46 | updateEntryMeta with every size field present |
| PageEntry.ReadEntryMeta | src/lib/world/paging/page/entry.ts:27-33 | consumes widths 32, 16, 64 in that order; throws CannotRead exactly when fewer than 14 bytes are left or the cursor is NaN, and then leaves the cursor at the end of the buffer (or where it was, when past the end or NaN) |
| PageEntry.EntryMetaFieldsAlign | src/lib/world/paging/page/entry.ts:27-46 | readEntryMeta reads each field from the slot updateEntryMeta wrote it to |
| PageEntry.Plan | src/lib/world/paging/page/entry.ts:73-80 | inPageSize = min(freeLength, totalSize) ≤ totalSize; id = count − 1; the head block exists iff totalSize + 112 ≤ freeLength, and then sits at the old freeOffset, which moves by inPageSize + 112 |
| PageEntry.PlanBlocksDisjoint | src/lib/world/paging/page/entry.ts:77-79 | the head block and the tail slot lie in the old free region, apart from each other and from the new region; the slot is reserved iff 2 bytes are left |
| PageEntry.PlanHeadFailsForLargeEntries | src/lib/world/paging/page/entry.ts:74-77 | an entry at least as large as the free space never gets its head block |
| PageEntry.PlanSlotLost | src/lib/world/paging/page/entry.ts:79 | an 88-byte entry on a 200-byte free region gets its head block but no slot, unnoticed |
| PageEntry.PlanIdIsPreviousSlot | src/lib/world/paging/page/entry.ts:75-80 | the returned id is one below the new offset's index: −1 for a page's first entry |
| PageEntry.PlanIntended | src/lib/world/paging/page/entry.ts:73-80 | the corrected in-page size leaves room for metadata and slot |
| PageEntry.PlanIntendedSucceeds | src/lib/world/paging/page/entry.ts:73-80 | the corrected plan always gets both blocks, uses exactly inPageSize + 114 bytes, keeps the header valid, and its id indexes the new offset |
| PageEntry.EntryPage.New | src/lib/world/paging/page/entry.ts:55-59 | an entry page with the given id, type entry and the initialised free region |
| PageEntry.EntryPage.Blank | src/lib/world/paging/paging.ts:24 | `new EntryPage()`: no id, no type, initialised free region, no offsets |
| PageEntry.EntryPage.HasEnoughSpace | src/lib/world/paging/page/entry.ts:61-63 | freeLength ≥ 114: exactly when an empty entry gets both its 112-byte metadata block from the head and its 2-byte slot from the tail |
| PageEntry.EntryPage.Reserve | src/lib/world/paging/page/entry.ts:73-80 | the header, id, size and appended offset are exactly `Plan`'s |
| PageEntry.EntryPage.StoreMeta | src/lib/world/paging/page/entry.ts:83-88 | seeks to the head block and writes the metadata there, cursor 6 bytes on; with no head address the cursor becomes NaN and no byte changes; StackOverflow from a negative or NaN cursor |
| PageEntry.PayloadCopy | src/lib/world/paging/page/entry.ts:90-91 | the payload copy into a head block: nothing read leaves the page as it was; a first read of 1–7999 bytes throws with those bytes and then zeros written after the metadata; it returns iff the bytes to move are 0 or exactly 8000, having moved them all |
| PageEntry.EntryPage.Store | src/lib/world/paging/page/entry.ts:83-91 | with a head block: the metadata there, then the copy's passes after it (`HeadStored`): success iff the in-page bytes available are 0 or exactly 8000, the page bytes and cursor after a ShortCopy stated; with no head address the cursor is lost, no page byte changes, and copy fails with ShortCopy on a non-empty first read, which still advances the data stream |
| PageEntry.EntryPage.WriteEntry | src/lib/world/paging/page/entry.ts:70-94 | without enough space (hasEnoughSpace: freeLength ≥ 114) returns nothing and changes nothing; otherwise updates the header as `Plan` says and appends exactly one offset, the head address (undefined when the head allocation failed); from a negative or NaN page cursor fails with StackOverflow and no page byte or data-stream move; when the head allocation failed, the page cursor becomes NaN, no page byte changes, the data stream advances by its first read, and the result is {id, written = inPageSize} iff that read is empty, else ShortCopy; with a head block the page bytes, page cursor and data cursor are `HeadStored`'s, so it returns {id, written = inPageSize} iff min(inPageSize, bytes left in d) is 0 or exactly 8000, with the metadata at the head block and the payload after it |
| PageManager.Paging.constructor | src/lib/world/paging/paging.ts:10-18 | no open page, nothing pending |
| PageManager.Paging.GetEntryPage | src/lib/world/paging/paging.ts:22-27 | returns the open page when there is one; otherwise opens a blank page; pending pages unchanged |
| PageManager.Paging.WriteEntry | src/lib/world/paging/paging.ts:36-48 | a page without space goes to the end of pendingEntryPages unchanged (its object, header, offsets, buffer and bytes) and a fresh one receives the entry; otherwise pendingEntryPages is unchanged and the open page gets one more offset; a page is always open afterwards |
| LegacyPaging.LegacyMetaBytes | src/lib/world/paging.ts:125-131 | writeMeta stores 4 + 1 + 2 + 2 = 9 bytes |
| LegacyPaging.LegacyMetaLayout | src/lib/world/paging.ts:125-131 | id in bytes 0–3, type index in byte 4 (255 for a missing type), freeOffset in 5–6, freeLength in 7–8, each little-endian modulo its width |
| LegacyPaging.LegacyMetaKeepsFreeRegion | src/lib/world/paging.ts:129-130 | 16-bit offsets and lengths are stored exactly |
| LegacyPaging.LegacyEntryMetaLayout | src/lib/world/paging.ts:148-153 | totalSize at off (4 bytes), sizeInPage at off + 4 (2), overflow at off + 6 (4), each only when truthy; nothing outside the 10 bytes changes |
| LegacyPaging.Claim | src/lib/world/paging.ts:160-185 | the free region's end moves down by exactly the 2-byte slot; freeLength stays ≥ 0 and becomes 0 exactly when the stream's remaining bytes reach freeLength − 114; on a page with space the new freeOffset lies between old + 112 and old + 112 + remaining |
| LegacyPaging.ClaimKeepsOrder | src/lib/world/paging.ts:172-185 | on a page with enough space the entry offsets stay strictly increasing and below freeOffset |
| LegacyPaging.ClaimConserves | src/lib/world/paging.ts:172-185 | freeOffset + freeLength + 2 per entry stays equal to the page size |
| LegacyPaging.EntryPage.constructor | src/lib/world/paging.ts:102-120 | a zeroed 16000-byte buffer, no offsets, header in the initialised state |
| LegacyPaging.EntryPage.HasEnoughSpace | src/lib/world/paging.ts:193-195 | freeLength > 114: exactly when every non-empty entry books at least one byte in the page |
| LegacyPaging.EntryPage.WriteMeta | src/lib/world/paging.ts:125-131 | the 9 header bytes land at index 0 |
| LegacyPaging.EntryPage.UpdateEntryMeta | src/lib/world/paging.ts:148-153 | an id with a slot gets the `LegacyEntryMetaImage` at its offset; any other id changes nothing |
| LegacyPaging.EntryPage.WriteEntryMeta | src/lib/world/paging.ts:140-142 | updateEntryMeta with every size field present |
| LegacyPaging.EntryPage.WriteEntry | src/lib/world/paging.ts:159-188 | pushes the old freeOffset, returns its index, updates the header by `Claim`; keeps the conservation invariant, and the order invariant when hasEnoughSpace held and the stream was not read past its end |
| LegacyPaging.Paging.constructor | src/lib/world/paging.ts:200-208 | no open page, nothing pending |
| LegacyPaging.Paging.GetEntryPage | src/lib/world/paging.ts:212-217 | returns the open page when there is one; otherwise opens a fresh page |
| LegacyPaging.Paging.WriteEntry | src/lib/world/paging.ts:226-238 | a page without space (hasEnoughSpace: freeLength > 114) goes to the end of pendingEntryPages with its header, offsets and bytes unchanged, and a fresh page books it at offset 72 with header `Claim(fresh header, data length)`; otherwise the open page books it and pendingEntryPages is unchanged |

## Left out

- `writeOverflow` (src/lib/world/paging.ts:219-221, src/lib/world/paging/paging.ts:29-31): the body is empty.
- `isCommonSeekCursor` calls itself unconditionally, each time on the `type` of its argument. The third call reads `undefined.type` and throws a TypeError, so every `Page.seek` as written throws before it dispatches. The model gives `Page.seek` the dispatch by cursor kind its branches spell out, passing the stream's own kinds to the buffer.
- Uninitialised fields start initialised:
  - `Page`'s constructor writes into a `meta` it never assigned, and `new EntryPage()` in both managers would throw on the missing argument or field.
  - Neither entry page assigns `entryOffsets` (src/lib/world/paging/page/entry.ts:49, src/lib/world/paging.ts:110), so the first `writeEntry` would throw a TypeError on `entryOffsets.length` or `push`. The model starts it as the empty list.
  - The older `EntryPage` never assigns `meta` (src/lib/world/paging.ts:106). The model starts it at `LegacyPaging.FRESH_META`: no id, no type, freeOffset 72 and freeLength 16000 − 72.
  - Both managers never assign `entryPage` or `pendingEntryPages`. The model starts them as no open page and the empty list.
  - In the model, the newer pages start in the state `initialiseNewPage` gives.
- `new Uint8ArrayStream(data)` in both managers omits the cursor. The model starts it at 0.
- `length(d)` in entry.ts `writeEntry` seeks absolutely to −1, and the next absolute seek then recurses without end. The model takes the buffer's length as the total size. `length()`/`remaining()` are not modelled otherwise.
- `Page.load`: stream plumbing over the same broken seeks.
- `Page.read`/`Page.write`, `ByteBuffer.flush` and `isCommonSeekType`. The first two only delegate to the buffer, and the model calls the buffer directly. The other two do nothing the core uses.
- paging/paging.ts passes a `Uint8ArrayStream` to entry.ts `writeEntry`, which expects a seekable reader. It also imports neither class. The model wraps the data in a `ByteBuffer`.
- PageManager.Paging.WriteEntry: requires that the data is not the open page's own buffer (aliasing is not modelled). It states the rotation and the slot count, and leaves the page's bytes to PageEntry.EntryPage.WriteEntry.
- PageManager.Paging.WriteEntry: returns the page's outcome, which the source discards.
- PageEntry.UpdateEntryMeta: states the final cursor only when the fields fit in the buffer.
- Stream.Copy: requires that one of the two cursors is within its buffer, or that dest's cursor is NaN. With both cursors past their ends, read returns len − cur and write returns destLen − destCur, both negative. When the two are equal the loop repeats for ever; otherwise the first pass throws ShortCopy. No modelled caller gets there: entry.ts:91 copies into the page right after a seek inside it.
- Stream.CopyIntended: requires both cursors within their buffers and neither NaN.
- Stream.ByteBuffer.Read, Stream.LimitedRead.Read and Stream.Copy: require the reading stream's cursor to be defined. From a NaN cursor the source's counts turn NaN and `LimitedRead`'s tally with them. No modelled caller reads from a buffer whose cursor is lost: only the data stream is read, and it is fresh.
- `putCursor` of `alloc`: no caller sets it.
- The `modified` flag, `writeEntryOffsets` (empty), `PagingMeta`, `Paging.meta`, and the unused `entryMeta`/`totalSize` locals of the older `writeEntry`: nothing reads or writes them.
- 64-bit ids: the bitwise operators wrap every value to 32 bits. The model follows that wrap instead of keeping full 64-bit ids.
- `world.ts` (archive persistence), the CLI, the network client, the UI, the build configuration and the type-only model files are not part of this model.

## Findings

| source | as written | input that shows it | evidently intended | confidence | as-written member | corrected member |
|---|---|---|---|---|---|---|
| src/lib/world/stream.ts:23-59 | "little" stores the least significant byte last, and fromBytes shifts once more after the last byte | toBytes(1, 16) = [0, 1]; fromBytes of that gives 65536 | fromBytes(toBytes(v)) = v | high (not executed) | Stream.RoundTrip16 | Stream.IntendedRoundTrip |
| src/lib/world/bytes.ts:69-71 | the shift test compares the absolute index with the width | readWord at 2 of [0, 0, 1, 2] gives 3 | a reading independent of the offset (258) | high (not executed) | Bytes.ReadWordAtTwo | Bytes.ReadIntendedPositionIndependent |
| src/lib/world/paging/page/entry.ts:74 | inPageSize = min(freeLength, totalSize) leaves no room for the metadata | a 15928-byte entry on a fresh page: the head allocation returns undefined, and the seek to it leaves the page cursor NaN | inPageSize = min(freeLength − 114, totalSize) | high (not executed) | PageEntry.PlanHeadFailsForLargeEntries | PageEntry.PlanIntendedSucceeds |
| src/lib/world/paging/page/entry.ts:79 | the tail allocation of the slot may fail unnoticed | an 88-byte entry on a 200-byte free region | the slot is always reserved | high (not executed) | PageEntry.PlanSlotLost | PageEntry.PlanIntendedSucceeds |
| src/lib/world/paging/page/entry.ts:75 | id = entryOffsets.length − 1 before the push | the first entry of a page gets id −1 | the index of the new offset | high (not executed) | PageEntry.PlanIdIsPreviousSlot | PageEntry.PlanIntendedSucceeds |
| src/lib/world/stream.ts:82 | each pass writes the whole 8000-byte scratch buffer | a 1-byte entry on a fresh page: write reports 8000, read 1, ShortCopy | write only the bytes just read | high (not executed) | Stream.Copy | Stream.CopyIntended |
