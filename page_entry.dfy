/**
 * src/lib/world/paging/page/entry.ts: the slotted entry page. Each entry takes its metadata and
 * payload from the head of the free region and a 2-byte slot from its tail, and its head address
 * is appended to `entryOffsets`.
 */
module PageEntry {
  import opened JsNumber
  import opened ByteMath
  import opened Outcomes
  import opened Stream
  import opened PageConstants
  import opened PageBase

  /** An entry's metadata: sizes and the overflow page id (`null` for none). */
  datatype EntryMeta = EntryMeta(totalSize: int, inPageSize: int, overflow: Option<int>)

  /** A partial update of the metadata: absent fields are left alone. */
  datatype EntryMetaPatch = EntryMetaPatch(totalSize: Option<int>, inPageSize: Option<int>, overflow: Option<int>)

  function PatchOf(m: EntryMeta): EntryMetaPatch {
    EntryMetaPatch(Some(m.totalSize), Some(m.inPageSize), m.overflow)
  }

  /**
   * The bytes after updateEntryMeta at `at`: a truthy totalSize in the 4 bytes at `at`, a truthy
   * inPageSize in the 2 bytes at at + 4, a truthy overflow in the 8 bytes at at + 6.
   */
  function EntryMetaImage(b: seq<byte>, at: int, p: EntryMetaPatch): (r: seq<byte>)
    ensures |r| == |b|
  {
    Put3(b, at, Truthy(p.totalSize), Encoded(p.totalSize.GetOr(0), 32, Little),
                Truthy(p.inPageSize), Encoded(p.inPageSize.GetOr(0), 16, Little),
                Truthy(p.overflow), Encoded(p.overflow.GetOr(0), 64, Little))
  }

  /** How far updateEntryMeta moves the cursor when the fields fit: a falsy overflow is neither written nor skipped. */
  function MetaAdvance(p: EntryMetaPatch): nat {
    if Truthy(p.overflow) then ENTRY_META_FIELD_BYTES else 6
  }

  /** The field layout: each slot holds its field's bytes or keeps its old ones, and nothing outside the 14 bytes changes. */
  lemma EntryMetaLayout(b: seq<byte>, at: int, p: EntryMetaPatch)
    requires 0 <= at && at + ENTRY_META_FIELD_BYTES <= |b|
    ensures var img := EntryMetaImage(b, at, p);
      && img[at..at + 4] == (if Truthy(p.totalSize) then Encoded(p.totalSize.value, 32, Little) else b[at..at + 4])
      && img[at + 4..at + 6] == (if Truthy(p.inPageSize) then Encoded(p.inPageSize.value, 16, Little) else b[at + 4..at + 6])
      && img[at + 6..at + 14] == (if Truthy(p.overflow) then Encoded(p.overflow.value, 64, Little) else b[at + 6..at + 14])
      && forall i :: 0 <= i < |b| && !(at <= i < at + ENTRY_META_FIELD_BYTES) ==> img[i] == b[i]
  {
    var f1 := Encoded(p.totalSize.GetOr(0), 32, Little);
    var f2 := Encoded(p.inPageSize.GetOr(0), 16, Little);
    var f3 := Encoded(p.overflow.GetOr(0), 64, Little);
    Put3Layout(b, at, Truthy(p.totalSize), f1, Truthy(p.inPageSize), f2, Truthy(p.overflow), f3);
    forall i | 0 <= i < |b| && !(at <= i < at + ENTRY_META_FIELD_BYTES)
      ensures EntryMetaImage(b, at, p)[i] == b[i]
    {
      Put3Outside(b, at, Truthy(p.totalSize), f1, Truthy(p.inPageSize), f2, Truthy(p.overflow), f3, i);
    }
  }

  /** What readEntryMeta builds from the 14 bytes it consumes: widths 32, 16 and 64, in that order. */
  function DecodeEntryMeta(w: seq<byte>): EntryMeta
    requires |w| == ENTRY_META_FIELD_BYTES
  {
    EntryMeta(Decoded(w[..4], 32, Little), Decoded(w[4..6], 16, Little), Some(Decoded(w[6..14], 64, Little)))
  }

  /** readEntryMeta reads each field through fromBytes from the slot updateEntryMeta wrote it to. */
  lemma EntryMetaFieldsAlign(b: seq<byte>, at: int, m: EntryMeta)
    requires 0 <= at && at + ENTRY_META_FIELD_BYTES <= |b|
    requires m.totalSize != 0 && m.inPageSize != 0 && Truthy(m.overflow)
    ensures DecodeEntryMeta(Window(EntryMetaImage(b, at, PatchOf(m)), at, ENTRY_META_FIELD_BYTES)) ==
      EntryMeta(Decoded(Encoded(m.totalSize, 32, Little), 32, Little),
                Decoded(Encoded(m.inPageSize, 16, Little), 16, Little),
                Some(Decoded(Encoded(m.overflow.value, 64, Little), 64, Little)))
  {
    var img := EntryMetaImage(b, at, PatchOf(m));
    EntryMetaLayout(b, at, PatchOf(m));
    var e1 := Encoded(m.totalSize, 32, Little);
    var e2 := Encoded(m.inPageSize, 16, Little);
    var e3 := Encoded(m.overflow.value, 64, Little);
    WindowInside(img, at, ENTRY_META_FIELD_BYTES);
    SlotConcat(img, at, e1, e2, e3);
    DecodeEntryMetaFields(e1, e2, e3);
  }

  /** Three adjacent slices of 4, 2 and 8 bytes make up the 14-byte slot. */
  lemma SlotConcat(img: seq<byte>, at: int, e1: seq<byte>, e2: seq<byte>, e3: seq<byte>)
    requires 0 <= at && at + ENTRY_META_FIELD_BYTES <= |img|
    requires img[at..at + 4] == e1 && img[at + 4..at + 6] == e2 && img[at + 6..at + 14] == e3
    ensures img[at..at + ENTRY_META_FIELD_BYTES] == e1 + e2 + e3
  {
    assert img[at..at + 14] == img[at..at + 4] + img[at + 4..at + 6] + img[at + 6..at + 14];
  }

  lemma DecodeEntryMetaFields(e1: seq<byte>, e2: seq<byte>, e3: seq<byte>)
    requires |e1| == 4 && |e2| == 2 && |e3| == 8
    ensures DecodeEntryMeta(e1 + e2 + e3) == EntryMeta(Decoded(e1, 32, Little), Decoded(e2, 16, Little), Some(Decoded(e3, 64, Little)))
  {
    var w := e1 + e2 + e3;
    assert w[..4] == e1 && w[4..6] == e2 && w[6..14] == e3;
  }

  method ReadEntryMeta(stream: ByteBuffer) returns (r: Result<EntryMeta>)
    modifies stream
    ensures stream.lost == old(stream.lost)
    ensures r.Ok? <==> !old(stream.lost) && stream.buffer.Length - old(stream.cur) >= ENTRY_META_FIELD_BYTES
    ensures r.Err? ==> r.error == CannotRead
    ensures r.Err? && old(stream.lost) ==> stream.cur == old(stream.cur)
    ensures r.Err? && !old(stream.lost) ==> stream.cur == old(stream.cur) + Max(stream.buffer.Length - old(stream.cur), 0)
    ensures r.Ok? ==> stream.cur == old(stream.cur) + ENTRY_META_FIELD_BYTES
    ensures r.Ok? ==> r.value == DecodeEntryMeta(Window(stream.buffer[..], old(stream.cur), ENTRY_META_FIELD_BYTES))
  {
    ghost var c0 := stream.cur;
    ghost var w := Window(stream.buffer[..], c0, ENTRY_META_FIELD_BYTES);
    var totalSize := ReadBytes(stream, 32, Little);
    if totalSize.Err? {
      return Err(totalSize.error);
    }
    var inPageSize := ReadBytes(stream, 16, Little);
    if inPageSize.Err? {
      return Err(inPageSize.error);
    }
    var overflow := ReadBytes(stream, 64, Little);
    if overflow.Err? {
      return Err(overflow.error);
    }
    WindowSlice(stream.buffer[..], c0, ENTRY_META_FIELD_BYTES, 0, 4);
    WindowSlice(stream.buffer[..], c0, ENTRY_META_FIELD_BYTES, 4, 2);
    WindowSlice(stream.buffer[..], c0, ENTRY_META_FIELD_BYTES, 6, 8);
    r := Ok(EntryMeta(totalSize.value, inPageSize.value, Some(overflow.value)));
  }

  /** After one field: the cursor is at its planned place, or past the end and so is the planned place. */
  ghost predicate AtField(cur: int, planned: int, len: int) {
    cur == planned || (cur >= len && planned > len)
  }

  /**
   * One field of updateEntryMeta at its planned place `at`: written when `c` holds, otherwise
   * skipped by a relative seek when `skip` holds. On a lost cursor neither moves a byte.
   */
  method UpdateField(stream: ByteBuffer, ghost at: int, c: bool, value: int, size: ByteSize, skip: bool)
    requires stream.lost || AtField(stream.cur, at, stream.buffer.Length)
    modifies stream, stream.buffer
    ensures stream.lost == old(stream.lost)
    ensures old(stream.lost) ==> stream.cur == old(stream.cur) && stream.buffer[..] == old(stream.buffer[..])
    ensures !old(stream.lost) ==>
      && stream.buffer[..] == Put(old(stream.buffer[..]), at, c, Encoded(value, size, Little))
      && (c || skip ==> AtField(stream.cur, at + ByteCount(size), stream.buffer.Length))
      && (!c && !skip ==> stream.cur == old(stream.cur))
  {
    if c {
      var f := ToBytes(value, size, Little);
      ghost var b := stream.buffer[..];
      var _ := stream.Write(f);
      if !stream.lost {
        OverlaySamePlace(b, old(stream.cur), at, f);
      }
    } else if skip {
      var _ := stream.Seek(Relative, Int(ByteCount(size)));
    }
  }

  method UpdateEntryMeta(stream: ByteBuffer, patch: EntryMetaPatch)
    modifies stream, stream.buffer
    ensures stream.lost == old(stream.lost)
    ensures old(stream.lost) ==> stream.cur == old(stream.cur) && stream.buffer[..] == old(stream.buffer[..])
    ensures !old(stream.lost) ==> stream.buffer[..] == EntryMetaImage(old(stream.buffer[..]), old(stream.cur), patch)
    ensures !old(stream.lost) && old(stream.cur) + MetaAdvance(patch) <= stream.buffer.Length ==>
      stream.cur == old(stream.cur) + MetaAdvance(patch)
  {
    ghost var c0, b0 := stream.cur, stream.buffer[..];
    UpdateField(stream, c0, Truthy(patch.totalSize), patch.totalSize.GetOr(0), 32, true);
    ghost var b1 := stream.buffer[..];
    UpdateField(stream, c0 + 4, Truthy(patch.inPageSize), patch.inPageSize.GetOr(0), 16, true);
    ghost var b2 := stream.buffer[..];
    UpdateField(stream, c0 + 6, Truthy(patch.overflow), patch.overflow.GetOr(0), 64, false);
    if !stream.lost {
      EntryMetaImageSteps(b0, b1, b2, stream.buffer[..], c0, patch);
    }
  }

  /** The three field writes of updateEntryMeta, one after another, give the metadata image. */
  lemma EntryMetaImageSteps(b0: seq<byte>, b1: seq<byte>, b2: seq<byte>, b3: seq<byte>, at: int, p: EntryMetaPatch)
    requires b1 == Put(b0, at, Truthy(p.totalSize), Encoded(p.totalSize.GetOr(0), 32, Little))
    requires b2 == Put(b1, at + 4, Truthy(p.inPageSize), Encoded(p.inPageSize.GetOr(0), 16, Little))
    requires b3 == Put(b2, at + 6, Truthy(p.overflow), Encoded(p.overflow.GetOr(0), 64, Little))
    ensures b3 == EntryMetaImage(b0, at, p)
  {
  }

  method WriteEntryMeta(stream: ByteBuffer, meta: EntryMeta)
    modifies stream, stream.buffer
    ensures stream.lost == old(stream.lost)
    ensures old(stream.lost) ==> stream.cur == old(stream.cur) && stream.buffer[..] == old(stream.buffer[..])
    ensures !old(stream.lost) ==> stream.buffer[..] == EntryMetaImage(old(stream.buffer[..]), old(stream.cur), PatchOf(meta))
    ensures !old(stream.lost) && old(stream.cur) + MetaAdvance(PatchOf(meta)) <= stream.buffer.Length ==>
      stream.cur == old(stream.cur) + MetaAdvance(PatchOf(meta))
  {
    UpdateEntryMeta(stream, PatchOf(meta));
  }

  // ---------------------------------------------------------------------------
  // Writing an entry

  /** The bookkeeping writeEntry does before any byte moves. */
  datatype EntryPlan = EntryPlan(id: int, inPageSize: int, head: Option<int>, meta: PageMeta)

  /** The tail allocation of a slot takes its 2 bytes only when that many are left; otherwise it fails unnoticed. */
  function SlotTaken(left: int): nat {
    if left >= ENTRY_OFFSET_SIZE then ENTRY_OFFSET_SIZE else 0
  }

  /**
   * As written: inPageSize = min(free length, total size), id = entryOffsets.length − 1 taken before
   * the push, a head allocation of inPageSize + ENTRY_META_SIZE, then a tail allocation of a slot.
   */
  function Plan(m: PageMeta, count: nat, totalSize: nat): (p: EntryPlan)
    requires m.freeLength >= MIN_REQUIRED_ENTRY_SIZE
    ensures p.id == count - 1
    ensures p.inPageSize == Min(m.freeLength, totalSize) && 0 <= p.inPageSize <= totalSize
    ensures p.head.Some? <==> totalSize + ENTRY_META_SIZE <= m.freeLength
    ensures p.head.Some? ==>
      && p.head.value == m.freeOffset
      && p.meta.freeOffset == m.freeOffset + p.inPageSize + ENTRY_META_SIZE
      && p.meta.freeLength == m.freeLength - p.inPageSize - ENTRY_META_SIZE - SlotTaken(m.freeLength - p.inPageSize - ENTRY_META_SIZE)
    ensures p.head.None? ==> p.meta.freeOffset == m.freeOffset && p.meta.freeLength == m.freeLength - ENTRY_OFFSET_SIZE
    ensures p.meta.id == m.id && p.meta.pageType == m.pageType
    ensures ValidMeta(m) ==> ValidMeta(p.meta)
  {
    var inPageSize := Min(m.freeLength, totalSize);
    var a1 := AllocSpec(m, inPageSize + ENTRY_META_SIZE, Head);
    var a2 := AllocSpec(a1.meta, ENTRY_OFFSET_SIZE, Tail);
    EntryPlan(count - 1, inPageSize, a1.addr, a2.meta)
  }

  /** The head block handed to a successful entry and its slot from the tail lie in the old free region, apart from each other and from the new one. */
  lemma PlanBlocksDisjoint(m: PageMeta, count: nat, totalSize: nat)
    requires m.freeLength >= MIN_REQUIRED_ENTRY_SIZE
    ensures var p := Plan(m, count, totalSize);
      var r := AllocateAll(m, [Request(p.inPageSize + ENTRY_META_SIZE, Head), Request(ENTRY_OFFSET_SIZE, Tail)]);
      && r.0[0] == p.head && r.1 == p.meta
      && (p.head.Some? ==>
            && (r.0[1].Some? <==> p.meta.freeLength == m.freeLength - p.inPageSize - MIN_REQUIRED_ENTRY_SIZE)
            && InRegion(p.head.value, p.inPageSize + ENTRY_META_SIZE, m.freeOffset, m.freeLength)
            && (r.0[1].Some? ==> InRegion(r.0[1].value, ENTRY_OFFSET_SIZE, m.freeOffset, m.freeLength))
            && (r.0[1].Some? ==> Disjoint(p.head.value, p.inPageSize + ENTRY_META_SIZE, r.0[1].value, ENTRY_OFFSET_SIZE))
            && (r.0[1].Some? ==> Disjoint(r.0[1].value, ENTRY_OFFSET_SIZE, p.meta.freeOffset, p.meta.freeLength))
            && Disjoint(p.head.value, p.inPageSize + ENTRY_META_SIZE, p.meta.freeOffset, p.meta.freeLength))
  {
    var p := Plan(m, count, totalSize);
    var reqs := [Request(p.inPageSize + ENTRY_META_SIZE, Head), Request(ENTRY_OFFSET_SIZE, Tail)];
    AllocateAllDisjoint(m, reqs);
    var a1 := AllocSpec(m, p.inPageSize + ENTRY_META_SIZE, Head);
    assert reqs[1..] == [Request(ENTRY_OFFSET_SIZE, Tail)];
    assert AllocateAll(a1.meta, reqs[1..]).0 == [AllocSpec(a1.meta, ENTRY_OFFSET_SIZE, Tail).addr];
  }

  /** An entry at least as large as the free space never gets its head block: min() picks the whole free length and the metadata no longer fits. */
  lemma PlanHeadFailsForLargeEntries(m: PageMeta, count: nat, totalSize: nat)
    requires m.freeLength >= MIN_REQUIRED_ENTRY_SIZE && totalSize >= m.freeLength
    ensures Plan(m, count, totalSize).head.None?
  {
  }

  /** When the head block leaves fewer than 2 bytes, the slot is silently not reserved: 88 bytes on a 200-byte free region. */
  lemma PlanSlotLost()
    ensures var m := PageMeta(None, Some(Entry), PAGE_SIZE - 200, 200);
      var p := Plan(m, 0, 88);
      p.head == Some(PAGE_SIZE - 200) && p.meta.freeLength == 0 && p.meta.freeOffset == PAGE_SIZE
  {
  }

  /** The returned id names the slot before the new one: for the first entry of a page it is −1. */
  lemma PlanIdIsPreviousSlot(m: PageMeta, offsets: seq<Option<int>>, totalSize: nat)
    requires m.freeLength >= MIN_REQUIRED_ENTRY_SIZE
    ensures var p := Plan(m, |offsets|, totalSize);
      var after := offsets + [p.head];
      && p.id == |after| - 2
      && (offsets == [] ==> p.id == -1)
      && (offsets != [] ==> after[p.id] == offsets[|offsets| - 1])
  {
  }

  /**
   * The evidently intended bookkeeping: the in-page part leaves room for the metadata and the slot,
   * and the id is the index the new offset takes.
   */
  function PlanIntended(m: PageMeta, count: nat, totalSize: nat): (p: EntryPlan)
    requires m.freeLength >= MIN_REQUIRED_ENTRY_SIZE
    ensures p.inPageSize == Min(m.freeLength - MIN_REQUIRED_ENTRY_SIZE, totalSize)
  {
    var inPageSize := Min(m.freeLength - MIN_REQUIRED_ENTRY_SIZE, totalSize);
    var a1 := AllocSpec(m, inPageSize + ENTRY_META_SIZE, Head);
    var a2 := AllocSpec(a1.meta, ENTRY_OFFSET_SIZE, Tail);
    EntryPlan(count, inPageSize, a1.addr, a2.meta)
  }

  /** The intended plan always gets both blocks on a page with enough space, keeps the header valid, and its id indexes the new offset. */
  lemma PlanIntendedSucceeds(m: PageMeta, offsets: seq<Option<int>>, totalSize: nat)
    requires m.freeLength >= MIN_REQUIRED_ENTRY_SIZE
    ensures var p := PlanIntended(m, |offsets|, totalSize);
      && p.head == Some(m.freeOffset)
      && (offsets + [p.head])[p.id] == p.head
      && p.meta.freeOffset == m.freeOffset + p.inPageSize + ENTRY_META_SIZE
      && p.meta.freeLength == m.freeLength - p.inPageSize - MIN_REQUIRED_ENTRY_SIZE
      && p.meta.freeLength >= 0
      && (ValidMeta(m) ==> ValidMeta(p.meta))
  {
    var p := PlanIntended(m, |offsets|, totalSize);
    var a1 := AllocSpec(m, p.inPageSize + ENTRY_META_SIZE, Head);
    assert a1.addr.Some?;
    assert AllocSpec(a1.meta, ENTRY_OFFSET_SIZE, Tail).addr.Some?;
  }

  /**
   * The payload copy of writeEntry, into a page at the cursor just past the metadata of a head block
   * that has room for the in-page bytes. A first read of nothing leaves the page as it was; one of
   * 1 to 7999 bytes throws, leaving those bytes and then zeros after the metadata as far as the
   * scratch buffer or the page reaches. Since the page always has more room after the cursor than
   * src can deliver, the copy returns only for 0 or exactly 8000 bytes, and then moves them all.
   */
  lemma PayloadCopy(meta: seq<byte>, dc: int, sb: seq<byte>, sc: int, inPageSize: nat)
    requires |meta| == PAGE_SIZE && 6 <= dc && dc - 6 + inPageSize + ENTRY_META_SIZE <= PAGE_SIZE
    ensures var run := CopyRun(meta, dc, sb, sc, inPageSize, 0, Zeros(DEFAULT_BUF_SIZE));
      var first := FirstRead(|sb|, sc, inPageSize, 0);
      && (first == 0 ==> run.0 && run.1.dest == meta)
      && (0 < first < DEFAULT_BUF_SIZE ==>
            && !run.0 && run.1.srcCur == sc + first
            && run.1.dest == Overlay(meta, dc, Window(sb, sc, first) + Zeros(DEFAULT_BUF_SIZE - first))
            && run.1.destCur == dc + Min(PAGE_SIZE - dc, DEFAULT_BUF_SIZE))
      && (sc <= |sb| ==>
            var a := Min(inPageSize, |sb| - sc);
            && (run.0 <==> a == 0 || a == DEFAULT_BUF_SIZE)
            && (run.0 ==> run.1.dest == Transferred(meta, dc, sb, sc, a)))
  {
    var z := Zeros(DEFAULT_BUF_SIZE);
    var run := CopyRun(meta, dc, sb, sc, inPageSize, 0, z);
    var first := FirstRead(|sb|, sc, inPageSize, 0);
    CopyRunStep(meta, dc, sb, sc, inPageSize, 0, z, first, Refill(z, sb, sc, first, inPageSize));
    if 0 < first < DEFAULT_BUF_SIZE {
      CopyFailsFirstPass(meta, dc, sb, sc, inPageSize, 0);
    }
    if sc <= |sb| {
      CopyIntoLargerRoom(meta, dc, sb, sc, inPageSize, z);
      CopyRunMoves(run, meta, dc, sb, sc, inPageSize, 0, z);
      CopyRunBounds(run, meta, dc, sb, sc, inPageSize, 0, z);
      CopyRunTransfers(run, meta, dc, sb, sc, inPageSize, 0, z);
    }
  }

  /**
   * What storing an entry into the head block at `at` leaves, from a good page cursor: the page
   * bytes `bytes`, the page cursor `pageCur` and the reader's cursor `srcCur` after copying from
   * `src` at `sc`, and whether the copy returned (`ok`). It is the metadata image followed by the
   * copy passes; an empty read stores only the metadata; a first read short of 8000 bytes fails
   * with all 8000 scratch bytes written; and the copy returns exactly when it has 0 or 8000 bytes
   * to move, having moved them all.
   */
  ghost predicate HeadStored(pre: seq<byte>, at: int, totalSize: nat, inPageSize: nat, src: seq<byte>, sc: int,
                             ok: bool, bytes: seq<byte>, pageCur: int, srcCur: int)
    requires |pre| == PAGE_SIZE && 0 <= at && at + inPageSize + ENTRY_META_SIZE <= PAGE_SIZE
  {
    var meta := EntryMetaImage(pre, at, PatchOf(EntryMeta(totalSize, inPageSize, None)));
    var first := FirstRead(|src|, sc, inPageSize, 0);
    var run := CopyRun(meta, at + 6, src, sc, inPageSize, 0, Zeros(DEFAULT_BUF_SIZE));
    && (ok <==> run.0) && bytes == run.1.dest && pageCur == run.1.destCur && srcCur == run.1.srcCur
    && (first == 0 ==> ok && bytes == meta)
    && (0 < first < DEFAULT_BUF_SIZE ==>
          && !ok && srcCur == sc + first
          && bytes == Overlay(meta, at + 6, Window(src, sc, first) + Zeros(DEFAULT_BUF_SIZE - first))
          && pageCur == at + 6 + Min(PAGE_SIZE - (at + 6), DEFAULT_BUF_SIZE))
    && (sc <= |src| ==>
          var a := Min(inPageSize, |src| - sc);
          && (ok <==> a == 0 || a == DEFAULT_BUF_SIZE)
          && (ok ==> bytes == Transferred(meta, at + 6, src, sc, a)))
  }

  /** The state the copy passes reach after the metadata image is what HeadStored describes. */
  lemma HeadStoredByRun(pre: seq<byte>, at: int, totalSize: nat, inPageSize: nat, src: seq<byte>, sc: int, run: (bool, CopyState))
    requires |pre| == PAGE_SIZE && 0 <= at && at + inPageSize + ENTRY_META_SIZE <= PAGE_SIZE
    requires run == CopyRun(EntryMetaImage(pre, at, PatchOf(EntryMeta(totalSize, inPageSize, None))),
                            at + 6, src, sc, inPageSize, 0, Zeros(DEFAULT_BUF_SIZE))
    ensures HeadStored(pre, at, totalSize, inPageSize, src, sc, run.0, run.1.dest, run.1.destCur, run.1.srcCur)
  {
    PayloadCopy(EntryMetaImage(pre, at, PatchOf(EntryMeta(totalSize, inPageSize, None))), at + 6, src, sc, inPageSize);
  }

  /** What writeEntry reports: no room, the entry's id and in-page size, or the error it throws. */
  datatype WriteOutcome = NoSpace | Written(id: int, written: int) | Failed(error: Error)

  class EntryPage {
    const page: Page
    var entryOffsets: seq<Option<int>>

    ghost predicate Valid()
      reads this, page
    {
      page.Valid()
    }

    /** EntryPage.new: a blank entry page with the given id and an empty offset list. */
    constructor New(id: int)
      ensures fresh(page) && fresh(page.buffer) && fresh(page.buffer.buffer) && Valid()
      ensures page.meta == PageMeta(if id != 0 then Some(id) else None, Some(Entry), PAGE_META_SIZE, PAGE_SIZE - PAGE_META_SIZE)
      ensures page.buffer.cur == 0 && !page.buffer.lost && entryOffsets == []
    {
      page := new Page(Some(id), Some(Entry));
      entryOffsets := [];
      new;
      page.InitialiseNewPage();
    }

    /** `new EntryPage()` with no arguments: no id and no type, in the state of a freshly initialised page. */
    constructor Blank()
      ensures fresh(page) && fresh(page.buffer) && fresh(page.buffer.buffer) && Valid()
      ensures page.meta == PageMeta(None, None, PAGE_META_SIZE, PAGE_SIZE - PAGE_META_SIZE)
      ensures page.buffer.cur == 0 && !page.buffer.lost && entryOffsets == []
    {
      page := new Page(None, None);
      entryOffsets := [];
    }

    /** Room for at least an empty entry: its metadata from the head and its slot from the tail. */
    function HasEnoughSpace(): (b: bool)
      reads this, page
      ensures b <==> var a := AllocSpec(page.meta, ENTRY_META_SIZE, Head);
        a.addr.Some? && AllocSpec(a.meta, ENTRY_OFFSET_SIZE, Tail).addr.Some?
    {
      page.RemainingFreeSpace() >= MIN_REQUIRED_ENTRY_SIZE
    }

    /**
     * writeEntry(d). The total size is d's length; the payload goes through copy, which hands its
     * whole scratch buffer to the page, so any first read of 1 to 7999 bytes ends in ShortCopy
     * after the bookkeeping, the metadata and the scratch bytes have been written. When the head
     * allocation fails, the seek to its `undefined` address loses the page cursor: the metadata
     * writes do nothing, copy fails on any non-empty read, and every later absolute seek overflows.
     */
    method WriteEntry(d: ByteBuffer) returns (r: WriteOutcome)
      requires Valid() && !d.lost
      requires d != page.buffer && d.buffer != page.buffer.buffer
      modifies this, page, page.buffer, page.buffer.buffer, d
      ensures Valid() && !d.lost
      ensures !old(HasEnoughSpace()) ==>
        && r == NoSpace && entryOffsets == old(entryOffsets) && page.meta == old(page.meta)
        && page.buffer.cur == old(page.buffer.cur) && page.buffer.lost == old(page.buffer.lost)
        && page.buffer.buffer[..] == old(page.buffer.buffer[..]) && d.cur == old(d.cur)
      ensures old(HasEnoughSpace()) ==>
        var p := Plan(old(page.meta), |old(entryOffsets)|, d.buffer.Length);
        && page.meta == p.meta
        && entryOffsets == old(entryOffsets) + [p.head]
        && r != NoSpace
        && (r.Written? ==> r == Written(p.id, p.inPageSize))
        && (old(page.buffer.lost) || old(page.buffer.cur) < 0 ==>
              && r == Failed(StackOverflow) && page.buffer.lost == old(page.buffer.lost)
              && page.buffer.cur == old(page.buffer.cur)
              && page.buffer.buffer[..] == old(page.buffer.buffer[..]) && d.cur == old(d.cur))
      ensures old(HasEnoughSpace()) ==>
        var p := Plan(old(page.meta), |old(entryOffsets)|, d.buffer.Length);
        var first := FirstRead(d.buffer.Length, old(d.cur), p.inPageSize, 0);
        p.head.None? && !old(page.buffer.lost) && old(page.buffer.cur) >= 0 ==>
          && page.buffer.lost && page.buffer.buffer[..] == old(page.buffer.buffer[..])
          && (first == 0 <==> r == Written(p.id, p.inPageSize))
          && (first != 0 ==> r == Failed(ShortCopy))
          && d.cur == old(d.cur) + Max(first, 0)
      ensures old(HasEnoughSpace()) ==>
        var p := Plan(old(page.meta), |old(entryOffsets)|, d.buffer.Length);
        p.head.Some? && !old(page.buffer.lost) && old(page.buffer.cur) >= 0 ==>
          && !page.buffer.lost && (r.Written? || r == Failed(ShortCopy))
          && HeadStored(old(page.buffer.buffer[..]), p.head.value, d.buffer.Length, p.inPageSize, d.buffer[..], old(d.cur),
                        r.Written?, page.buffer.buffer[..], page.buffer.cur, d.cur)
    {
      if !HasEnoughSpace() {
        return NoSpace;
      }
      var totalSize := d.buffer.Length;
      var entryId, inPageSize, entryOffset := Reserve(totalSize);
      ghost var p := Plan(old(page.meta), |old(entryOffsets)|, totalSize);
      assert entryOffset == p.head && inPageSize == p.inPageSize && entryId == p.id;
      assert page.buffer.buffer[..] == old(page.buffer.buffer[..]) && d.cur == old(d.cur);
      var stored := Store(d, entryOffset, totalSize, inPageSize);
      if stored.Err? {
        return Failed(stored.error);
      }
      r := Written(entryId, inPageSize);
    }

    /** The bookkeeping of writeEntry: both allocations and the push onto entryOffsets. */
    method Reserve(totalSize: nat) returns (id: int, inPageSize: nat, head: Option<int>)
      requires Valid() && HasEnoughSpace()
      modifies this, page
      ensures var p := Plan(old(page.meta), |old(entryOffsets)|, totalSize);
        && id == p.id && inPageSize == p.inPageSize && head == p.head
        && page.meta == p.meta && entryOffsets == old(entryOffsets) + [p.head]
      ensures Valid()
    {
      inPageSize := Min(page.RemainingFreeSpace(), totalSize);
      id := |entryOffsets| - 1;
      head := page.Alloc(inPageSize + ENTRY_META_SIZE, Head);
      var slot := page.Alloc(ENTRY_OFFSET_SIZE, Tail);
      entryOffsets := entryOffsets + [head];
    }

    /**
     * The first half of Store: seek to the head block and write the entry's metadata there. A missing
     * head address loses the cursor, and the metadata writes then leave the page as it was.
     */
    method StoreMeta(head: Option<int>, totalSize: nat, inPageSize: nat) returns (r: Result<()>)
      requires page.buffer.buffer.Length == PAGE_SIZE
      requires head.Some? ==> 0 <= head.value && head.value + ENTRY_META_SIZE <= PAGE_SIZE
      modifies page.buffer, page.buffer.buffer
      ensures old(page.buffer.lost) || old(page.buffer.cur) < 0 ==>
        && r == Err(StackOverflow) && page.buffer.lost == old(page.buffer.lost) && page.buffer.cur == old(page.buffer.cur)
        && page.buffer.buffer[..] == old(page.buffer.buffer[..])
      ensures !old(page.buffer.lost) && old(page.buffer.cur) >= 0 && head.None? ==>
        r == Ok(()) && page.buffer.lost && page.buffer.buffer[..] == old(page.buffer.buffer[..])
      ensures !old(page.buffer.lost) && old(page.buffer.cur) >= 0 && head.Some? ==>
        && r == Ok(()) && !page.buffer.lost && page.buffer.cur == head.value + 6
        && page.buffer.buffer[..] == EntryMetaImage(old(page.buffer.buffer[..]), head.value, PatchOf(EntryMeta(totalSize, inPageSize, None)))
    {
      var s := page.Seek(Common(Absolute), head);
      if s.Err? {
        return Err(s.error);
      }
      WriteEntryMeta(page.buffer, EntryMeta(totalSize, inPageSize, None));
      r := Ok(());
    }

    /** The byte work of writeEntry: seek to the head block, write the metadata, copy the payload after it. */
    method Store(d: ByteBuffer, head: Option<int>, totalSize: nat, inPageSize: nat) returns (r: Result<()>)
      requires d != page.buffer && d.buffer != page.buffer.buffer && !d.lost
      requires page.buffer.buffer.Length == PAGE_SIZE
      requires head.Some? ==> 0 <= head.value && head.value + inPageSize + ENTRY_META_SIZE <= PAGE_SIZE
      modifies page.buffer, page.buffer.buffer, d
      ensures !d.lost
      ensures old(page.buffer.lost) || old(page.buffer.cur) < 0 ==>
        && r == Err(StackOverflow) && page.buffer.lost == old(page.buffer.lost) && page.buffer.cur == old(page.buffer.cur)
        && page.buffer.buffer[..] == old(page.buffer.buffer[..]) && d.cur == old(d.cur)
      ensures var first := FirstRead(d.buffer.Length, old(d.cur), inPageSize, 0);
        !old(page.buffer.lost) && old(page.buffer.cur) >= 0 && head.None? ==>
          && page.buffer.lost && page.buffer.buffer[..] == old(page.buffer.buffer[..])
          && (r.Ok? <==> first == 0) && (r.Err? ==> r.error == ShortCopy)
          && d.cur == old(d.cur) + Max(first, 0)
      ensures !old(page.buffer.lost) && old(page.buffer.cur) >= 0 && head.Some? ==>
        && !page.buffer.lost && (r.Ok? || r == Err(ShortCopy))
        && HeadStored(old(page.buffer.buffer[..]), head.value, totalSize, inPageSize, d.buffer[..], old(d.cur),
                      r.Ok?, page.buffer.buffer[..], page.buffer.cur, d.cur)
    {
      r := StoreMeta(head, totalSize, inPageSize);
      if r.Err? {
        return;
      }
      ghost var meta, dc := page.buffer.buffer[..], page.buffer.cur;
      ghost var sb := d.buffer[..];
      ghost var run := if head.Some? then CopyRun(meta, dc, sb, d.cur, inPageSize, 0, Zeros(DEFAULT_BUF_SIZE))
                       else (false, CopyState([], 0, 0, 0, []));
      var limited := new LimitedRead(d, inPageSize);
      var c := Copy(page.buffer, limited);
      if head.Some? {
        assert c.Ok? == run.0 && page.buffer.buffer[..] == run.1.dest && page.buffer.cur == run.1.destCur && d.cur == run.1.srcCur;
        HeadStoredByRun(old(page.buffer.buffer[..]), head.value, totalSize, inPageSize, sb, old(d.cur), run);
      }
      if c.Err? {
        return Err(c.error);
      }
      r := Ok(());
    }
  }
}
