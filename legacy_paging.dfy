/**
 * src/lib/world/paging.ts: the earlier, self-contained paging layer. Its entry page keeps the
 * header and the entry metadata in a plain Uint8Array through the bytes.ts helpers, and its
 * writeEntry only does the free-space bookkeeping: no byte of the entry is stored.
 */
module LegacyPaging {
  import opened JsNumber
  import opened ByteMath
  import opened Outcomes
  import opened Bytes
  import opened PageConstants
  import opened PageBase
  import PageEntry

  // ---------------------------------------------------------------------------
  // Header

  /**
   * The 9 bytes writeMeta stores from offset 0, each field least significant byte first: the id in
   * 4 bytes (the "64-bit" helper writes 4), the type's index, the free offset and the free length in 2 bytes each.
   */
  function LegacyMetaBytes(m: PageMeta): (r: seq<byte>)
    ensures |r| == 9
  {
    Field(IdValue(m.id), 4) + Field(TypeIndex(m.pageType), 1) + Field(m.freeOffset, 2) + Field(m.freeLength, 2)
  }

  /** Read back little-endian, each slot holds its field modulo its width; a missing type is stored as 255. */
  lemma LegacyMetaLayout(m: PageMeta)
    ensures var r := LegacyMetaBytes(m);
      && LE(r[0..4]) == ToInt32(IdValue(m.id)) % Pow256(4)
      && r[4] == And0xFF(TypeIndex(m.pageType))
      && LE(r[5..7]) == ToInt32(m.freeOffset) % 65536
      && LE(r[7..9]) == ToInt32(m.freeLength) % 65536
    ensures m.pageType.None? ==> LegacyMetaBytes(m)[4] == 255
  {
    var f1, f2 := Field(IdValue(m.id), 4), Field(TypeIndex(m.pageType), 1);
    var f3, f4 := Field(m.freeOffset, 2), Field(m.freeLength, 2);
    var r := f1 + f2 + f3 + f4;
    assert r[0..4] == f1 && r[4] == f2[0] && r[5..7] == f3 && r[7..9] == f4;
    FieldValue(IdValue(m.id), 4);
    FieldValue(m.freeOffset, 2);
    FieldValue(m.freeLength, 2);
  }

  /** A field read back little-endian is the 32-bit value modulo its width. */
  lemma FieldValue(v: int, n: nat)
    ensures LE(Field(v, n)) == ToInt32(v) % Pow256(n)
    ensures n == 2 ==> Pow256(n) == 65536
  {
    LsbBytesValue(ToInt32(v), n);
  }

  /** For the values a page holds (16-bit offsets and lengths), the header keeps them exactly. */
  lemma LegacyMetaKeepsFreeRegion(m: PageMeta)
    requires 0 <= m.freeOffset < 65536 && 0 <= m.freeLength < 65536
    ensures LE(LegacyMetaBytes(m)[5..7]) == m.freeOffset
    ensures LE(LegacyMetaBytes(m)[7..9]) == m.freeLength
  {
    LegacyMetaLayout(m);
    SmallValue(m.freeOffset);
    SmallValue(m.freeLength);
  }

  lemma SmallValue(v: int)
    requires 0 <= v < 65536
    ensures ToInt32(v) % 65536 == v
  {
    ToInt32OfInt32(v);
  }

  // ---------------------------------------------------------------------------
  // Entry metadata

  /**
   * The bytes after updateEntryMeta at `off`: a truthy totalSize in the 4 bytes at off, a truthy
   * size-in-page in the 2 bytes at off + 4, a truthy overflow in the 4 bytes at off + 6.
   */
  function LegacyEntryMetaImage(b: seq<byte>, off: int, p: PageEntry.EntryMetaPatch): (r: seq<byte>)
    ensures |r| == |b|
  {
    Put3(b, off, Truthy(p.totalSize), Field(p.totalSize.GetOr(0), 4),
                 Truthy(p.inPageSize), Field(p.inPageSize.GetOr(0), 2),
                 Truthy(p.overflow), Field(p.overflow.GetOr(0), 4))
  }

  /** The three conditional writes of updateEntryMeta, one after another, give the metadata image. */
  lemma LegacyEntryMetaImageSteps(b0: seq<byte>, b1: seq<byte>, b2: seq<byte>, b3: seq<byte>, off: int, p: PageEntry.EntryMetaPatch)
    requires b1 == Put(b0, off, Truthy(p.totalSize), Field(p.totalSize.GetOr(0), 4))
    requires b2 == Put(b1, off + 4, Truthy(p.inPageSize), Field(p.inPageSize.GetOr(0), 2))
    requires b3 == Put(b2, off + 6, Truthy(p.overflow), Field(p.overflow.GetOr(0), 4))
    ensures b3 == LegacyEntryMetaImage(b0, off, p)
  {
  }

  /** The legacy slot is 10 bytes: each field lands in its place or keeps the old bytes, and nothing outside changes. */
  lemma LegacyEntryMetaLayout(b: seq<byte>, off: int, p: PageEntry.EntryMetaPatch)
    requires 0 <= off && off + 10 <= |b|
    ensures var img := LegacyEntryMetaImage(b, off, p);
      && img[off..off + 4] == (if Truthy(p.totalSize) then Field(p.totalSize.value, 4) else b[off..off + 4])
      && img[off + 4..off + 6] == (if Truthy(p.inPageSize) then Field(p.inPageSize.value, 2) else b[off + 4..off + 6])
      && img[off + 6..off + 10] == (if Truthy(p.overflow) then Field(p.overflow.value, 4) else b[off + 6..off + 10])
      && forall i :: 0 <= i < |b| && !(off <= i < off + 10) ==> img[i] == b[i]
  {
    var f1 := Field(p.totalSize.GetOr(0), 4);
    var f2 := Field(p.inPageSize.GetOr(0), 2);
    var f3 := Field(p.overflow.GetOr(0), 4);
    Put3Layout(b, off, Truthy(p.totalSize), f1, Truthy(p.inPageSize), f2, Truthy(p.overflow), f3);
    forall i | 0 <= i < |b| && !(off <= i < off + 10)
      ensures LegacyEntryMetaImage(b, off, p)[i] == b[i]
    {
      Put3Outside(b, off, Truthy(p.totalSize), f1, Truthy(p.inPageSize), f2, Truthy(p.overflow), f3, i);
    }
  }

  // ---------------------------------------------------------------------------
  // Free-space bookkeeping

  /** How much of the entry writeEntry books in the page: min(remaining bytes of the stream, free length − 114). */
  function SizeInPage(m: PageMeta, remaining: int): int {
    Min(remaining, m.freeLength - MIN_REQUIRED_ENTRY_SIZE)
  }

  /**
   * The header after writeEntry books an entry: the free offset moves past the metadata and the
   * booked bytes, and the free length also loses the 2-byte slot.
   */
  function Claim(m: PageMeta, remaining: int): (m': PageMeta)
    ensures m'.id == m.id && m'.pageType == m.pageType
    ensures m'.freeOffset + m'.freeLength == m.freeOffset + m.freeLength - ENTRY_OFFSET_SIZE
    ensures m'.freeLength >= 0
    ensures m'.freeLength == 0 <==> remaining >= m.freeLength - MIN_REQUIRED_ENTRY_SIZE
    ensures m.freeLength > MIN_REQUIRED_ENTRY_SIZE && remaining >= 0 ==>
      m.freeOffset + ENTRY_META_SIZE <= m'.freeOffset <= m.freeOffset + ENTRY_META_SIZE + remaining
  {
    var s := SizeInPage(m, remaining);
    m.(freeOffset := m.freeOffset + ENTRY_META_SIZE + s, freeLength := m.freeLength - MIN_REQUIRED_ENTRY_SIZE - s)
  }

  /** Offsets of the entries strictly increase and all lie below the free offset. */
  ghost predicate Ordered(offsets: seq<int>, freeOffset: int) {
    && (forall i, j :: 0 <= i < j < |offsets| ==> offsets[i] < offsets[j])
    && (forall i :: 0 <= i < |offsets| ==> offsets[i] < freeOffset)
  }

  /** Booking an entry on a page with enough space, from a stream not read past its end, keeps the offsets ordered. */
  lemma ClaimKeepsOrder(offsets: seq<int>, m: PageMeta, remaining: int)
    requires Ordered(offsets, m.freeOffset)
    requires m.freeLength > MIN_REQUIRED_ENTRY_SIZE && remaining >= 0
    ensures Ordered(offsets + [m.freeOffset], Claim(m, remaining).freeOffset)
  {
  }

  /**
   * The header, the booked entries and the free region always add up to a page: free offset +
   * free length + 2 bytes per slot is a page size.
   */
  ghost predicate Conserved(m: PageMeta, count: nat) {
    m.freeOffset + m.freeLength + ENTRY_OFFSET_SIZE * count == PAGE_SIZE
  }

  lemma ClaimConserves(m: PageMeta, count: nat, remaining: int)
    requires Conserved(m, count)
    ensures Conserved(Claim(m, remaining), count + 1)
  {
  }

  // ---------------------------------------------------------------------------
  // The entry page

  /** The header of a page the manager opens: no id, no type, the free region right after the 72-byte header. */
  const FRESH_META: PageMeta := PageMeta(None, None, PAGE_META_SIZE, PAGE_SIZE - PAGE_META_SIZE)

  class EntryPage {
    var meta: PageMeta
    var entryOffsets: seq<int>
    const buffer: array<byte>

    /** The bookkeeping invariant: the free region, the header and the booked entries account for the page, and the offsets increase. */
    ghost predicate Valid()
      reads this
    {
      Conserved(meta, |entryOffsets|) && Ordered(entryOffsets, meta.freeOffset) && meta.freeLength >= 0
    }

    /** `new EntryPage()`, with the header and the offset list in their initialised state. */
    constructor ()
      ensures meta == FRESH_META && entryOffsets == [] && Valid()
      ensures fresh(buffer) && buffer.Length == PAGE_SIZE && forall i :: 0 <= i < PAGE_SIZE ==> buffer[i] == 0
    {
      meta := FRESH_META;
      entryOffsets := [];
      buffer := new byte[PAGE_SIZE](_ => 0);
    }

    /** hasEnoughSpace: strictly more than 114 free bytes, so that any non-empty entry books at least one byte. */
    function HasEnoughSpace(): (b: bool)
      reads this
      ensures b <==> forall n :: n > 0 ==> SizeInPage(meta, n) > 0
    {
      assert SizeInPage(meta, 1) > 0 ==> meta.freeLength > MIN_REQUIRED_ENTRY_SIZE;
      meta.freeLength > MIN_REQUIRED_ENTRY_SIZE
    }

    /** writeMeta: the 9 header bytes at offset 0 through a Uint8ArrayStream. */
    method WriteMeta()
      modifies buffer
      ensures buffer[..] == Overlay(old(buffer[..]), 0, LegacyMetaBytes(meta))
    {
      var m := meta;
      var stream := new Uint8ArrayStream(buffer, 0);
      ghost var b0 := buffer[..];
      var f1, f2, f3, f4 := Field(IdValue(m.id), 4), Field(TypeIndex(m.pageType), 1), Field(m.freeOffset, 2), Field(m.freeLength, 2);
      stream.WriteDWord64(IdValue(m.id));
      stream.WriteByte(TypeIndex(m.pageType));
      OverlayStep(b0, 0, f1, 4, f2);
      stream.WriteWord(m.freeOffset);
      OverlayStep(b0, 0, f1 + f2, 5, f3);
      stream.WriteWord(m.freeLength);
      OverlayStep(b0, 0, f1 + f2 + f3, 7, f4);
      assert f1 + f2 + f3 + f4 == LegacyMetaBytes(m);
    }

    /** updateEntryMeta: an id with no slot has an undefined offset, and writes at an undefined index are dropped. */
    method UpdateEntryMeta(id: int, patch: PageEntry.EntryMetaPatch)
      modifies buffer
      ensures 0 <= id < |entryOffsets| ==> buffer[..] == LegacyEntryMetaImage(old(buffer[..]), entryOffsets[id], patch)
      ensures !(0 <= id < |entryOffsets|) ==> buffer[..] == old(buffer[..])
    {
      if !(0 <= id < |entryOffsets|) {
        return;
      }
      var off := entryOffsets[id];
      ghost var b0 := buffer[..];
      if Truthy(patch.totalSize) {
        WriteDWord32(buffer, off, patch.totalSize.value);
      }
      ghost var b1 := buffer[..];
      if Truthy(patch.inPageSize) {
        WriteWord(buffer, off + 4, patch.inPageSize.value);
      }
      ghost var b2 := buffer[..];
      if Truthy(patch.overflow) {
        WriteDWord64(buffer, off + 6, patch.overflow.value);
      }
      LegacyEntryMetaImageSteps(b0, b1, b2, buffer[..], off, patch);
    }

    method WriteEntryMeta(id: int, meta: PageEntry.EntryMeta)
      modifies buffer
      ensures 0 <= id < |entryOffsets| ==>
        buffer[..] == LegacyEntryMetaImage(old(buffer[..]), entryOffsets[id], PageEntry.PatchOf(meta))
      ensures !(0 <= id < |entryOffsets|) ==> buffer[..] == old(buffer[..])
    {
      UpdateEntryMeta(id, PageEntry.PatchOf(meta));
    }

    /**
     * writeEntry: books the stream's bytes against the free region and appends the old free offset
     * as the entry's offset; the result is the new entry's index. It does not check for space and
     * stores no byte of the entry.
     */
    method WriteEntry(stream: Uint8ArrayStream) returns (id: int)
      modifies this
      ensures id == |old(entryOffsets)|
      ensures entryOffsets == old(entryOffsets) + [old(meta).freeOffset]
      ensures meta == Claim(old(meta), stream.Remaining())
      ensures Conserved(old(meta), |old(entryOffsets)|) ==> Conserved(meta, |entryOffsets|)
      ensures old(Valid()) && old(HasEnoughSpace()) && stream.Remaining() >= 0 ==> Valid()
    {
      var m := meta;
      var sizeInPage := Min(stream.Remaining(), m.freeLength - MIN_REQUIRED_ENTRY_SIZE);
      var offset := m.freeOffset;
      entryOffsets := entryOffsets + [offset];
      id := |entryOffsets| - 1;
      meta := m.(freeOffset := m.freeOffset + ENTRY_META_SIZE + sizeInPage,
                 freeLength := m.freeLength - MIN_REQUIRED_ENTRY_SIZE - sizeInPage);
      if Ordered(old(entryOffsets), m.freeOffset) && m.freeLength > MIN_REQUIRED_ENTRY_SIZE && stream.Remaining() >= 0 {
        ClaimKeepsOrder(old(entryOffsets), m, stream.Remaining());
      }
      if Conserved(m, |old(entryOffsets)|) {
        ClaimConserves(m, |old(entryOffsets)|, stream.Remaining());
      }
    }
  }

  class Paging {
    var entryPage: EntryPage?
    var pendingEntryPages: seq<EntryPage>

    /** The open page, when there is one, keeps its bookkeeping invariant. */
    ghost predicate Valid()
      reads this, entryPage
    {
      entryPage != null ==> entryPage.Valid()
    }

    /** A manager with no open page and nothing pending. */
    constructor ()
      ensures entryPage == null && pendingEntryPages == [] && Valid()
    {
      entryPage := null;
      pendingEntryPages := [];
    }

    /** getEntryPage: the open page, or a fresh one opened when there is none. */
    method GetEntryPage() returns (p: EntryPage)
      requires Valid()
      modifies this
      ensures entryPage == p && pendingEntryPages == old(pendingEntryPages) && Valid()
      ensures old(entryPage) != null ==> p == old(entryPage)
      ensures old(entryPage) == null ==> fresh(p) && p.meta == FRESH_META && p.entryOffsets == []
    {
      if entryPage == null {
        entryPage := new EntryPage();
      }
      p := entryPage;
    }

    /**
     * writeEntry(data): a page without enough space goes to the end of the pending list and a
     * fresh page is opened; then the entry is booked on the open page.
     */
    method WriteEntry(data: array<byte>)
      requires Valid()
      modifies this, entryPage
      ensures Valid() && entryPage != null
      ensures old(entryPage) != null && old(entryPage.HasEnoughSpace()) ==>
        && entryPage == old(entryPage) && pendingEntryPages == old(pendingEntryPages)
        && entryPage.entryOffsets == old(entryPage.entryOffsets) + [old(entryPage.meta.freeOffset)]
        && entryPage.meta == Claim(old(entryPage.meta), data.Length)
      ensures !(old(entryPage) != null && old(entryPage.HasEnoughSpace())) ==>
        && fresh(entryPage)
        && pendingEntryPages == old(pendingEntryPages) + (if old(entryPage) != null then [old(entryPage)] else [])
        && (old(entryPage) != null ==> unchanged(old(entryPage)) && unchanged(old(entryPage).buffer))
        && entryPage.entryOffsets == [PAGE_META_SIZE]
        && entryPage.meta == Claim(FRESH_META, data.Length)
    {
      var stream := new Uint8ArrayStream(data, 0);
      var page := GetEntryPage();
      if !page.HasEnoughSpace() {
        pendingEntryPages := pendingEntryPages + [page];
        entryPage := null;
        page := GetEntryPage();
      }
      var _ := entryPage.WriteEntry(stream);
    }
  }
}
