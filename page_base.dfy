/**
 * src/lib/world/paging/page/base.ts: a fixed-size page over a ByteBuffer, its header codec, the
 * page-relative seek kinds, and the allocator that carves blocks from the head or the tail of the
 * free region described by `freeOffset`/`freeLength`.
 */
module PageBase {
  import opened JsNumber
  import opened ByteMath
  import opened Outcomes
  import opened Stream
  import opened PageConstants

  datatype PageType = Entry | Overflow

  /** The `pageTypes` table: a type is stored as its index in it. */
  const PAGE_TYPES: seq<PageType> := [Entry, Overflow]

  /** Header fields. `None` stands for a field the source leaves `undefined`. */
  datatype PageMeta = PageMeta(id: Option<int>, pageType: Option<PageType>, freeOffset: int, freeLength: int)

  /** JavaScript truthiness of an optional number: absent and 0 are both false. */
  predicate Truthy(o: Option<int>) {
    o.Some? && o.value != 0
  }

  /** `pageTypes.indexOf(t)`: -1 for a missing type. */
  function TypeIndex(t: Option<PageType>): (r: int)
    ensures r == -1 <==> t.None?
    ensures t.Some? ==> 0 <= r < |PAGE_TYPES| && PAGE_TYPES[r] == t.value
  {
    match t
    case None => -1
    case Some(Entry) => 0
    case Some(Overflow) => 1
  }

  /** `pageTypes[i]`: `undefined` for an index outside the table. */
  function TypeAt(i: int): (r: Option<PageType>)
    ensures r.Some? <==> 0 <= i < |PAGE_TYPES|
    ensures r.Some? ==> r.value == PAGE_TYPES[i]
  {
    if 0 <= i < |PAGE_TYPES| then Some(PAGE_TYPES[i]) else None
  }

  /** The number toBytes sees for an id: `undefined` behaves as 0 under the bitwise operators. */
  function IdValue(id: Option<int>): int {
    id.GetOr(0)
  }

  /** The header is 8 + 1 + 2 + 2 bytes long. */
  const PAGE_META_BYTES: nat := 13

  /** What writePageMeta emits: id (64 bits), type index (8), freeOffset (16), freeLength (16), each through toBytes' default "little". */
  function PageMetaBytes(m: PageMeta): (r: seq<byte>)
    ensures |r| == PAGE_META_BYTES
  {
    Encoded(IdValue(m.id), 64, Little) + Encoded(TypeIndex(m.pageType), 8, Little)
      + Encoded(m.freeOffset, 16, Little) + Encoded(m.freeLength, 16, Little)
  }

  /** What readPageMeta builds from the 13 bytes it consumes, in the same widths and order. */
  function DecodePageMeta(w: seq<byte>): PageMeta
    requires |w| == PAGE_META_BYTES
  {
    PageMeta(Some(Decoded(w[..8], 64, Little)), TypeAt(Decoded(w[8..9], 8, Little)),
             Decoded(w[9..11], 16, Little), Decoded(w[11..13], 16, Little))
  }

  /** The sum of the four write counts; on a lost cursor every count, and so the sum, is NaN. */
  method WritePageMeta(stream: ByteBuffer, meta: PageMeta) returns (n: Num)
    modifies stream, stream.buffer
    ensures stream.lost == old(stream.lost)
    ensures old(stream.lost) ==> n == NaN && stream.cur == old(stream.cur) && stream.buffer[..] == old(stream.buffer[..])
    ensures !old(stream.lost) ==>
      && n.Int?
      && stream.buffer[..] == Overlay(old(stream.buffer[..]), old(stream.cur), PageMetaBytes(meta))
      && (old(stream.cur) <= stream.buffer.Length ==> n.v == Min(stream.buffer.Length - old(stream.cur), PAGE_META_BYTES))
      && (old(stream.cur) > stream.buffer.Length ==> n.v == 4 * (stream.buffer.Length - old(stream.cur)))
      && stream.cur == old(stream.cur) + Max(n.v, 0)
  {
    ghost var b0 := stream.buffer[..];
    ghost var c0 := stream.cur;
    var f1 := ToBytes(IdValue(meta.id), 64, Little);
    var w1 := stream.Write(f1);
    ghost var c1 := stream.cur;
    var f2 := ToBytes(TypeIndex(meta.pageType), 8, Little);
    var w2 := stream.Write(f2);
    if !stream.lost {
      OverlayStep(b0, c0, f1, c1, f2);
    }
    ghost var c2 := stream.cur;
    var f3 := ToBytes(meta.freeOffset, 16, Little);
    var w3 := stream.Write(f3);
    if !stream.lost {
      OverlayStep(b0, c0, f1 + f2, c2, f3);
    }
    ghost var c3 := stream.cur;
    var f4 := ToBytes(meta.freeLength, 16, Little);
    var w4 := stream.Write(f4);
    if !stream.lost {
      OverlayStep(b0, c0, f1 + f2 + f3, c3, f4);
    }
    n := Add(Add(Add(w1, w2), w3), w4);
  }

  method ReadPageMeta(stream: ByteBuffer) returns (r: Result<PageMeta>)
    modifies stream
    ensures stream.lost == old(stream.lost)
    ensures r.Ok? <==> !old(stream.lost) && stream.buffer.Length - old(stream.cur) >= PAGE_META_BYTES
    ensures r.Err? ==> r.error == CannotRead
    ensures r.Err? && old(stream.lost) ==> stream.cur == old(stream.cur)
    ensures r.Err? && !old(stream.lost) ==> stream.cur == old(stream.cur) + Max(stream.buffer.Length - old(stream.cur), 0)
    ensures r.Ok? ==> stream.cur == old(stream.cur) + PAGE_META_BYTES
    ensures r.Ok? ==> r.value == DecodePageMeta(Window(stream.buffer[..], old(stream.cur), PAGE_META_BYTES))
  {
    ghost var c0 := stream.cur;
    ghost var w := Window(stream.buffer[..], c0, PAGE_META_BYTES);
    var id := ReadBytes(stream, 64, Little);
    if id.Err? {
      return Err(id.error);
    }
    var t := ReadBytes(stream, 8, Little);
    if t.Err? {
      return Err(t.error);
    }
    var freeOffset := ReadBytes(stream, 16, Little);
    if freeOffset.Err? {
      return Err(freeOffset.error);
    }
    var freeLength := ReadBytes(stream, 16, Little);
    if freeLength.Err? {
      return Err(freeLength.error);
    }
    WindowSlice(stream.buffer[..], c0, PAGE_META_BYTES, 0, 8);
    WindowSlice(stream.buffer[..], c0, PAGE_META_BYTES, 8, 1);
    WindowSlice(stream.buffer[..], c0, PAGE_META_BYTES, 9, 2);
    WindowSlice(stream.buffer[..], c0, PAGE_META_BYTES, 11, 2);
    r := Ok(PageMeta(Some(id.value), TypeAt(t.value), freeOffset.value, freeLength.value));
  }

  /** readPageMeta reads each field back through fromBytes in the width and at the place writePageMeta wrote it. */
  lemma PageMetaFieldsAlign(m: PageMeta)
    ensures DecodePageMeta(PageMetaBytes(m)) ==
      PageMeta(Some(Decoded(Encoded(IdValue(m.id), 64, Little), 64, Little)),
               TypeAt(Decoded(Encoded(TypeIndex(m.pageType), 8, Little), 8, Little)),
               Decoded(Encoded(m.freeOffset, 16, Little), 16, Little),
               Decoded(Encoded(m.freeLength, 16, Little), 16, Little))
  {
    var w := PageMetaBytes(m);
    assert w[..8] == Encoded(IdValue(m.id), 64, Little);
    assert w[8..9] == Encoded(TypeIndex(m.pageType), 8, Little);
    assert w[9..11] == Encoded(m.freeOffset, 16, Little);
    assert w[11..13] == Encoded(m.freeLength, 16, Little);
  }

  /** The type byte comes back as a multiple of 256, so a header never reads back as an overflow page. */
  lemma DecodedTypeNeverOverflow(w: seq<byte>)
    requires |w| == PAGE_META_BYTES
    ensures DecodePageMeta(w).pageType != Some(Overflow)
  {
  }

  /** Any header whose freeOffset has a non-zero low byte fails to round-trip. */
  lemma PageMetaDoesNotRoundTrip(m: PageMeta)
    requires m.freeOffset % 256 != 0
    ensures DecodePageMeta(PageMetaBytes(m)) != m
  {
    PageMetaFieldsAlign(m);
    FromBytesDoesNotInvertToBytes(m.freeOffset, 16, Little);
  }

  /** The header of a fresh entry page reads back with freeOffset 4718592 and freeLength 3685888, not 72 and 15928. */
  lemma FreshHeaderReadBack(id: Option<int>)
    ensures var d := DecodePageMeta(PageMetaBytes(PageMeta(id, Some(Entry), PAGE_META_SIZE, PAGE_SIZE - PAGE_META_SIZE)));
      d.freeOffset == 4718592 && d.freeLength == 3685888
  {
    PageMetaFieldsAlign(PageMeta(id, Some(Entry), PAGE_META_SIZE, PAGE_SIZE - PAGE_META_SIZE));
    RoundTrip16(72);
    RoundTrip16(15928);
  }

  // ---------------------------------------------------------------------------
  // Allocation

  datatype Direction = Head | Tail

  /** The outcome of `alloc`: the address (`undefined` on failure) and the header afterwards. */
  datatype Allocation = Allocation(addr: Option<int>, meta: PageMeta)

  /** The free-region bookkeeping a page keeps: it starts after the header and ends within the page. */
  predicate ValidMeta(m: PageMeta) {
    PAGE_META_SIZE <= m.freeOffset && 0 <= m.freeLength && m.freeOffset + m.freeLength <= PAGE_SIZE
  }

  /** [a, a + s) lies within [lo, lo + len). */
  predicate InRegion(a: int, s: int, lo: int, len: int) {
    lo <= a && a + s <= lo + len
  }

  /** [a, a + s) and [b, b + t) share no index. */
  predicate Disjoint(a: int, s: int, b: int, t: int) {
    s <= 0 || t <= 0 || a + s <= b || b + t <= a
  }

  /** `alloc(size, direction)` on a header value. */
  function AllocSpec(m: PageMeta, size: int, dir: Direction): (r: Allocation)
    ensures r.addr.None? <==> m.freeLength < size
    ensures r.addr.None? ==> r.meta == m
    ensures r.addr.Some? ==> r.meta.freeLength == m.freeLength - size && r.meta.id == m.id && r.meta.pageType == m.pageType
    ensures r.addr.Some? && dir == Head ==>
      r.addr.value == m.freeOffset && r.meta.freeOffset + r.meta.freeLength == m.freeOffset + m.freeLength
    ensures r.addr.Some? && dir == Tail ==> r.addr.value + size == m.freeOffset + m.freeLength && r.meta.freeOffset == m.freeOffset
  {
    if m.freeLength < size then Allocation(None, m)
    else if dir == Head then Allocation(Some(m.freeOffset), m.(freeOffset := m.freeOffset + size, freeLength := m.freeLength - size))
    else Allocation(Some(m.freeOffset + m.freeLength - size), m.(freeLength := m.freeLength - size))
  }

  /** A successful allocation of a non-negative size hands out a block of the old free region that the new one excludes, and keeps the header valid. */
  lemma AllocInside(m: PageMeta, size: int, dir: Direction)
    requires 0 <= size
    ensures var r := AllocSpec(m, size, dir);
      r.addr.Some? ==>
        && InRegion(r.addr.value, size, m.freeOffset, m.freeLength)
        && InRegion(r.meta.freeOffset, r.meta.freeLength, m.freeOffset, m.freeLength)
        && Disjoint(r.addr.value, size, r.meta.freeOffset, r.meta.freeLength)
        && (ValidMeta(m) ==> ValidMeta(r.meta))
  {
  }

  /** A request to `alloc`. */
  datatype Request = Request(size: nat, dir: Direction)

  /** The addresses a run of allocations returns, and the header after them. */
  function AllocateAll(m: PageMeta, reqs: seq<Request>): (r: (seq<Option<int>>, PageMeta))
    ensures |r.0| == |reqs|
    decreases |reqs|
  {
    if reqs == [] then ([], m)
    else
      var a := AllocSpec(m, reqs[0].size, reqs[0].dir);
      var rest := AllocateAll(a.meta, reqs[1..]);
      ([a.addr] + rest.0, rest.1)
  }

  /**
   * Successive allocations never overlap: every block handed out lies in the initial free region,
   * outside the final one, and apart from every other block.
   */
  lemma {:induction false} AllocateAllDisjoint(m: PageMeta, reqs: seq<Request>)
    ensures var r := AllocateAll(m, reqs);
      && InRegion(r.1.freeOffset, r.1.freeLength, m.freeOffset, m.freeLength)
      && (forall i :: 0 <= i < |reqs| && r.0[i].Some? ==>
            InRegion(r.0[i].value, reqs[i].size, m.freeOffset, m.freeLength)
            && Disjoint(r.0[i].value, reqs[i].size, r.1.freeOffset, r.1.freeLength))
      && (forall i, j :: 0 <= i < j < |reqs| && r.0[i].Some? && r.0[j].Some? ==>
            Disjoint(r.0[i].value, reqs[i].size, r.0[j].value, reqs[j].size))
    decreases |reqs|
  {
    if reqs != [] {
      var a := AllocSpec(m, reqs[0].size, reqs[0].dir);
      AllocInside(m, reqs[0].size, reqs[0].dir);
      AllocateAllDisjoint(a.meta, reqs[1..]);
      var r := AllocateAll(m, reqs);
      var rest := AllocateAll(a.meta, reqs[1..]);
      assert r.0 == [a.addr] + rest.0;
      forall i | 1 <= i < |reqs| && r.0[i].Some?
        ensures InRegion(r.0[i].value, reqs[i].size, a.meta.freeOffset, a.meta.freeLength)
      {
        assert r.0[i] == rest.0[i - 1] && reqs[i] == reqs[1..][i - 1];
      }
    }
  }

  /** The cursor kinds `seek` accepts: the stream's own two, and three relative to the page. */
  datatype PageSeekType = Common(common: CommonSeekType) | Meta | Data | Free

  /** Where an absolute or page-relative seek puts the cursor; a missing or zero value counts as 0. */
  function SeekTarget(kind: PageSeekType, value: Option<int>, freeOffset: int): int
    requires kind != Common(Relative)
  {
    var v := value.GetOr(0);
    match kind
    case Common(_) => v
    case Meta => v
    case Data => PAGE_META_SIZE + v
    case Free => freeOffset + v
  }

  /** A free seek by 0 lands where the next head allocation begins, and a data seek by v lands v bytes past the header. */
  lemma SeekTargetsMeaning(m: PageMeta, size: int, v: int)
    requires m.freeLength >= size
    ensures AllocSpec(m, size, Head).addr == Some(SeekTarget(Free, None, m.freeOffset))
    ensures SeekTarget(Data, Some(v), m.freeOffset) - SeekTarget(Meta, Some(v), m.freeOffset) == PAGE_META_SIZE
    ensures SeekTarget(Meta, None, m.freeOffset) == SeekTarget(Meta, Some(0), m.freeOffset) == 0
  {
  }

  class Page {
    const buffer: ByteBuffer
    var meta: PageMeta

    ghost predicate Valid()
      reads this
    {
      buffer.buffer.Length == PAGE_SIZE && ValidMeta(meta)
    }

    /**
     * The protected constructor: a zeroed page, taking the id and type only when they are truthy.
     * The source writes into a header it never assigned; here the header exists from the start,
     * with the free region already in the state initialiseNewPage gives it.
     */
    constructor (id: Option<int>, pageType: Option<PageType>)
      ensures fresh(buffer) && fresh(buffer.buffer) && buffer.cur == 0 && !buffer.lost && buffer.buffer.Length == PAGE_SIZE
      ensures forall i :: 0 <= i < PAGE_SIZE ==> buffer.buffer[i] == 0
      ensures meta == PageMeta(if Truthy(id) then id else None, pageType, PAGE_META_SIZE, PAGE_SIZE - PAGE_META_SIZE)
      ensures Valid()
    {
      buffer := new ByteBuffer.Alloc(PAGE_SIZE);
      meta := PageMeta(if Truthy(id) then id else None, pageType, PAGE_META_SIZE, PAGE_SIZE - PAGE_META_SIZE);
    }

    method InitialiseNewPage()
      requires buffer.buffer.Length == PAGE_SIZE
      modifies this
      ensures meta == old(meta).(freeOffset := PAGE_META_SIZE, freeLength := PAGE_SIZE - PAGE_META_SIZE)
      ensures meta.freeOffset + meta.freeLength == PAGE_SIZE && Valid()
    {
      meta := meta.(freeOffset := PAGE_META_SIZE);
      meta := meta.(freeLength := PAGE_SIZE - meta.freeOffset);
    }

    /** Page.new: a blank page with the given id and type. */
    static method New(id: int, pageType: PageType) returns (p: Page)
      ensures fresh(p) && fresh(p.buffer) && fresh(p.buffer.buffer) && p.Valid() && p.buffer.cur == 0 && !p.buffer.lost
      ensures p.meta == PageMeta(if id != 0 then Some(id) else None, Some(pageType), PAGE_META_SIZE, PAGE_SIZE - PAGE_META_SIZE)
    {
      p := new Page(Some(id), Some(pageType));
      p.InitialiseNewPage();
    }

    method Alloc(size: int, dir: Direction) returns (addr: Option<int>)
      modifies this
      ensures addr == AllocSpec(old(meta), size, dir).addr && meta == AllocSpec(old(meta), size, dir).meta
      ensures old(Valid()) && size >= 0 ==> Valid()
    {
      if meta.freeLength < size {
        return None;
      }
      var a := 0;
      if dir == Head {
        a := meta.freeOffset;
        meta := meta.(freeOffset := meta.freeOffset + size);
        meta := meta.(freeLength := meta.freeLength - size);
      } else {
        a := meta.freeOffset + meta.freeLength - size;
        meta := meta.(freeLength := meta.freeLength - size);
      }
      addr := Some(a);
    }

    /** What is left of the free region: on a valid header, between none and all of the page after the header. */
    function RemainingFreeSpace(): (r: int)
      reads this
      ensures r == meta.freeLength
      ensures ValidMeta(meta) ==> 0 <= r <= PAGE_SIZE - PAGE_META_SIZE
    {
      meta.freeLength
    }

    /**
     * The page kinds replace a missing value by 0; the stream's own kinds pass it on as it is, so a
     * missing value makes the cursor NaN.
     */
    method Seek(kind: PageSeekType, value: Option<int>) returns (r: Result<Num>)
      modifies buffer
      ensures kind == Common(Relative) ==>
        && buffer.lost == (old(buffer.lost) || value.None?)
        && (buffer.lost ==> buffer.cur == old(buffer.cur) && r == Ok(NaN))
        && (!buffer.lost ==> buffer.cur == old(buffer.cur) + value.value && r == Ok(Int(buffer.cur)))
      ensures kind == Common(Absolute) && value.None? && !old(buffer.lost) && old(buffer.cur) >= 0 ==>
        buffer.lost && buffer.cur == old(buffer.cur) && r == Ok(NaN)
      ensures kind != Common(Relative) && (kind.Common? ==> value.Some?) && !old(buffer.lost) && old(buffer.cur) >= 0 ==>
        !buffer.lost && buffer.cur == SeekTarget(kind, value, meta.freeOffset) && r == Ok(Int(buffer.cur))
      ensures kind != Common(Relative) && (old(buffer.lost) || old(buffer.cur) < 0) ==>
        buffer.lost == old(buffer.lost) && buffer.cur == old(buffer.cur) && r == Err(StackOverflow)
    {
      match kind
      case Common(c) =>
        r := buffer.Seek(c, if value.Some? then Int(value.value) else NaN);
      case Meta =>
        r := buffer.Seek(Absolute, Int(value.GetOr(0)));
      case Data =>
        r := buffer.Seek(Absolute, Int(PAGE_META_SIZE + value.GetOr(0)));
      case Free =>
        r := buffer.Seek(Absolute, Int(meta.freeOffset + value.GetOr(0)));
    }

    /** flush(): seek to the header and write it there; the header lands at index 0 and the cursor after it. */
    method Flush() returns (r: Result<()>)
      modifies buffer, buffer.buffer
      ensures buffer.lost == old(buffer.lost)
      ensures !old(buffer.lost) && old(buffer.cur) >= 0 ==>
        && r == Ok(())
        && buffer.buffer[..] == Overlay(old(buffer.buffer[..]), 0, PageMetaBytes(meta))
        && buffer.cur == Min(buffer.buffer.Length, PAGE_META_BYTES)
      ensures old(buffer.lost) || old(buffer.cur) < 0 ==>
        r == Err(StackOverflow) && buffer.cur == old(buffer.cur) && buffer.buffer[..] == old(buffer.buffer[..])
    {
      var s := Seek(Meta, None);
      if s.Err? {
        return Err(s.error);
      }
      var _ := WritePageMeta(buffer, meta);
      r := Ok(());
    }
  }
}
