/**
 * src/lib/world/paging/paging.ts: the paging manager. It keeps one open entry page, created on
 * demand, and moves a page that has run out of room to the end of `pendingEntryPages`.
 */
module PageManager {
  import opened JsNumber
  import opened ByteMath
  import opened Outcomes
  import opened Stream
  import opened PageConstants
  import opened PageBase
  import opened PageEntry

  /** The objects an open entry page is made of. */
  function PageObjects(p: EntryPage?): set<object> {
    if p == null then {} else {p, p.page, p.page.buffer, p.page.buffer.buffer}
  }

  class Paging {
    var entryPage: EntryPage?
    var pendingEntryPages: seq<EntryPage>

    /** The open page, when there is one, keeps its header valid. */
    ghost predicate Valid()
      reads this, entryPage, if entryPage == null then {} else {entryPage.page}
    {
      entryPage != null ==> entryPage.Valid()
    }

    /** A manager with no open page and nothing pending (fields the source leaves uninitialised start empty). */
    constructor ()
      ensures Valid() && entryPage == null && pendingEntryPages == []
    {
      entryPage := null;
      pendingEntryPages := [];
    }

    /** The open page, creating a blank one only when none is open. */
    method GetEntryPage() returns (p: EntryPage)
      requires Valid()
      modifies this
      ensures Valid() && entryPage == p && pendingEntryPages == old(pendingEntryPages)
      ensures old(entryPage) != null ==> p == old(entryPage)
      ensures old(entryPage) == null ==>
        && fresh(p) && fresh(p.page) && fresh(p.page.buffer) && fresh(p.page.buffer.buffer)
        && p.page.meta == PageMeta(None, None, PAGE_META_SIZE, PAGE_SIZE - PAGE_META_SIZE)
        && p.entryOffsets == [] && p.page.buffer.cur == 0
    {
      if entryPage == null {
        entryPage := new EntryPage.Blank();
      }
      p := entryPage;
    }

    /**
     * writeEntry(data): rotate a full open page into the pending list, then write the entry on the
     * open page. The page's outcome is returned; the source discards it, and an error propagates as a throw.
     */
    method WriteEntry(data: array<byte>) returns (r: WriteOutcome)
      requires Valid()
      requires entryPage != null ==> data != entryPage.page.buffer.buffer
      modifies this, PageObjects(entryPage)
      ensures Valid() && entryPage != null
      ensures var rotated := old(entryPage) != null && !old(entryPage.HasEnoughSpace());
        && (rotated ==> pendingEntryPages == old(pendingEntryPages) + [old(entryPage)])
        && (rotated ==>
              && unchanged(old(entryPage)) && unchanged(old(entryPage).page)
              && unchanged(old(entryPage).page.buffer) && unchanged(old(entryPage).page.buffer.buffer))
        && (!rotated ==> pendingEntryPages == old(pendingEntryPages))
        && (old(entryPage) == null || rotated ==> fresh(entryPage) && r != NoSpace && |entryPage.entryOffsets| == 1)
        && (!rotated && old(entryPage) != null ==>
              entryPage == old(entryPage) && r != NoSpace && |entryPage.entryOffsets| == |old(entryPage.entryOffsets)| + 1)
    {
      var stream := new ByteBuffer(data);
      var page := GetEntryPage();
      if !page.HasEnoughSpace() {
        pendingEntryPages := pendingEntryPages + [page];
        entryPage := null;
        page := GetEntryPage();
      }
      r := entryPage.WriteEntry(stream);
    }
  }
}
