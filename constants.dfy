/** src/lib/world/paging/page/constants.ts: the page geometry shared by the page modules. */
module PageConstants {
  /** Size of a page, in bytes. */
  const PAGE_SIZE: nat := 16000

  /** Size reserved for the page header at the start of the page. */
  const PAGE_META_SIZE: nat := 72

  /**
   * Space reserved per entry for its metadata. The fields actually written take 14 bytes
   * (32 + 16 + 64 bits); 112 is their width in bits.
   */
  const ENTRY_META_SIZE: nat := 112

  /** Width of an entry's slot in the offset table at the tail of the page. */
  const ENTRY_OFFSET_SIZE: nat := 2

  /** An entry needs room for its metadata and its slot. */
  const MIN_REQUIRED_ENTRY_SIZE: nat := ENTRY_META_SIZE + ENTRY_OFFSET_SIZE

  /** Bytes the entry metadata fields occupy: 4 (total size) + 2 (in-page size) + 8 (overflow). */
  const ENTRY_META_FIELD_BYTES: nat := 14

  lemma Geometry()
    ensures PAGE_META_SIZE < PAGE_SIZE
    ensures MIN_REQUIRED_ENTRY_SIZE == 114
    ensures ENTRY_META_FIELD_BYTES * 8 == ENTRY_META_SIZE
    ensures PAGE_SIZE - PAGE_META_SIZE == 15928
  {
  }
}
