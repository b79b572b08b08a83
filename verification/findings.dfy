/** The source's trailer under-reservation, shown on a concrete page. */
module SourceFindings {
  import opened Codec
  import opened SlottedPage

  /** With the source's 4-byte reserve, an empty page accepts any record of
      4081 to 4084 bytes (4 + size + 8 <= 4096), yet the first slot entry is
      written over the record's byte 4080: when that byte is not zero (for
      instance an empty name and a 4068-byte bio of ones), the block reads
      back as a different page. */
  lemma {:induction false} SourceReserveBreaksRoundTrip(r: Record)
    requires 4080 < Size(r) <= 4084 && Serialize(r)[4080] != 0
    ensures var res := Insert(EmptyPageWith(SourceReserve), r);
            res.ok && LostInBlock(SourceReserve, res.page)
  {
    SourceInsertOne(r);
    OnePageOverlap(r);
  }

  /** `p` keeps the accounting of `reserve`, can be written, and its block
      does not read back as `p`. */
  ghost predicate LostInBlock(reserve: int, p: Page)
  {
    && Accounted(p, reserve)
    && Writable(p)
    && DecodeBlockWith(reserve, WriteBlock(p)) != Some(p)
  }

  /** Inserting one record into an empty page with the source's reserve. */
  lemma {:induction false} SourceInsertOne(r: Record)
    requires Size(r) <= PageSize - SourceReserve - SlotSize
    ensures Insert(EmptyPageWith(SourceReserve), r)
            == Inserted(true, SinglePage(SourceReserve, r))
  {
  }

  /** The one-record page of `SourceReserveBreaksRoundTrip` does not survive
      its block. */
  lemma {:induction false} OnePageOverlap(r: Record)
    requires 4080 < Size(r) <= 4084 && Serialize(r)[4080] != 0
    ensures LostInBlock(SourceReserve, SinglePage(SourceReserve, r))
  {
    var p := SinglePage(SourceReserve, r);
    assert [r][..0] == [];
    assert [r][..1 - 1] == [];
    assert Data([r]) == Serialize(r);
    TrailerOverlapBreaksRoundTrip(SourceReserve, p);
  }
}
