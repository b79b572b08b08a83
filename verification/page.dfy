/** One 4096-byte slotted page (classes.h:56-197).

    Records are packed from offset 0. The trailer grows backward from the
    end of the block: the overflow pointer in the last four bytes, the slot
    count in the four before it, then the 8-byte slot entries, slot `i` of
    `n` at `4088 - 8 * (n - i)`.
 */
module SlottedPage {
  import opened Codec

  const PageSize: int := 4096
  /** `sizeof(pair<int, int>)`: one slot entry, offset then length. */
  const SlotSize: int := 8
  /** Overflow pointer plus slot count. */
  const TrailerSize: int := 8
  const OverflowPos: int := 4092
  const CountPos: int := 4088
  /** The most slot entries the trailer can hold before running off the
      front of the block. */
  const MaxSlots: int := 511
  /** The overflow pointer of the last page of a chain. */
  const NoPage: int := -1
  /** The initial `cur_size` of the source (classes.h:63, 68, 190): room for
      the overflow pointer only. */
  const SourceReserve: int := 4
  /** The initial `cur_size` that covers the whole 8-byte trailer. */
  const Reserve: int := 8

  /** The largest record an empty page accepts when `cur_size` starts at
      `reserve`: 4084 in the source, 4080 with the full reserve. */
  function Capacity(reserve: int): int
  {
    PageSize - reserve - SlotSize
  }

  /** The trailer bytes a reserve leaves out of the count: 4 in the source,
      none with the full reserve. */
  function Slack(reserve: int): nat
  {
    if reserve < TrailerSize then TrailerSize - reserve else 0
  }

  datatype Slot = Slot(offset: int, length: int)

  /** `Page`: decoded records, their slot directory, the running size
      estimate `cur_size` and the overflow pointer. */
  datatype Page = Page(records: seq<Record>, slots: seq<Slot>, curSize: int, overflow: int)

  predicate IsInt32(x: int)
  {
    -TwoTo31 <= x < TwoTo31
  }

  /** Bytes a set of records claims in a page: data plus one slot each. */
  function Footprint(rs: seq<Record>): nat
  {
    SumSizes(rs) + SlotSize * |rs|
  }

  /** `cur_size` is the reserve plus the footprint of the records, and
      there is one slot per record. */
  ghost predicate Accounted(p: Page, reserve: int)
  {
    |p.records| == |p.slots| && p.curSize == reserve + Footprint(p.records)
  }

  /** Slot `i` locates record `i` in the records packed from offset 0. */
  ghost predicate Packed(p: Page)
  {
    && |p.records| == |p.slots|
    && forall i :: 0 <= i < |p.slots| ==>
         p.slots[i] == Slot(SumSizes(p.records[..i]), Size(p.records[i]))
  }

  /** The records and the whole trailer fit in the block without overlap. */
  predicate Fits(p: Page)
  {
    SumSizes(p.records) + SlotSize * |p.slots| + TrailerSize <= PageSize
  }

  /** How far the records and the whole trailer run over the block. When
      it is positive, the first slot entry is written over the last
      `Spill(p)` bytes of the packed data. */
  function Spill(p: Page): int
  {
    SumSizes(p.records) + SlotSize * |p.slots| + TrailerSize - PageSize
  }

  /** The page as its block reads back. The first four bytes of the slot
      directory hold slot 0's offset, which is 0; when they lie over the end
      of the packed data (classes.h:99-120), the last record comes back
      with its last `Spill(p)` bytes zeroed. */
  function Settle(p: Page): (q: Page)
    ensures q.slots == p.slots && q.curSize == p.curSize && q.overflow == p.overflow
    ensures |q.records| == |p.records|
  {
    if Spill(p) <= 0 || |p.records| == 0 then p
    else
      var n := |p.records| - 1;
      p.(records := p.records[..n] + [ZeroTail(p.records[n], Spill(p))])
  }

  /** The invariant of every page the index keeps: `cur_size` counted from
      `reserve`, packed, admitted by the capacity test, and equal to what
      its block reads back as. */
  ghost predicate Settled(reserve: int, p: Page)
  {
    && p.curSize == reserve + Footprint(p.records)
    && Packed(p)
    && p.curSize <= PageSize
    && Settle(p) == p
  }

  /** The constructor and `clear` (classes.h:63-70), for a given reserve. */
  function EmptyPageWith(reserve: int): Page
  {
    Page([], [], reserve, NoPage)
  }

  /** A cleared page holds nothing, ends its chain, and keeps the accounting
      of its reserve; for a reserve within the block it is settled. */
  lemma {:induction false} EmptyPageAccounted(reserve: int)
    ensures var p := EmptyPageWith(reserve);
            && Accounted(p, reserve) && Packed(p) && Fits(p)
            && p.records == [] && p.overflow == NoPage
    ensures reserve <= PageSize ==> Settled(reserve, EmptyPageWith(reserve))
  {
  }

  /** A settled page keeps being settled when only its overflow pointer
      changes. */
  lemma {:induction false} SettledRelinked(reserve: int, p: Page, overflow: int)
    requires Settled(reserve, p)
    ensures Settled(reserve, p.(overflow := overflow))
  {
    var q := p.(overflow := overflow);
    assert Spill(q) == Spill(p);
    if Spill(p) > 0 && |p.records| > 0 {
      var n := |p.records| - 1;
      assert p.records[..n] + [ZeroTail(p.records[n], Spill(p))] == Settle(p).records == p.records;
    }
  }

  // ---------------------------------------------------------------------
  // Insertion
  // ---------------------------------------------------------------------

  /** The capacity test of `insert_record_into_page` (classes.h:76) passes. */
  predicate HasRoom(p: Page, r: Record)
  {
    p.curSize + Size(r) + SlotSize <= PageSize
  }

  /** The boolean `insert_record_into_page` returns, and the page after it. */
  datatype Inserted = Inserted(ok: bool, page: Page)

  /** `insert_record_into_page` (classes.h:72-91). Rejects, changing
      nothing, exactly when `cur_size + size + 8` exceeds the page; otherwise
      appends the record and a slot at the end of the packed data. */
  function Insert(p: Page, r: Record): (res: Inserted)
    ensures res.ok <==> HasRoom(p, r)
    ensures !res.ok ==> res.page == p
    ensures res.ok ==>
              && res.page.records == p.records + [r]
              && res.page.overflow == p.overflow
              && res.page.curSize <= PageSize
  {
    if !HasRoom(p, r) then Inserted(false, p)
    else
      Inserted(true, Page(p.records + [r], p.slots + [Slot(SumSizes(p.records), Size(r))],
                          p.curSize + Size(r) + SlotSize, p.overflow))
  }

  /** A successful insert appends the slot `(sum of the earlier sizes,
      size)` and raises `cur_size` by the record's footprint, so the page
      stays accounted with whatever reserve it started with. */
  lemma {:induction false} InsertAccounting(p: Page, r: Record, reserve: int)
    requires HasRoom(p, r)
    ensures var q := Insert(p, r).page;
            && q.slots == p.slots + [Slot(SumSizes(p.records), Size(r))]
            && q.curSize == p.curSize + Size(r) + SlotSize
            && Footprint(q.records) == Footprint(p.records) + Size(r) + SlotSize
            && (Accounted(p, reserve) ==> Accounted(q, reserve))
  {
    var rs := p.records + [r];
    assert rs[..|p.records|] == p.records;
  }

  /** Insertion keeps the slot directory locating the packed records. */
  lemma {:induction false} InsertKeepsPacked(p: Page, r: Record)
    requires Packed(p)
    ensures Packed(Insert(p, r).page)
  {
    if HasRoom(p, r) {
      InsertAccounting(p, r, 0);
      var rs := p.records + [r];
      assert rs[..|p.records|] == p.records;
      assert forall i :: 0 <= i < |p.records| ==> rs[..i] == p.records[..i];
    }
  }

  /** What a settled page reads back as after a successful insert: its own
      records followed by `r`, of which at most `Slack(reserve)` trailing
      bytes are lost under the first slot entry. That page is settled
      again. */
  lemma {:induction false} InsertSettles(reserve: int, p: Page, r: Record)
    requires Settled(reserve, p) && HasRoom(p, r)
    ensures var s := Settle(Insert(p, r).page);
            && Settled(reserve, s)
            && s.overflow == p.overflow
            && |s.records| == |p.records| + 1
            && s.records[..|p.records|] == p.records
            && KeptUpTo(s.records[|p.records|], r, Slack(reserve))
  {
    var q := Insert(p, r).page;
    var n := |p.records|;
    InsertAccounting(p, r, reserve);
    InsertKeepsPacked(p, r);
    SettleShape(q);
    var s := Settle(q);
    assert q.records[..n] == p.records;
    assert Spill(q) <= Slack(reserve);
    if Spill(q) > 0 {
      assert s.records == p.records + [ZeroTail(r, Spill(q))];
    } else {
      ZeroTailZero(r);
    }
  }

  /** Whether or not the capacity test admits `r`, a settled page stays
      settled, and keeps its overflow pointer, once `r` is offered to it
      and the result written back. */
  lemma {:induction false} SettledAfterInsert(reserve: int, p: Page, r: Record)
    requires Settled(reserve, p)
    ensures Settled(reserve, Settle(Insert(p, r).page))
    ensures Settle(Insert(p, r).page).overflow == p.overflow
  {
    if HasRoom(p, r) {
      InsertSettles(reserve, p, r);
    }
  }

  /** The page holding `r` alone at offset 0, accounted with `reserve`. */
  function SinglePage(reserve: int, r: Record): Page
  {
    Page([r], [Slot(0, Size(r))], reserve + Size(r) + SlotSize, NoPage)
  }

  /** An empty page takes a record of at most `Capacity(reserve)` bytes as
      slot 0 at offset 0 and refuses, unchanged, anything larger. */
  lemma {:induction false} InsertIntoEmpty(reserve: int, r: Record)
    ensures Insert(EmptyPageWith(reserve), r)
            == if Size(r) <= Capacity(reserve) then Inserted(true, SinglePage(reserve, r))
               else Inserted(false, EmptyPageWith(reserve))
  {
  }

  /** The loop of `insert_record_into_page` that sums the sizes of the
      records already on the page to find the new record's offset. */
  method InsertRecordIntoPage(p: Page, r: Record) returns (inserted: bool, q: Page)
    ensures Inserted(inserted, q) == Insert(p, r)
  {
    var recordSize := Size(r);
    if p.curSize + recordSize + SlotSize > PageSize {
      return false, p;
    }
    var offset := 0;
    var i := 0;
    while i < |p.records|
      invariant 0 <= i <= |p.records|
      invariant offset == SumSizes(p.records[..i])
    {
      assert p.records[..i + 1][..i] == p.records[..i];
      offset := offset + Size(p.records[i]);
      i := i + 1;
    }
    assert p.records[..i] == p.records;
    inserted := true;
    q := Page(p.records + [r], p.slots + [Slot(offset, recordSize)],
              p.curSize + recordSize + SlotSize, p.overflow);
  }

  /** How far a page the capacity test admits can run over the block: by
      the trailer bytes its reserve leaves out. With the full reserve it
      never does; with the source's it can by four bytes. */
  lemma {:induction false} SpillBound(reserve: int, p: Page)
    requires Accounted(p, reserve) && p.curSize <= PageSize
    ensures Spill(p) <= TrailerSize - reserve
    ensures reserve >= TrailerSize ==> Fits(p)
  {
  }

  // ---------------------------------------------------------------------
  // Settling
  // ---------------------------------------------------------------------

  /** Settling keeps the page packed and the sizes of its records, and
      settling twice is settling once. */
  lemma {:induction false} SettleShape(p: Page)
    requires Packed(p)
    ensures Packed(Settle(p))
    ensures SumSizes(Settle(p).records) == SumSizes(p.records)
    ensures Footprint(Settle(p).records) == Footprint(p.records)
    ensures Settle(Settle(p)) == Settle(p)
  {
    SettleSizes(p);
    if Spill(p) > 0 && |p.records| > 0 {
      var n := |p.records| - 1;
      SettleLast(p);
      SnocData(p.records[..n], ZeroTail(p.records[n], Spill(p)));
      PackedLastResized(p, Settle(p), n);
    }
  }

  /** Replacing the last record of a packed page by one of the same size
      keeps it packed. */
  lemma {:induction false} PackedLastResized(p: Page, q: Page, n: int)
    requires Packed(p) && n == |p.records| - 1 >= 0
    requires q.slots == p.slots && |q.records| == |p.records|
    requires q.records[..n] == p.records[..n] && Size(q.records[n]) == Size(p.records[n])
    ensures Packed(q)
  {
    forall i | 0 <= i < |q.slots|
      ensures q.slots[i] == Slot(SumSizes(q.records[..i]), Size(q.records[i]))
    {
      if i < n {
        assert q.records[..i] == q.records[..n][..i];
        assert p.records[..i] == p.records[..n][..i];
      }
    }
  }

  /** Settling keeps the size of every record, and is idempotent. */
  lemma {:induction false} SettleSizes(p: Page)
    ensures SumSizes(Settle(p).records) == SumSizes(p.records)
    ensures Footprint(Settle(p).records) == Footprint(p.records)
    ensures Settle(Settle(p)) == Settle(p)
  {
    if Spill(p) > 0 && |p.records| > 0 {
      var n := |p.records| - 1;
      var init, last := p.records[..n], p.records[n];
      var z := ZeroTail(last, Spill(p));
      SettleLast(p);
      SnocData(init, last);
      SnocData(init, z);
      ZeroTailTwice(last, Spill(p));
    }
  }

  /** A spilling page settles to its records with the last one's tail
      zeroed. */
  lemma {:induction false} SettleLast(p: Page)
    requires Spill(p) > 0 && |p.records| > 0
    ensures p.records == p.records[..|p.records| - 1] + [p.records[|p.records| - 1]]
    ensures Settle(p).records
            == p.records[..|p.records| - 1] + [ZeroTail(p.records[|p.records| - 1], Spill(p))]
  {
    assert p.records[..|p.records|] == p.records;
  }

  /** The packed data of a spilling page, settled: the page's own data with
      its last `Spill(p)` bytes zeroed. */
  lemma {:induction false} SettleData(p: Page)
    requires |p.records| == |p.slots| && 0 < Spill(p) <= 4 && SumSizes(p.records) <= PageSize
    ensures 0 <= SumSizes(p.records) - Spill(p)
    ensures Data(Settle(p).records) == Data(p.records)[..SumSizes(p.records) - Spill(p)] + Zeros(Spill(p))
  {
    var n := |p.records| - 1;
    SettleLast(p);
    ZeroLastData(p.records[..n], p.records[n], Spill(p));
  }

  /** Zeroing the last `k` bytes of the last record zeroes the last `k`
      bytes of the packed data. */
  lemma {:induction false} ZeroLastData(init: seq<Record>, last: Record, k: nat)
    requires LengthsFit(last) && k <= 4
    ensures 0 <= SumSizes(init + [last]) - k
    ensures Data(init + [ZeroTail(last, k)])
            == Data(init + [last])[..SumSizes(init + [last]) - k] + Zeros(k)
  {
    var d, s := Data(init), Serialize(last);
    SnocData(init, last);
    SnocData(init, ZeroTail(last, k));
    ZeroTailSerialize(last, k);
    PrefixIntoSecond(d, s, Size(last) - k);
  }

  /** Settling leaves the packed data below the spilled bytes alone. */
  lemma {:induction false} SettleKeepsPrefix(p: Page)
    requires |p.records| == |p.slots| && 0 < Spill(p) <= 4 && SumSizes(p.records) <= PageSize
    ensures 0 <= SlotPos(|p.slots|, 0) == SumSizes(p.records) - Spill(p)
    ensures Data(Settle(p).records)[..SlotPos(|p.slots|, 0)] == Data(p.records)[..SlotPos(|p.slots|, 0)]
  {
    SettleSizes(p);
    SettleData(p);
    var x := Data(p.records)[..SumSizes(p.records) - Spill(p)];
    assert (x + Zeros(Spill(p)))[..|x|] == x;
  }

  // ---------------------------------------------------------------------
  // Writing a block
  // ---------------------------------------------------------------------

  /** `memcpy(buf + pos, bytes, |bytes|)`. */
  function Overwrite(buf: seq<Byte>, pos: int, bytes: seq<Byte>): (r: seq<Byte>)
    requires 0 <= pos && pos + |bytes| <= |buf|
    ensures |r| == |buf|
    ensures r[pos..pos + |bytes|] == bytes
    ensures forall k :: 0 <= k < |buf| && !(pos <= k < pos + |bytes|) ==> r[k] == buf[k]
  {
    buf[..pos] + bytes + buf[pos + |bytes|..]
  }

  /** Position of slot `i` of `n` in the block. */
  function SlotPos(n: int, i: int): int
  {
    CountPos - SlotSize * (n - i)
  }

  predicate SlotsInt32(slots: seq<Slot>)
  {
    forall i :: 0 <= i < |slots| ==> IsInt32(slots[i].offset) && IsInt32(slots[i].length)
  }

  /** The bytes of one slot entry. */
  function EncodeSlot(s: Slot): (bs: seq<Byte>)
    requires IsInt32(s.offset) && IsInt32(s.length)
    ensures |bs| == SlotSize
  {
    EncodeInt32(s.offset) + EncodeInt32(s.length)
  }

  /** What `write_into_data_file` can write without running off the buffer:
      the data fits in the block, the slot entries stay inside it, and every
      value written is an `int`. */
  predicate Writable(p: Page)
  {
    && SumSizes(p.records) <= PageSize
    && |p.slots| <= MaxSlots
    && SlotsInt32(p.slots)
    && IsInt32(p.overflow)
  }

  /** The loop writing slots `k-1` down to `0` (classes.h:117-120). */
  function WriteSlots(buf: seq<Byte>, slots: seq<Slot>, k: nat): (b: seq<Byte>)
    requires |buf| == PageSize && k <= |slots| <= MaxSlots && SlotsInt32(slots)
    ensures |b| == PageSize
    ensures forall i :: 0 <= i < k ==>
              b[SlotPos(|slots|, i)..SlotPos(|slots|, i) + SlotSize] == EncodeSlot(slots[i])
    ensures forall j :: 0 <= j < PageSize && !(SlotPos(|slots|, 0) <= j < SlotPos(|slots|, k)) ==>
              b[j] == buf[j]
    decreases k
  {
    if k == 0 then buf
    else
      var n := |slots|;
      var b1 := Overwrite(buf, SlotPos(n, k - 1), EncodeSlot(slots[k - 1]));
      var b := WriteSlots(b1, slots, k - 1);
      assert b[SlotPos(n, k - 1)..SlotPos(n, k - 1) + SlotSize]
          == b1[SlotPos(n, k - 1)..SlotPos(n, k - 1) + SlotSize];
      b
  }

  /** `write_into_data_file` (classes.h:93-123): a zeroed block, the records
      copied from offset 0, then the overflow pointer, the slot count and the
      slot entries written over its tail. */
  function WriteBlock(p: Page): (b: seq<Byte>)
    requires Writable(p)
    ensures |b| == PageSize
    ensures b[OverflowPos..PageSize] == EncodeInt32(p.overflow)
    ensures b[CountPos..OverflowPos] == EncodeInt32(|p.slots|)
    ensures forall i :: 0 <= i < |p.slots| ==>
              b[SlotPos(|p.slots|, i)..SlotPos(|p.slots|, i) + SlotSize] == EncodeSlot(p.slots[i])
    ensures forall k :: 0 <= k < SlotPos(|p.slots|, 0) ==>
              b[k] == if k < SumSizes(p.records) then Data(p.records)[k] else 0
  {
    var n := |p.slots|;
    var data := Data(p.records);
    var b0 := Overwrite(Zeros(PageSize), 0, data);
    var b1 := Overwrite(b0, OverflowPos, EncodeInt32(p.overflow));
    var b2 := Overwrite(b1, CountPos, EncodeInt32(n));
    var b := WriteSlots(b2, p.slots, n);
    assert b[OverflowPos..PageSize] == b1[OverflowPos..PageSize];
    assert b[CountPos..OverflowPos] == b2[CountPos..OverflowPos];
    b
  }

  // ---------------------------------------------------------------------
  // Reading a block
  // ---------------------------------------------------------------------

  /** The slot entries of a block with `n` slots, in directory order. */
  function DecodeSlots(block: seq<Byte>, n: int): (slots: seq<Slot>)
    requires |block| == PageSize && 0 <= n <= MaxSlots
    ensures |slots| == n
  {
    seq(n, i requires 0 <= i < n =>
      Slot(DecodeInt32(block, SlotPos(n, i)), DecodeInt32(block, SlotPos(n, i) + 4)))
  }

  /** Decodes the record at each slot's offset; `None` if any is malformed. */
  function DecodeRecords(block: seq<Byte>, slots: seq<Slot>): (res: Option<seq<Record>>)
    ensures res.Some? ==> |res.value| == |slots|
    ensures res.Some? ==> forall i :: 0 <= i < |slots| ==>
              DecodeAt(block, slots[i].offset) == Some(res.value[i])
    ensures res.None? ==> exists i :: 0 <= i < |slots| && DecodeAt(block, slots[i].offset).None?
    decreases |slots|
  {
    if |slots| == 0 then Some([])
    else
      var last := |slots| - 1;
      match DecodeRecords(block, slots[..last])
      case None => None
      case Some(rs) =>
        match DecodeAt(block, slots[last].offset)
        case None => None
        case Some(r) => Some(rs + [r])
  }

  /** The decoding part of `read_from_data_file` (classes.h:133-193) with a
      given initial `cur_size`. A slot count outside [0, 511] or a record
      reaching past the block, undefined behaviour in the source, gives
      `None`. */
  function DecodeBlockWith(reserve: int, block: seq<Byte>): (res: Option<Page>)
    requires |block| == PageSize
    ensures res.Some? ==> Accounted(res.value, reserve)
    ensures res.Some? ==> res.value.overflow == DecodeInt32(block, OverflowPos)
                          && |res.value.slots| == DecodeInt32(block, CountPos)
  {
    var overflow := DecodeInt32(block, OverflowPos);
    var count := DecodeInt32(block, CountPos);
    if count < 0 || count > MaxSlots then None
    else
      var slots := DecodeSlots(block, count);
      match DecodeRecords(block, slots)
      case None => None
      case Some(records) => Some(Page(records, slots, reserve + Footprint(records), overflow))
  }

  datatype ReadOutcome = ReadOutcome(ok: bool, page: Page) | Corrupt

  /** `read_from_data_file` (classes.h:125-196) on the bytes `stream` left
      in the file from the read position, recounting `cur_size` from
      `reserve` (4 in the source, classes.h:190): fewer than 4096 bytes
      returns false and leaves `p` as it was; otherwise the block's decoded
      page replaces it. */
  function ReadFromDataFile(reserve: int, p: Page, stream: seq<Byte>): (res: ReadOutcome)
    ensures |stream| < PageSize <==> res == ReadOutcome(false, p)
    ensures res.ReadOutcome? && res.ok ==> Accounted(res.page, reserve)
  {
    if |stream| < PageSize then ReadOutcome(false, p)
    else
      match DecodeBlockWith(reserve, stream[..PageSize])
      case None => Corrupt
      case Some(q) => ReadOutcome(true, q)
  }

  // ---------------------------------------------------------------------
  // Round trip
  // ---------------------------------------------------------------------

  /** The layout `WriteBlock` promises, as a property of any block `b`. */
  ghost predicate Layout(p: Page, b: seq<Byte>)
    requires Writable(p)
  {
    && |b| == PageSize
    && b[OverflowPos..PageSize] == EncodeInt32(p.overflow)
    && b[CountPos..OverflowPos] == EncodeInt32(|p.slots|)
    && (forall i :: 0 <= i < |p.slots| ==>
          b[SlotPos(|p.slots|, i)..SlotPos(|p.slots|, i) + SlotSize] == EncodeSlot(p.slots[i]))
    && (forall k :: 0 <= k < SlotPos(|p.slots|, 0) ==>
          b[k] == if k < SumSizes(p.records) then Data(p.records)[k] else 0)
  }

  lemma {:induction false} WriteBlockLayout(p: Page)
    requires Writable(p)
    ensures Layout(p, WriteBlock(p))
  {
  }

  /** Packed slots are non-negative and bounded by the data size. */
  lemma {:induction false} PackedSlotBounds(p: Page, i: int)
    requires Packed(p) && 0 <= i < |p.slots|
    ensures 0 <= p.slots[i].offset
    ensures p.slots[i].offset + p.slots[i].length <= SumSizes(p.records)
  {
    RecordInData(p.records, i);
  }

  /** A packed page whose data fits in a block and whose slot count the
      trailer can hold can be written. */
  lemma {:induction false} PackedWritable(p: Page)
    requires Packed(p) && SumSizes(p.records) <= PageSize && |p.slots| <= MaxSlots
    requires IsInt32(p.overflow)
    ensures Writable(p)
  {
    forall i | 0 <= i < |p.slots|
      ensures IsInt32(p.slots[i].offset) && IsInt32(p.slots[i].length)
    {
      PackedSlotBounds(p, i);
    }
  }

  /** A packed page whose trailer fits can be written. */
  lemma {:induction false} FitsWritable(p: Page)
    requires Packed(p) && Fits(p) && IsInt32(p.overflow)
    ensures Writable(p)
  {
    PackedWritable(p);
  }

  /** The slot entries of a block laid out for `p` decode to its slots. */
  lemma {:induction false} SlotsRoundTrip(p: Page, b: seq<Byte>)
    requires Writable(p) && Layout(p, b)
    ensures DecodeSlots(b, |p.slots|) == p.slots
  {
    var n := |p.slots|;
    var ds := DecodeSlots(b, n);
    forall i | 0 <= i < n
      ensures ds[i] == p.slots[i]
    {
      var pos := SlotPos(n, i);
      var e := EncodeSlot(p.slots[i]);
      assert b[pos..pos + SlotSize] == e;
      SliceOfSlice(b, pos, e, 0, 4);
      SliceOfSlice(b, pos, e, 4, 8);
      DecodeEncodeInt32(b, pos, p.slots[i].offset);
      DecodeEncodeInt32(b, pos + 4, p.slots[i].length);
    }
  }

  /** Record `i` of a packed page sits at its slot's offset in a block
      that starts with the page's packed data. */
  lemma {:induction false} RecordBytesAtSlot(p: Page, b: seq<Byte>, i: int)
    requires Packed(p) && 0 <= i < |p.slots|
    requires SumSizes(p.records) <= |b| && b[0..SumSizes(p.records)] == Data(p.records)
    ensures 0 <= p.slots[i].offset && p.slots[i].offset + p.slots[i].length <= SumSizes(p.records)
    ensures b[p.slots[i].offset..p.slots[i].offset + p.slots[i].length] == Serialize(p.records[i])
  {
    var off, len := SumSizes(p.records[..i]), Size(p.records[i]);
    RecordInData(p.records, i);
    assert p.slots[i] == Slot(off, len);
    SliceOfSlice(b, 0, Data(p.records), off, off + len);
  }

  /** A block laid out for a fitting page starts with the packed data. */
  lemma {:induction false} DataInBlock(p: Page, b: seq<Byte>)
    requires Fits(p) && Writable(p) && Layout(p, b)
    ensures SumSizes(p.records) <= |b| && b[0..SumSizes(p.records)] == Data(p.records)
  {
    forall k | 0 <= k < SumSizes(p.records)
      ensures b[k] == Data(p.records)[k]
    {
      assert k < SlotPos(|p.slots|, 0);
    }
  }

  /** `DecodeRecords` yields exactly the records each slot decodes to. */
  lemma {:induction false} DecodeRecordsAll(block: seq<Byte>, slots: seq<Slot>, rs: seq<Record>)
    requires |rs| == |slots|
    requires forall i :: 0 <= i < |slots| ==> DecodeAt(block, slots[i].offset) == Some(rs[i])
    ensures DecodeRecords(block, slots) == Some(rs)
    decreases |slots|
  {
    if |slots| > 0 {
      var last := |slots| - 1;
      DecodeRecordsAll(block, slots[..last], rs[..last]);
      assert rs == rs[..last] + [rs[last]];
    }
  }

  /** Any block laid out for a packed page whose trailer fits decodes back
      to that page. */
  lemma {:induction false} LayoutDecodes(reserve: int, p: Page, b: seq<Byte>)
    requires Accounted(p, reserve) && Packed(p) && Fits(p) && Writable(p) && Layout(p, b)
    ensures DecodeBlockWith(reserve, b) == Some(p)
  {
    var n := |p.slots|;
    DecodeEncodeInt32(b, OverflowPos, p.overflow);
    DecodeEncodeInt32(b, CountPos, n);
    SlotsRoundTrip(p, b);
    DataInBlock(p, b);
    RecordsRoundTrip(p, b);
    DecodeBlockOf(reserve, p, b);
  }

  /** A block whose trailer reads as `p`'s overflow pointer and slots and
      whose slots decode to `p`'s records decodes to `p`. */
  lemma {:induction false} DecodeBlockOf(reserve: int, p: Page, b: seq<Byte>)
    requires |b| == PageSize && Accounted(p, reserve) && |p.slots| <= MaxSlots
    requires DecodeInt32(b, OverflowPos) == p.overflow && DecodeInt32(b, CountPos) == |p.slots|
    requires DecodeSlots(b, |p.slots|) == p.slots
    requires DecodeRecords(b, p.slots) == Some(p.records)
    ensures DecodeBlockWith(reserve, b) == Some(p)
  {
    DecodeBlockParts(reserve, b, p.overflow, |p.slots|, p.slots, p.records, p.curSize);
    assert p == Page(p.records, p.slots, p.curSize, p.overflow);
  }

  /** `DecodeBlockWith` assembles the page from the trailer's fields and the
      decoded records. */
  lemma {:induction false} DecodeBlockParts(reserve: int, b: seq<Byte>, overflow: int, count: int,
                                            slots: seq<Slot>, records: seq<Record>, curSize: int)
    requires |b| == PageSize && 0 <= count <= MaxSlots
    requires DecodeInt32(b, OverflowPos) == overflow && DecodeInt32(b, CountPos) == count
    requires DecodeSlots(b, count) == slots
    requires DecodeRecords(b, slots) == Some(records)
    requires curSize == reserve + Footprint(records)
    ensures DecodeBlockWith(reserve, b) == Some(Page(records, slots, curSize, overflow))
  {
  }

  /** The records of a packed page decode from any block that
      starts with the page's packed data. */
  lemma {:induction false} RecordsRoundTrip(p: Page, b: seq<Byte>)
    requires Packed(p) && SumSizes(p.records) <= PageSize
    requires SumSizes(p.records) <= |b| && b[0..SumSizes(p.records)] == Data(p.records)
    ensures DecodeRecords(b, p.slots) == Some(p.records)
  {
    forall i | 0 <= i < |p.slots|
      ensures DecodeAt(b, p.slots[i].offset) == Some(p.records[i])
    {
      RecordBytesAtSlot(p, b, i);
      DecodeSerialized(b, p.slots[i].offset, p.records[i]);
    }
    DecodeRecordsAll(b, p.slots, p.records);
  }

  /** Write then read: a packed page whose records and full trailer fit in
      the block decodes back to itself (records, slots, overflow pointer and
      `cur_size`), for whatever reserve its `cur_size` was counted from. */
  lemma {:induction false} RoundTripWith(reserve: int, p: Page)
    requires Accounted(p, reserve) && Packed(p) && Fits(p) && IsInt32(p.overflow)
    ensures Writable(p)
    ensures DecodeBlockWith(reserve, WriteBlock(p)) == Some(p)
  {
    FitsWritable(p);
    WriteBlockLayout(p);
    LayoutDecodes(reserve, p, WriteBlock(p));
  }

  /** Write then read for every page the capacity test admits with a
      reserve of at least 4: the block decodes to `Settle(p)`, which is `p`
      itself when the trailer fits and otherwise `p` with the bytes under
      slot 0's offset zeroed in its last record. */
  lemma {:induction false} DecodeWritten(reserve: int, p: Page)
    requires SourceReserve <= reserve && Accounted(p, reserve) && Packed(p)
    requires p.curSize <= PageSize && IsInt32(p.overflow)
    ensures Writable(p)
    ensures DecodeBlockWith(reserve, WriteBlock(p)) == Some(Settle(p))
  {
    if Spill(p) <= 0 {
      RoundTripWith(reserve, p);
    } else {
      PackedWritable(p);
      WriteBlockLayout(p);
      SpilledLayoutDecodes(reserve, p, WriteBlock(p));
    }
  }

  /** Any block laid out for a spilling page decodes to the settled page. */
  lemma {:induction false} SpilledLayoutDecodes(reserve: int, p: Page, b: seq<Byte>)
    requires Accounted(p, reserve) && Packed(p) && Writable(p) && Layout(p, b)
    requires 0 < Spill(p) <= 4
    ensures DecodeBlockWith(reserve, b) == Some(Settle(p))
  {
    var q := Settle(p);
    DecodeEncodeInt32(b, OverflowPos, p.overflow);
    DecodeEncodeInt32(b, CountPos, |p.slots|);
    SlotsRoundTrip(p, b);
    SpilledDataInBlock(p, b);
    SettleShape(p);
    RecordsRoundTrip(q, b);
    DecodeBlockOf(reserve, q, b);
  }

  /** `read_from_data_file` after `write_into_data_file`, through the
      stream the block is read from, whatever the reading page held before
      and whatever follows the block in the file: the page comes back
      settled. */
  lemma {:induction false} ReadBack(reserve: int, p: Page, before: Page, rest: seq<Byte>)
    requires SourceReserve <= reserve && Accounted(p, reserve) && Packed(p)
    requires p.curSize <= PageSize && IsInt32(p.overflow)
    ensures Writable(p)
    ensures ReadFromDataFile(reserve, before, WriteBlock(p) + rest) == ReadOutcome(true, Settle(p))
  {
    DecodeWritten(reserve, p);
    assert (WriteBlock(p) + rest)[..PageSize] == WriteBlock(p);
  }

  /** With the full 8-byte reserve the round trip is exact: every page the
      capacity test admits comes back as itself. */
  lemma {:induction false} RoundTrip(p: Page, before: Page, rest: seq<Byte>)
    requires Accounted(p, Reserve) && Packed(p) && p.curSize <= PageSize && IsInt32(p.overflow)
    ensures Writable(p)
    ensures ReadFromDataFile(Reserve, before, WriteBlock(p) + rest) == ReadOutcome(true, p)
  {
    ReadBack(Reserve, p, before, rest);
  }

  /** A settled page is what the source writes: the block of `Settle(p)` is
      the block of `p`, byte for byte. */
  lemma {:induction false} SettledBlock(p: Page)
    requires Packed(p) && Writable(p) && Spill(p) <= 4
    ensures Writable(Settle(p))
    ensures WriteBlock(Settle(p)) == WriteBlock(p)
  {
    if Spill(p) > 0 && |p.records| > 0 {
      var b := WriteBlock(p);
      WriteBlockLayout(p);
      SettledLayout(p, b);
      WriteBlockLayout(Settle(p));
      LayoutUnique(Settle(p), b, WriteBlock(Settle(p)));
    }
  }

  /** A block laid out for a spilling page is laid out for the settled page
      too: the two differ only under the first slot entry. */
  lemma {:induction false} SettledLayout(p: Page, b: seq<Byte>)
    requires |p.records| == |p.slots| && Writable(p) && Layout(p, b) && 0 < Spill(p) <= 4
    ensures Writable(Settle(p)) && Layout(Settle(p), b)
  {
    SettleSizes(p);
    SettleKeepsPrefix(p);
    LayoutOfSameTrailer(p, Settle(p), b);
  }

  /** A block laid out for `p` is laid out for any page with the same slots,
      overflow pointer and data size whose packed data agrees with `p`'s
      below the slot directory. */
  lemma {:induction false} LayoutOfSameTrailer(p: Page, q: Page, b: seq<Byte>)
    requires Writable(p) && Layout(p, b)
    requires q.slots == p.slots && q.overflow == p.overflow
    requires SumSizes(q.records) == SumSizes(p.records)
    requires 0 <= SlotPos(|p.slots|, 0) <= SumSizes(p.records)
    requires Data(q.records)[..SlotPos(|p.slots|, 0)] == Data(p.records)[..SlotPos(|p.slots|, 0)]
    ensures Writable(q) && Layout(q, b)
  {
    var base := SlotPos(|p.slots|, 0);
    forall k | 0 <= k < base
      ensures b[k] == Data(q.records)[k]
    {
      assert Data(q.records)[k] == Data(q.records)[..base][k];
    }
  }

  /** A layout determines the block: the slot entries and the packed data
      cover every byte of it. */
  lemma {:induction false} LayoutUnique(p: Page, b1: seq<Byte>, b2: seq<Byte>)
    requires Writable(p) && Layout(p, b1) && Layout(p, b2)
    ensures b1 == b2
  {
    var n := |p.slots|;
    forall j | 0 <= j < PageSize
      ensures b1[j] == b2[j]
    {
      if j >= OverflowPos {
        SameByte(b1, b2, OverflowPos, EncodeInt32(p.overflow), j);
      } else if j >= CountPos {
        SameByte(b1, b2, CountPos, EncodeInt32(n), j);
      } else if j >= SlotPos(n, 0) {
        var i := (j - SlotPos(n, 0)) / SlotSize;
        assert SlotPos(n, i) <= j < SlotPos(n, i) + SlotSize;
        SameByte(b1, b2, SlotPos(n, i), EncodeSlot(p.slots[i]), j);
      }
    }
  }

  /** A block laid out for a spilling page starts with the settled page's
      packed data: the spilled bytes hold slot 0's zero offset. */
  lemma {:induction false} SpilledDataInBlock(p: Page, b: seq<Byte>)
    requires Packed(p) && Writable(p) && Layout(p, b) && 0 < Spill(p) <= 4
    requires SumSizes(p.records) <= PageSize
    ensures SumSizes(p.records) <= |b| && b[0..SumSizes(p.records)] == Data(Settle(p).records)
  {
    var base := SlotPos(|p.slots|, 0);
    SettleData(p);
    SettleKeepsPrefix(p);
    TrailerStartsWithZero(p, b);
    BlockPrefixZeros(b, Data(p.records), base, Spill(p));
  }

  /** A block that agrees with `d` below `base` and holds four zero bytes
      from `base` on starts with `d`'s first `base` bytes and `k` zeros. */
  lemma {:induction false} BlockPrefixZeros(b: seq<Byte>, d: seq<Byte>, base: int, k: int)
    requires 0 <= base <= |d| && 0 <= k <= 4 && base + 4 <= |b|
    requires forall j :: 0 <= j < base ==> b[j] == d[j]
    requires forall j :: base <= j < base + 4 ==> b[j] == 0
    ensures b[0..base + k] == d[..base] + Zeros(k)
  {
    var e := d[..base] + Zeros(k);
    forall j | 0 <= j < base + k
      ensures b[j] == e[j]
    {
      if j < base {
        assert e[j] == d[..base][j];
      } else {
        assert e[j] == Zeros(k)[j - base];
      }
    }
  }

  // ---------------------------------------------------------------------
  // The trailer overlap admitted by the source's 4-byte reserve
  // ---------------------------------------------------------------------

  /** When the slot directory starts inside the last record and the data
      byte it overwrites is not zero, the block does not decode back to the
      page: the first four trailer bytes hold slot 0's offset, which is 0. */
  lemma {:induction false} TrailerOverlapBreaksRoundTrip(reserve: int, p: Page)
    requires Packed(p) && Writable(p) && 0 < |p.records|
    requires SumSizes(p.records[..|p.records| - 1]) <= SlotPos(|p.slots|, 0) < SumSizes(p.records)
    requires Data(p.records)[SlotPos(|p.slots|, 0)] != 0
    ensures DecodeBlockWith(reserve, WriteBlock(p)) != Some(p)
  {
    WriteBlockLayout(p);
    TrailerStartsWithZero(p, WriteBlock(p));
    OverlapNotDecoded(reserve, p, WriteBlock(p));
  }

  /** A block with a zero byte where the packed data of `p` has a non-zero
      one, inside its last record, does not decode to `p`. */
  lemma {:induction false} OverlapNotDecoded(reserve: int, p: Page, b: seq<Byte>)
    requires Packed(p) && |b| == PageSize && 0 < |p.records|
    requires SumSizes(p.records[..|p.records| - 1]) <= SlotPos(|p.slots|, 0) < SumSizes(p.records)
    requires Data(p.records)[SlotPos(|p.slots|, 0)] != 0
    requires 0 <= SlotPos(|p.slots|, 0) && b[SlotPos(|p.slots|, 0)] == 0
    ensures DecodeBlockWith(reserve, b) != Some(p)
  {
    if DecodeBlockWith(reserve, b) == Some(p) {
      DecodedRecordAt(reserve, p, b, |p.records| - 1);
      LastRecordNotDecoded(p, b);
      assert false;
    }
  }

  /** Under the same overlap, the last record does not decode from its
      slot's offset. */
  lemma {:induction false} LastRecordNotDecoded(p: Page, b: seq<Byte>)
    requires Packed(p) && |b| == PageSize && 0 < |p.records|
    requires SumSizes(p.records[..|p.records| - 1]) <= SlotPos(|p.slots|, 0) < SumSizes(p.records)
    requires Data(p.records)[SlotPos(|p.slots|, 0)] != 0
    requires 0 <= SlotPos(|p.slots|, 0) && b[SlotPos(|p.slots|, 0)] == 0
    ensures DecodeAt(b, p.slots[|p.records| - 1].offset) != Some(p.records[|p.records| - 1])
  {
    var last := |p.records| - 1;
    if DecodeAt(b, p.slots[last].offset) == Some(p.records[last]) {
      DecodedRecordBytes(p, b, last);
      DecodedDataByte(p.records, b, SlotPos(|p.slots|, 0));
      assert false;
    }
  }

  /** A block holding the last of `rs` where the packed data holds it
      agrees with the packed data at every byte of that record. */
  lemma {:induction false} DecodedDataByte(rs: seq<Record>, b: seq<Byte>, k: int)
    requires 0 < |rs|
    requires SumSizes(rs[..|rs| - 1]) + Size(rs[|rs| - 1]) <= |b|
    requires b[SumSizes(rs[..|rs| - 1])..SumSizes(rs[..|rs| - 1]) + Size(rs[|rs| - 1])] == Serialize(rs[|rs| - 1])
    requires SumSizes(rs[..|rs| - 1]) <= k < SumSizes(rs)
    ensures b[k] == Data(rs)[k]
  {
    var n := |rs| - 1;
    LastRecordInData(rs);
    SameByte(b, Data(rs), SumSizes(rs[..n]), Serialize(rs[n]), k);
  }

  /** Slot 0 of a packed page is (0, size), so a block laid out for it holds
      a zero byte where the slot directory begins. */
  lemma {:induction false} TrailerStartsWithZero(p: Page, b: seq<Byte>)
    requires Packed(p) && Writable(p) && Layout(p, b) && 0 < |p.slots|
    ensures 0 <= SlotPos(|p.slots|, 0) && b[SlotPos(|p.slots|, 0)] == 0
    ensures forall j :: SlotPos(|p.slots|, 0) <= j < SlotPos(|p.slots|, 0) + 4 ==> b[j] == 0
  {
    var base := SlotPos(|p.slots|, 0);
    assert p.records[..0] == [];
    assert p.slots[0].offset == 0;
    var e := EncodeSlot(p.slots[0]);
    assert b[base..base + SlotSize] == e;
    assert e[..4] == EncodeInt32(0) == [0, 0, 0, 0];
    forall j | base <= j < base + 4
      ensures b[j] == 0
    {
      assert b[j] == e[j - base];
    }
  }

  /** Two sequences holding `s` at the same offset agree inside it. */
  lemma {:induction false} SameByte(a: seq<Byte>, c: seq<Byte>, off: int, s: seq<Byte>, k: int)
    requires 0 <= off && off + |s| <= |a| && off + |s| <= |c|
    requires a[off..off + |s|] == s && c[off..off + |s|] == s
    requires off <= k < off + |s|
    ensures a[k] == c[k]
  {
    assert a[k] == a[off..off + |s|][k - off];
    assert c[k] == c[off..off + |s|][k - off];
  }

  /** A record decoded at a packed slot sits in the block at the packed
      offset. */
  lemma {:induction false} DecodedRecordBytes(p: Page, b: seq<Byte>, i: int)
    requires Packed(p) && 0 <= i < |p.slots|
    requires DecodeAt(b, p.slots[i].offset) == Some(p.records[i])
    ensures 0 <= SumSizes(p.records[..i]) && SumSizes(p.records[..i]) + Size(p.records[i]) <= |b|
    ensures b[SumSizes(p.records[..i])..SumSizes(p.records[..i]) + Size(p.records[i])] == Serialize(p.records[i])
  {
    DecodedReserializes(b, p.slots[i].offset);
  }

  /** If a block decodes to `p`, slot `i`'s offset decodes to record `i`. */
  lemma {:induction false} DecodedRecordAt(reserve: int, p: Page, b: seq<Byte>, i: int)
    requires |b| == PageSize && DecodeBlockWith(reserve, b) == Some(p) && 0 <= i < |p.slots|
    ensures DecodeAt(b, p.slots[i].offset) == Some(p.records[i])
  {
    var count := DecodeInt32(b, CountPos);
    assert DecodeSlots(b, count) == p.slots;
    assert DecodeRecords(b, p.slots) == Some(p.records);
  }
}
