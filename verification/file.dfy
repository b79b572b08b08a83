/** The index file as bytes: page `k` of a store is the 4096-byte block at
    byte `k * 4096`, as `addRecordToIndex` and `searchRecordByIdInPage`
    seek to it (classes.h:223, 228, 241, 245, 266). */
module IndexFile {
  import opened Codec
  import opened SlottedPage
  import opened Chains

  /** The page numbers whose byte position `pageNum * 4096` is still an
      `int` in the source: 2^31 / 4096. */
  const MaxFilePages: int := 524288

  /** Where page `k`'s block starts: `k * PAGE_SIZE`. */
  function BlockAt(k: int): int
  {
    4096 * k
  }

  /** Blocks laid end to end. */
  function Concat(bs: seq<seq<Byte>>): (f: seq<Byte>)
  {
    if |bs| == 0 then [] else Concat(bs[..|bs| - 1]) + bs[|bs| - 1]
  }

  /** Every block is one page long. */
  ghost predicate PageBlocks(bs: seq<seq<Byte>>)
  {
    forall i :: 0 <= i < |bs| ==> |bs[i]| == PageSize
  }

  /** Block `k` of a file of page-sized blocks starts at `BlockAt(k)`. */
  lemma {:induction false} ConcatBlock(bs: seq<seq<Byte>>, k: int)
    requires PageBlocks(bs) && 0 <= k < |bs|
    ensures |Concat(bs)| == BlockAt(|bs|)
    ensures Concat(bs)[BlockAt(k)..BlockAt(k + 1)] == bs[k]
    decreases |bs|
  {
    var n := |bs|;
    var init := bs[..n - 1];
    assert PageBlocks(init);
    if k < n - 1 {
      ConcatBlock(init, k);
      assert Concat(bs)[BlockAt(k)..BlockAt(k + 1)] == Concat(init)[BlockAt(k)..BlockAt(k + 1)];
    } else {
      if n - 1 > 0 {
        ConcatBlock(init, 0);
      }
      assert |Concat(init)| == BlockAt(n - 1);
    }
  }

  /** Every allocated page can be written. */
  lemma {:induction false} AllWritable(s: Store)
    requires Linked(s) && s.next <= MaxFilePages
    ensures forall k :: 0 <= k < s.next ==> Writable(s.pages[k])
  {
    forall k | 0 <= k < s.next
      ensures Writable(s.pages[k])
    {
      StoredPageReads(s, k, s.pages[k], []);
    }
  }

  /** The blocks `write_into_data_file` produces for the allocated pages.
      A page is kept as its block reads back, and writing that page again
      gives the same block (`SettledBlock`). */
  ghost function Blocks(s: Store): (bs: seq<seq<Byte>>)
    requires Linked(s) && s.next <= MaxFilePages
    ensures |bs| == s.next && PageBlocks(bs)
  {
    AllWritable(s);
    seq(s.next, k requires 0 <= k < s.next => WriteBlock(s.pages[k]))
  }

  /** The index file: every allocated page's block, in page order. */
  ghost function FileBytes(s: Store): seq<Byte>
    requires Linked(s) && s.next <= MaxFilePages
  {
    Concat(Blocks(s))
  }

  /** A page of the store can be written, and its block reads back as the
      page whatever follows it. */
  lemma {:induction false} StoredPageReads(s: Store, k: int, before: Page, rest: seq<Byte>)
    requires Linked(s) && s.next <= MaxFilePages && 0 <= k < s.next
    ensures Writable(s.pages[k])
    ensures ReadFromDataFile(s.reserve, before, WriteBlock(s.pages[k]) + rest)
            == ReadOutcome(true, s.pages[k])
  {
    assert IsInt32(s.pages[k].overflow);
    ReadBack(s.reserve, s.pages[k], before, rest);
  }

  /** Reading page `k` of the file the index builds yields exactly page `k`
      of the store: the file holds a whole block for every allocated page,
      so the read never comes up short (ignoring its result in
      `addRecordToIndex` and `searchRecordByIdInPage` loses nothing) and
      the map of pages is a faithful view of the file. */
  lemma {:induction false} ReadPage(s: Store, k: int, before: Page)
    requires Linked(s) && s.next <= MaxFilePages && 0 <= k < s.next
    ensures |FileBytes(s)| == BlockAt(s.next)
    ensures ReadFromDataFile(s.reserve, before, FileBytes(s)[BlockAt(k)..]) == ReadOutcome(true, s.pages[k])
  {
    var bs := Blocks(s);
    var f := Concat(bs);
    ConcatBlock(bs, k);
    var rest := f[BlockAt(k + 1)..];
    SplitSuffix(f, BlockAt(k), BlockAt(k + 1));
    StoredPageReads(s, k, before, rest);
  }
}
