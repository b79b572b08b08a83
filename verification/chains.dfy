/** The index file as a map from page numbers to pages, the page allocator
    `nextFreePage`, and the two walks along an overflow chain:
    `addRecordToIndex` and `searchRecordByIdInPage` (classes.h:210-284).

    Every seek, read and write of a page becomes a lookup or an update of
    the map. Reads always find a full block because every page number below
    the allocator has been written (`Linked`). */
module Chains {
  import opened Codec
  import opened SlottedPage

  /** The pages of the index file by page number, as their blocks read
      back; the next page number the allocator hands out; and the initial
      `cur_size` of a page, 4 in the source. Page `k` occupies bytes
      `4096 * k` to `4096 * k + 4095` of the file. */
  datatype Store = Store(pages: map<int, Page>, next: int, reserve: int)

  /** Pages `0` to `next - 1` exist and are settled, and an overflow
      pointer is either `NoPage` or a later page: page numbers come only
      from the allocator, which has passed every page already linked. */
  ghost predicate Linked(s: Store)
  {
    && SourceReserve <= s.reserve <= Reserve
    && 0 <= s.next
    && (forall k :: k in s.pages <==> 0 <= k < s.next)
    && (forall k :: k in s.pages ==> Settled(s.reserve, s.pages[k]))
    && (forall k :: k in s.pages ==>
          s.pages[k].overflow == NoPage || k < s.pages[k].overflow < s.next)
  }

  /** The page numbers of the chain starting at `start`, in walking order. */
  ghost function Chain(s: Store, start: int): (c: seq<int>)
    requires Linked(s) && (start == NoPage || start in s.pages)
    ensures start == NoPage <==> c == []
    ensures start != NoPage ==> c[0] == start
    ensures forall i :: 0 <= i < |c| ==> c[i] in s.pages && start <= c[i]
    decreases if start == NoPage then 0 else s.next - start
  {
    if start == NoPage then [] else [start] + Chain(s, s.pages[start].overflow)
  }

  /** The records of the chain starting at `start`, page by page. */
  ghost function ChainRecords(s: Store, start: int): seq<Record>
    requires Linked(s) && (start == NoPage || start in s.pages)
    decreases if start == NoPage then 0 else s.next - start
  {
    if start == NoPage then []
    else s.pages[start].records + ChainRecords(s, s.pages[start].overflow)
  }

  /** Writing a settled page that ends its chain at the allocator's page
      number, and advancing the allocator, keeps the file linked. */
  lemma {:induction false} LinkedAfterAllocate(s: Store, p: Page)
    requires Linked(s) && Settled(s.reserve, p) && p.overflow == NoPage
    ensures Linked(Store(s.pages[s.next := p], s.next + 1, s.reserve))
  {
    var t := Store(s.pages[s.next := p], s.next + 1, s.reserve);
    forall k | k in t.pages
      ensures Settled(t.reserve, t.pages[k])
      ensures t.pages[k].overflow == NoPage || k < t.pages[k].overflow < t.next
    {
      if k != s.next {
        assert t.pages[k] == s.pages[k];
      }
    }
  }

  // ---------------------------------------------------------------------
  // addRecordToIndex
  // ---------------------------------------------------------------------

  /** The overflow page `addRecordToIndex` creates (classes.h:235-238): an
      empty page offered the record, the insert's result ignored, as its
      block reads back. */
  function NewOverflowPage(reserve: int, r: Record): (p: Page)
    requires SourceReserve <= reserve <= Reserve
    ensures Settled(reserve, p) && p.overflow == NoPage
  {
    var e := EmptyPageWith(reserve);
    EmptyPageAccounted(reserve);
    SettledAfterInsert(reserve, e, r);
    Settle(Insert(e, r).page)
  }

  /** The new overflow page holds the record when it fits an empty page,
      with at most the reserve's slack of trailing bytes zeroed, and
      nothing when it does not: the record is then lost. */
  lemma {:induction false} NewOverflowPageRecords(reserve: int, r: Record)
    requires SourceReserve <= reserve <= Reserve
    ensures Size(r) <= Capacity(reserve) ==>
              && |NewOverflowPage(reserve, r).records| == 1
              && KeptUpTo(NewOverflowPage(reserve, r).records[0], r, Slack(reserve))
    ensures Size(r) > Capacity(reserve) ==> NewOverflowPage(reserve, r).records == []
  {
    InsertIntoEmpty(reserve, r);
    if Size(r) <= Capacity(reserve) {
      EmptyPageAccounted(reserve);
      InsertSettles(reserve, EmptyPageWith(reserve), r);
    }
  }

  /** `addRecordToIndex(cur, r)` (classes.h:210-257): insert into the first
      page of the chain from `cur` with room and write it back; when the
      last page is full, link a fresh page from the allocator to it and
      store the record there. A written page is kept as its block reads
      back. Only pages of the chain and the fresh page change. */
  function AddFrom(s: Store, cur: int, r: Record): (t: Store)
    requires Linked(s) && cur in s.pages
    ensures Linked(t) && t.reserve == s.reserve
    ensures t.next == s.next || t.next == s.next + 1
    ensures forall k :: k in s.pages && k !in Chain(s, cur) ==> t.pages[k] == s.pages[k]
    decreases s.next - cur
  {
    var page := s.pages[cur];
    var res := Insert(page, r);
    if res.ok then
      InsertSettles(s.reserve, page, r);
      LinkedAfterRewrite(s, cur, Settle(res.page));
      Store(s.pages[cur := Settle(res.page)], s.next, s.reserve)
    else if page.overflow == NoPage then
      var extra := NewOverflowPage(s.reserve, r);
      LinkedAfterExtend(s, cur, extra);
      Store(s.pages[cur := page.(overflow := s.next)][s.next := extra], s.next + 1, s.reserve)
    else AddFrom(s, page.overflow, r)
  }

  /** Writing back a settled page with the same overflow pointer keeps the
      file linked. */
  lemma {:induction false} LinkedAfterRewrite(s: Store, cur: int, p: Page)
    requires Linked(s) && cur in s.pages && Settled(s.reserve, p)
    requires p.overflow == s.pages[cur].overflow
    ensures Linked(Store(s.pages[cur := p], s.next, s.reserve))
  {
  }

  /** Pointing the last page `cur` of a chain at the allocator's page
      number, writing a settled page there that ends the chain, and
      advancing the allocator keeps the file linked. */
  lemma {:induction false} LinkedAfterExtend(s: Store, cur: int, p: Page)
    requires Linked(s) && cur in s.pages && Settled(s.reserve, p) && p.overflow == NoPage
    ensures Linked(Store(s.pages[cur := s.pages[cur].(overflow := s.next)][s.next := p],
                         s.next + 1, s.reserve))
  {
    var t := Store(s.pages[cur := s.pages[cur].(overflow := s.next)][s.next := p],
                   s.next + 1, s.reserve);
    SettledRelinked(s.reserve, s.pages[cur], s.next);
    forall k | k in t.pages
      ensures t.pages[k].overflow == NoPage || k < t.pages[k].overflow < t.next
    {
      if k != cur && k != s.next {
        assert t.pages[k] == s.pages[k];
      }
    }
  }

  /** The loop of `addRecordToIndex`: read the current page, try it, and
      either write it back, link a new overflow page, or move on. */
  method AddRecordToIndex(s: Store, pageNum: int, r: Record) returns (t: Store)
    requires Linked(s) && pageNum in s.pages
    ensures t == AddFrom(s, pageNum, r)
  {
    var cur := pageNum;
    while true
      invariant cur in s.pages
      invariant AddFrom(s, cur, r) == AddFrom(s, pageNum, r)
      decreases s.next - cur
    {
      var page := s.pages[cur];
      var inserted, written := InsertRecordIntoPage(page, r);
      if inserted {
        return Store(s.pages[cur := Settle(written)], s.next, s.reserve);
      } else if page.overflow == NoPage {
        var added := s.next;
        var overflowPage := NewOverflowPage(s.reserve, r);
        return Store(s.pages[cur := page.(overflow := added)][added := overflowPage],
                     added + 1, s.reserve);
      } else {
        cur := page.overflow;
      }
    }
  }

  // ---------------------------------------------------------------------
  // What an insert does to its chain
  // ---------------------------------------------------------------------

  /** A chain whose pages are unchanged between two stores is the same
      chain, with the same records. */
  lemma {:induction false} ChainFrame(s: Store, t: Store, start: int)
    requires Linked(s) && Linked(t) && (start == NoPage || start in s.pages)
    requires forall k :: k in Chain(s, start) ==> k in t.pages && t.pages[k] == s.pages[k]
    ensures start == NoPage || start in t.pages
    ensures Chain(t, start) == Chain(s, start)
    ensures ChainRecords(t, start) == ChainRecords(s, start)
    decreases if start == NoPage then 0 else s.next - start
  {
    if start != NoPage {
      assert start in Chain(s, start);
      ChainFrame(s, t, s.pages[start].overflow);
    }
  }

  /** An insert leaves its chain as it was or extends it by exactly the
      page the allocator hands out. */
  lemma {:induction false} AddChain(s: Store, cur: int, r: Record)
    requires Linked(s) && cur in s.pages
    ensures var t := AddFrom(s, cur, r);
            || (t.next == s.next && Chain(t, cur) == Chain(s, cur))
            || (t.next == s.next + 1 && Chain(t, cur) == Chain(s, cur) + [s.next])
    decreases s.next - cur
  {
    var page := s.pages[cur];
    var o := page.overflow;
    if HasRoom(page, r) {
      AddHereChain(s, cur, r);
    } else if o == NoPage {
      AddLinkChain(s, cur, r);
    } else {
      var t := AddFrom(s, cur, r);
      AddChain(s, o, r);
      AddOnChain(s, cur, r);
      assert Chain(s, cur) == [cur] + Chain(s, o);
      if t.next != s.next {
        ConsSnoc(cur, Chain(s, o), Chain(t, o), s.next);
      }
    }
  }

  lemma {:induction false} ConsSnoc<T>(x: T, a: seq<T>, b: seq<T>, y: T)
    requires b == a + [y]
    ensures [x] + b == [x] + a + [y]
  {
  }

  /** The page at `cur` takes the record: the chain keeps its pages, and
      the page's records gain the record as the page reads back. */
  lemma {:induction false} AddHereChain(s: Store, cur: int, r: Record)
    requires Linked(s) && cur in s.pages && HasRoom(s.pages[cur], r)
    ensures AddFrom(s, cur, r).next == s.next
    ensures Chain(AddFrom(s, cur, r), cur) == Chain(s, cur)
    ensures ChainRecords(AddFrom(s, cur, r), cur)
            == Settle(Insert(s.pages[cur], r).page).records + ChainRecords(s, s.pages[cur].overflow)
  {
    var t := AddFrom(s, cur, r);
    var o := s.pages[cur].overflow;
    InsertSettles(s.reserve, s.pages[cur], r);
    assert t.pages == s.pages[cur := Settle(Insert(s.pages[cur], r).page)];
    assert t.pages[cur].overflow == o;
    ChainFrame(s, t, o);
  }

  /** The last page at `cur` is full: the chain gains the new page. */
  lemma {:induction false} AddLinkChain(s: Store, cur: int, r: Record)
    requires Linked(s) && cur in s.pages && !HasRoom(s.pages[cur], r)
    requires s.pages[cur].overflow == NoPage
    ensures AddFrom(s, cur, r).next == s.next + 1
    ensures Chain(AddFrom(s, cur, r), cur) == Chain(s, cur) + [s.next]
    ensures ChainRecords(AddFrom(s, cur, r), cur)
            == s.pages[cur].records + NewOverflowPage(s.reserve, r).records
  {
    var page := s.pages[cur];
    var t := Store(s.pages[cur := page.(overflow := s.next)][s.next := NewOverflowPage(s.reserve, r)],
                   s.next + 1, s.reserve);
    assert AddFrom(s, cur, r) == t;
    assert Chain(s, cur) == [cur];
    assert Linked(t) && t.pages[cur].overflow == s.next;
    assert Chain(t, s.next) == [s.next];
    assert Chain(t, cur) == [cur] + Chain(t, s.next);
    assert ChainRecords(t, s.next) == NewOverflowPage(s.reserve, r).records;
  }

  /** The page at `cur` is full and has a successor: the chain from `cur`
      is `cur` followed by what the insert makes of the successor's chain. */
  lemma {:induction false} AddOnChain(s: Store, cur: int, r: Record)
    requires Linked(s) && cur in s.pages && !HasRoom(s.pages[cur], r)
    requires s.pages[cur].overflow != NoPage
    ensures var t := AddFrom(s, cur, r);
            && t == AddFrom(s, s.pages[cur].overflow, r)
            && t.pages[cur] == s.pages[cur]
            && Chain(t, cur) == [cur] + Chain(t, s.pages[cur].overflow)
            && ChainRecords(t, cur) == s.pages[cur].records + ChainRecords(t, s.pages[cur].overflow)
  {
    var o := s.pages[cur].overflow;
    assert cur !in Chain(s, o);
  }

  /** `ys` is `xs` with `r` inserted at some position. */
  ghost predicate InsertedSomewhere(xs: seq<Record>, ys: seq<Record>, r: Record)
  {
    exists i :: 0 <= i <= |xs| && ys == xs[..i] + [r] + xs[i..]
  }

  /** `ys` is `xs` with `r` inserted at some position, as a page reads it
      back: with at most `slack` trailing bytes zeroed. */
  ghost predicate InsertedKept(xs: seq<Record>, ys: seq<Record>, r: Record, slack: int)
  {
    exists r2 :: KeptUpTo(r2, r, slack) && InsertedSomewhere(xs, ys, r2)
  }

  /** A record that fits an empty page lands in the chain: the chain's
      records are the old ones with the new record inserted among them,
      its last `Slack(s.reserve)` bytes at most zeroed by the first slot
      entry of its page. */
  lemma {:induction false} AddPlacesRecord(s: Store, cur: int, r: Record)
    requires Linked(s) && cur in s.pages && Size(r) <= Capacity(s.reserve)
    ensures InsertedKept(ChainRecords(s, cur), ChainRecords(AddFrom(s, cur, r), cur), r, Slack(s.reserve))
    decreases s.next - cur
  {
    var page := s.pages[cur];
    var o := page.overflow;
    var n := |page.records|;
    assert ChainRecords(s, cur) == page.records + ChainRecords(s, o);
    if HasRoom(page, r) {
      AddHereChain(s, cur, r);
      InsertSettles(s.reserve, page, r);
      var q := Settle(Insert(page, r).page);
      assert q.records == page.records + [q.records[n]];
      InsertedBetween(page.records, ChainRecords(s, o), q.records[n]);
    } else if o == NoPage {
      AddLinkChain(s, cur, r);
      NewOverflowPageRecords(s.reserve, r);
      var q := NewOverflowPage(s.reserve, r);
      assert q.records == [q.records[0]];
      InsertedBetween(page.records, [], q.records[0]);
    } else {
      AddPlacesRecord(s, o, r);
      AddOnChain(s, cur, r);
      var r2 :| KeptUpTo(r2, r, Slack(s.reserve))
                && InsertedSomewhere(ChainRecords(s, o), ChainRecords(AddFrom(s, cur, r), o), r2);
      InsertedBehind(page.records, ChainRecords(s, o), ChainRecords(AddFrom(s, cur, r), o), r2);
    }
  }

  /** With the full 8-byte reserve the record lands exactly as given. */
  lemma {:induction false} AddPlacesExactly(s: Store, cur: int, r: Record)
    requires Linked(s) && cur in s.pages && s.reserve == Reserve && Size(r) <= Capacity(Reserve)
    ensures InsertedSomewhere(ChainRecords(s, cur), ChainRecords(AddFrom(s, cur, r), cur), r)
  {
    AddPlacesRecord(s, cur, r);
    var r2 :| KeptUpTo(r2, r, Slack(s.reserve))
              && InsertedSomewhere(ChainRecords(s, cur), ChainRecords(AddFrom(s, cur, r), cur), r2);
    KeptExactly(r2, r);
  }

  lemma {:induction false} InsertedBetween(xs: seq<Record>, ys: seq<Record>, r: Record)
    ensures InsertedSomewhere(xs + ys, xs + [r] + ys, r)
  {
    var zs := xs + ys;
    assert zs[..|xs|] == xs && zs[|xs|..] == ys;
  }

  lemma {:induction false} InsertedBehind(xs: seq<Record>, ys: seq<Record>, zs: seq<Record>, r: Record)
    requires InsertedSomewhere(ys, zs, r)
    ensures InsertedSomewhere(xs + ys, xs + zs, r)
  {
    var j :| 0 <= j <= |ys| && zs == ys[..j] + [r] + ys[j..];
    var n := |xs|;
    var all := xs + ys;
    assert all[..n + j] == xs + ys[..j];
    assert all[n + j..] == ys[j..];
    assert xs + zs == all[..n + j] + [r] + all[n + j..];
  }

  /** A record too large for an empty page is lost: every page of the
      chain refuses it, a new page is linked at the end, and it stays
      empty. */
  lemma {:induction false} AddDropsOversized(s: Store, cur: int, r: Record)
    requires Linked(s) && cur in s.pages && Size(r) > Capacity(s.reserve)
    ensures AddFrom(s, cur, r).next == s.next + 1
    ensures Chain(AddFrom(s, cur, r), cur) == Chain(s, cur) + [s.next]
    ensures ChainRecords(AddFrom(s, cur, r), cur) == ChainRecords(s, cur)
  {
    OversizedAllocates(s, cur, r);
    AddChain(s, cur, r);
    OversizedKeepsRecords(s, cur, r);
  }

  lemma {:induction false} OversizedAllocates(s: Store, cur: int, r: Record)
    requires Linked(s) && cur in s.pages && Size(r) > Capacity(s.reserve)
    ensures AddFrom(s, cur, r).next == s.next + 1
    decreases s.next - cur
  {
    var page := s.pages[cur];
    assert !HasRoom(page, r);
    if page.overflow != NoPage {
      OversizedAllocates(s, page.overflow, r);
    }
  }

  lemma {:induction false} OversizedKeepsRecords(s: Store, cur: int, r: Record)
    requires Linked(s) && cur in s.pages && Size(r) > Capacity(s.reserve)
    ensures ChainRecords(AddFrom(s, cur, r), cur) == ChainRecords(s, cur)
    decreases s.next - cur
  {
    var page := s.pages[cur];
    var o := page.overflow;
    assert !HasRoom(page, r);
    ChainStep(s, cur);
    if o == NoPage {
      AddLinkChain(s, cur, r);
      NewOverflowPageRecords(s.reserve, r);
      assert ChainRecords(s, cur) == page.records + [];
    } else {
      OversizedKeepsRecords(s, o, r);
      AddOnChain(s, cur, r);
    }
  }

  /** One step along a chain. */
  lemma {:induction false} ChainStep(s: Store, cur: int)
    requires Linked(s) && cur in s.pages
    ensures Chain(s, cur) == [cur] + Chain(s, s.pages[cur].overflow)
    ensures ChainRecords(s, cur) == s.pages[cur].records + ChainRecords(s, s.pages[cur].overflow)
  {
  }

  // ---------------------------------------------------------------------
  // searchRecordByIdInPage
  // ---------------------------------------------------------------------

  /** Record `i` is the first one in `rs` carrying `id`. */
  ghost predicate FirstAt(rs: seq<Record>, id: int, i: int)
  {
    0 <= i < |rs| && rs[i].id == id && forall k :: 0 <= k < i ==> rs[k].id != id
  }

  /** The scan of one page's records (classes.h:271-276): the first record
      whose id matches, if any. */
  function FirstWithId(rs: seq<Record>, id: int): (found: Option<Record>)
    ensures found.None? <==> forall k :: 0 <= k < |rs| ==> rs[k].id != id
    ensures found.Some? ==> found.value in rs && found.value.id == id
  {
    if |rs| == 0 then None
    else if rs[0].id == id then Some(rs[0])
    else FirstWithId(rs[1..], id)
  }

  /** The scan returns the first match: whatever comes after it does not
      matter. */
  lemma {:induction false} FirstWithIdAt(rs: seq<Record>, id: int, i: int)
    requires FirstAt(rs, id, i)
    ensures FirstWithId(rs, id) == Some(rs[i])
    decreases i
  {
    if i > 0 {
      assert FirstAt(rs[1..], id, i - 1);
      FirstWithIdAt(rs[1..], id, i - 1);
    }
  }

  /** Scanning `a + b` finds the first match of `a`, or else that of `b`. */
  lemma {:induction false} FirstWithIdAppend(a: seq<Record>, b: seq<Record>, id: int)
    ensures FirstWithId(a + b, id)
            == if FirstWithId(a, id).Some? then FirstWithId(a, id) else FirstWithId(b, id)
    decreases |a|
  {
    if |a| == 0 {
      assert a + b == b;
    } else {
      assert (a + b)[1..] == a[1..] + b;
      FirstWithIdAppend(a[1..], b, id);
    }
  }

  /** What a walk reports: the record found, if any, and the pages read. */
  datatype Lookup = Lookup(found: Option<Record>, visited: seq<int>)

  /** `searchRecordByIdInPage(cur, id)` (classes.h:259-284): read the pages
      of the chain in order and stop at the first page holding the id. */
  function SearchFrom(s: Store, cur: int, id: int): (res: Lookup)
    requires Linked(s) && (cur == NoPage || cur in s.pages)
    ensures res.visited <= Chain(s, cur)
    ensures res.found.None? ==> res.visited == Chain(s, cur)
    ensures res.found.Some? ==>
              && |res.visited| > 0
              && res.found.value in s.pages[res.visited[|res.visited| - 1]].records
              && res.found.value.id == id
    decreases if cur == NoPage then 0 else s.next - cur
  {
    if cur == NoPage then Lookup(None, [])
    else
      var page := s.pages[cur];
      match FirstWithId(page.records, id)
      case Some(rec) => Lookup(Some(rec), [cur])
      case None =>
        var rest := SearchFrom(s, page.overflow, id);
        Lookup(rest.found, [cur] + rest.visited)
  }

  /** The walk's answer is the first record with the id among all the
      records of the chain, in chain order and then page order. */
  lemma {:induction false} SearchFindsFirst(s: Store, cur: int, id: int)
    requires Linked(s) && (cur == NoPage || cur in s.pages)
    ensures SearchFrom(s, cur, id).found == FirstWithId(ChainRecords(s, cur), id)
    decreases if cur == NoPage then 0 else s.next - cur
  {
    if cur != NoPage {
      var page := s.pages[cur];
      SearchFindsFirst(s, page.overflow, id);
      FirstWithIdAppend(page.records, ChainRecords(s, page.overflow), id);
    }
  }

  /** The loops of `searchRecordByIdInPage`: walk the chain, scanning each
      page's records in slot order. */
  method SearchRecordByIdInPage(s: Store, pageNum: int, id: int) returns (found: Option<Record>)
    requires Linked(s) && (pageNum == NoPage || pageNum in s.pages)
    ensures found == SearchFrom(s, pageNum, id).found
  {
    var cur := pageNum;
    while cur != NoPage
      invariant cur == NoPage || cur in s.pages
      invariant SearchFrom(s, cur, id).found == SearchFrom(s, pageNum, id).found
      decreases if cur == NoPage then 0 else s.next - cur
    {
      var page := s.pages[cur];
      found := ScanPage(page.records, id);
      if found.Some? {
        return;
      }
      cur := page.overflow;
    }
    return None;
  }

  /** The inner loop over one page's records. */
  method ScanPage(rs: seq<Record>, id: int) returns (found: Option<Record>)
    ensures found == FirstWithId(rs, id)
  {
    var j := 0;
    while j < |rs|
      invariant 0 <= j <= |rs|
      invariant forall k :: 0 <= k < j ==> rs[k].id != id
    {
      if rs[j].id == id {
        FirstWithIdAt(rs, id, j);
        return Some(rs[j]);
      }
      j := j + 1;
    }
    return None;
  }
}
