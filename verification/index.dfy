/** The static hash index (classes.h:199-363): a 256-entry directory of
    chain heads over the index file, filled record by record and searched
    by id. */
module HashIndex {
  import opened Codec
  import opened SlottedPage
  import opened Chains

  const Buckets: int := 256

  /** `compute_hash_value` (classes.h:206-208). C++ `%` truncates toward
      zero, so the remainder of a negative id is zero or negative. The
      three facts below determine the remainder uniquely. */
  function Bucket(id: Int32): (h: int)
    ensures -Buckets < h < Buckets
    ensures (id - h) % Buckets == 0
    ensures (h < 0 ==> id < 0) && (id < 0 ==> h <= 0)
  {
    var n := id as int;
    if n >= 0 then n % Buckets else -((-n) % Buckets)
  }

  /** A bucket is out of the directory's range exactly for the negative ids
      that are not multiples of 256. */
  lemma {:induction false} BucketOutOfRange(id: Int32)
    ensures Bucket(id) < 0 <==> id < 0 && id % Buckets != 0
  {
  }

  /** The state of a `HashIndex`: `PageDirectory`, and the index file with
      `nextFreePage`. */
  datatype Index = Index(directory: seq<int>, store: Store)

  /** The directory has one entry per bucket, each unassigned or naming a
      page of the file. */
  ghost predicate Headed(ix: Index)
  {
    && |ix.directory| == Buckets
    && Linked(ix.store)
    && (forall h :: 0 <= h < Buckets ==>
          ix.directory[h] == NoPage || ix.directory[h] in ix.store.pages)
  }

  /** The pages of bucket `h`, walking from its head. */
  ghost function BucketChain(ix: Index, h: int): seq<int>
    requires Headed(ix) && 0 <= h < Buckets
  {
    Chain(ix.store, ix.directory[h])
  }

  /** The records of bucket `h`, in walking order. */
  ghost function BucketRecords(ix: Index, h: int): seq<Record>
    requires Headed(ix) && 0 <= h < Buckets
  {
    ChainRecords(ix.store, ix.directory[h])
  }

  /** No element of `a` occurs in `b`. */
  ghost predicate Apart(a: seq<int>, b: seq<int>)
  {
    forall i :: 0 <= i < |a| ==> a[i] !in b
  }

  /** The invariant of the index: the chains of two buckets never share a
      page. */
  ghost predicate Valid(ix: Index)
  {
    && Headed(ix)
    && forall h, g :: 0 <= h < Buckets && 0 <= g < Buckets && h != g ==>
         Apart(BucketChain(ix, h), BucketChain(ix, g))
  }

  /** The constructor (classes.h:287-293): every bucket unassigned, no
      page allocated, the file truncated; pages will count `cur_size` from
      `reserve`. */
  function Init(reserve: int): (ix: Index)
    requires SourceReserve <= reserve <= Reserve
    ensures Valid(ix)
    ensures forall h :: 0 <= h < Buckets ==> ix.directory[h] == NoPage
    ensures ix.store.pages == map[] && ix.store.next == 0 && ix.store.reserve == reserve
  {
    Index(seq(Buckets, _ => NoPage), Store(map[], 0, reserve))
  }

  /** The result of a step that indexes the directory with a bucket. A
      negative bucket reads outside `PageDirectory`, which is undefined in
      the source and an error here. */
  datatype Outcome<T> = Done(value: T) | OutOfRange

  /** The first half of the per-record step of `createFromFile`
      (classes.h:321-333): an unassigned bucket gets the next page number
      from the allocator and an empty page is written there. */
  function Claim(ix: Index, h: int): (jx: Index)
    requires Valid(ix) && 0 <= h < Buckets
    ensures Valid(jx)
    ensures jx.directory[h] != NoPage
    ensures ix.directory[h] != NoPage ==> jx == ix
    ensures ix.directory[h] == NoPage ==>
              && jx.directory == ix.directory[h := ix.store.next]
              && jx.store == Store(ix.store.pages[ix.store.next := EmptyPageWith(ix.store.reserve)],
                                   ix.store.next + 1, ix.store.reserve)
  {
    if ix.directory[h] != NoPage then ix
    else
      var p := EmptyPageWith(ix.store.reserve);
      assert Settled(ix.store.reserve, p) && p.overflow == NoPage && p.records == [] by {
        EmptyPageAccounted(ix.store.reserve);
      }
      Allocate(ix, h, p)
  }

  /** Bucket `h` gets page `nextFreePage`, which holds `p`, and the
      allocator moves on. */
  function Allocate(ix: Index, h: int, p: Page): (jx: Index)
    requires Valid(ix) && 0 <= h < Buckets && ix.directory[h] == NoPage
    requires Settled(ix.store.reserve, p) && p.overflow == NoPage && p.records == []
    ensures Valid(jx)
    ensures jx.directory == ix.directory[h := ix.store.next]
    ensures jx.store == Store(ix.store.pages[ix.store.next := p], ix.store.next + 1, ix.store.reserve)
  {
    var jx := Index(ix.directory[h := ix.store.next],
                    Store(ix.store.pages[ix.store.next := p], ix.store.next + 1, ix.store.reserve));
    ClaimValid(ix, h, p, jx);
    jx
  }

  /** The whole per-record step of `createFromFile` (classes.h:321-338):
      make sure the bucket has a head page, then `addRecordToIndex` from
      it. */
  function Ingest(ix: Index, r: Record): (res: Outcome<Index>)
    requires Valid(ix)
    ensures res.OutOfRange? <==> Bucket(r.id) < 0
    ensures res.Done? ==> Valid(res.value) && res.value.store.reserve == ix.store.reserve
    ensures res.Done? ==> ix.store.next <= res.value.store.next <= ix.store.next + 2
  {
    var h := Bucket(r.id);
    if h < 0 then OutOfRange
    else
      var jx := Claim(ix, h);
      var kx := Index(jx.directory, AddFrom(jx.store, jx.directory[h], r));
      AddValid(jx, h, r);
      Done(kx)
  }

  /** `findAndPrintEmployee`'s lookup (classes.h:345-362): an unassigned
      bucket answers not found without reading any page; otherwise the
      bucket's chain is searched. */
  function FindEmployee(ix: Index, id: Int32): (res: Outcome<Lookup>)
    requires Valid(ix)
    ensures res.OutOfRange? <==> Bucket(id) < 0
    ensures res.Done? ==> res.value.visited <= BucketChain(ix, Bucket(id))
    ensures res.Done? && ix.directory[Bucket(id)] == NoPage ==> res.value == Lookup(None, [])
  {
    var h := Bucket(id);
    if h < 0 then OutOfRange
    else if ix.directory[h] == NoPage then Done(Lookup(None, []))
    else Done(SearchFrom(ix.store, ix.directory[h], id))
  }

  // ---------------------------------------------------------------------
  // The invariant is kept
  // ---------------------------------------------------------------------

  /** The page the allocator hands out next is on no chain. */
  lemma {:induction false} NextNotInChain(s: Store, start: int)
    requires Linked(s) && (start == NoPage || start in s.pages)
    ensures s.next !in Chain(s, start)
  {
  }

  lemma {:induction false} ApartAppend(a: seq<int>, b: seq<int>, n: int)
    requires Apart(a, b) && n !in b
    ensures Apart(a + [n], b)
  {
  }

  lemma {:induction false} ApartAppendRight(a: seq<int>, b: seq<int>, n: int)
    requires Apart(a, b) && n !in a
    ensures Apart(a, b + [n])
  {
  }

  /** Claiming a page for an unassigned bucket keeps the invariant. */
  lemma {:induction false} ClaimValid(ix: Index, h: int, p: Page, jx: Index)
    requires Valid(ix) && 0 <= h < Buckets && ix.directory[h] == NoPage
    requires Settled(ix.store.reserve, p) && p.overflow == NoPage && p.records == []
    requires jx == Index(ix.directory[h := ix.store.next],
                         Store(ix.store.pages[ix.store.next := p], ix.store.next + 1, ix.store.reserve))
    ensures Valid(jx)
  {
    ClaimHeaded(ix, h, p);
    forall g, f | 0 <= g < Buckets && 0 <= f < Buckets && g != f
      ensures Apart(BucketChain(jx, g), BucketChain(jx, f))
    {
      ClaimApart(ix, h, p, jx, g, f);
    }
  }

  lemma {:induction false} ClaimHeaded(ix: Index, h: int, p: Page)
    requires Headed(ix) && 0 <= h < Buckets && ix.directory[h] == NoPage
    requires Settled(ix.store.reserve, p) && p.overflow == NoPage
    ensures Headed(Index(ix.directory[h := ix.store.next],
                         Store(ix.store.pages[ix.store.next := p], ix.store.next + 1, ix.store.reserve)))
  {
    LinkedAfterAllocate(ix.store, p);
  }

  /** One pair of buckets stays apart across a claim. */
  lemma {:induction false} ClaimApart(ix: Index, h: int, p: Page, jx: Index, g: int, f: int)
    requires Valid(ix) && 0 <= h < Buckets && ix.directory[h] == NoPage
    requires Settled(ix.store.reserve, p) && p.overflow == NoPage && p.records == []
    requires jx == Index(ix.directory[h := ix.store.next],
                         Store(ix.store.pages[ix.store.next := p], ix.store.next + 1, ix.store.reserve))
    requires Headed(jx) && 0 <= g < Buckets && 0 <= f < Buckets && g != f
    ensures Apart(BucketChain(jx, g), BucketChain(jx, f))
  {
    ClaimChain(ix, h, p, jx, g);
    ClaimChain(ix, h, p, jx, f);
    if g == h {
      NextNotInChain(ix.store, ix.directory[f]);
    } else if f == h {
      NextNotInChain(ix.store, ix.directory[g]);
    } else {
      assert Apart(BucketChain(ix, g), BucketChain(ix, f));
    }
  }

  /** After claiming, bucket `h` is the new page alone and every other
      bucket keeps its chain. */
  lemma {:induction false} ClaimChain(ix: Index, h: int, p: Page, jx: Index, g: int)
    requires Headed(ix) && 0 <= h < Buckets && ix.directory[h] == NoPage && 0 <= g < Buckets
    requires Settled(ix.store.reserve, p) && p.overflow == NoPage && p.records == []
    requires jx == Index(ix.directory[h := ix.store.next],
                         Store(ix.store.pages[ix.store.next := p], ix.store.next + 1, ix.store.reserve))
    requires Headed(jx)
    ensures BucketChain(jx, g) == if g == h then [ix.store.next] else BucketChain(ix, g)
    ensures BucketRecords(jx, g) == if g == h then [] else BucketRecords(ix, g)
  {
    var s, t := ix.store, jx.store;
    if g == h {
      assert Chain(t, s.next) == [s.next] + Chain(t, NoPage);
      assert ChainRecords(t, s.next) == [] + ChainRecords(t, NoPage);
    } else {
      NextNotInChain(s, ix.directory[g]);
      ChainFrame(s, t, ix.directory[g]);
    }
  }

  /** Adding from an assigned head keeps the invariant: the other chains
      share no page with this one, so the insert leaves them alone, and the
      only page it may add is new. */
  lemma {:induction false} AddValid(jx: Index, h: int, r: Record)
    requires Valid(jx) && 0 <= h < Buckets && jx.directory[h] != NoPage
    ensures Valid(Index(jx.directory, AddFrom(jx.store, jx.directory[h], r)))
  {
    var kx := Index(jx.directory, AddFrom(jx.store, jx.directory[h], r));
    assert Headed(kx);
    forall g, f | 0 <= g < Buckets && 0 <= f < Buckets && g != f
      ensures Apart(BucketChain(kx, g), BucketChain(kx, f))
    {
      assert Apart(BucketChain(jx, g), BucketChain(jx, f));
      AddApart(jx, h, r, g, f);
    }
  }

  /** One pair of buckets stays apart across an insert into bucket `h`. */
  lemma {:induction false} AddApart(jx: Index, h: int, r: Record, g: int, f: int)
    requires Valid(jx) && 0 <= h < Buckets && jx.directory[h] != NoPage
    requires 0 <= g < Buckets && 0 <= f < Buckets && g != f
    requires Headed(Index(jx.directory, AddFrom(jx.store, jx.directory[h], r)))
    ensures Apart(BucketChain(Index(jx.directory, AddFrom(jx.store, jx.directory[h], r)), g),
                  BucketChain(Index(jx.directory, AddFrom(jx.store, jx.directory[h], r)), f))
  {
    var kx := Index(jx.directory, AddFrom(jx.store, jx.directory[h], r));
    var n := jx.store.next;
    assert Apart(BucketChain(jx, g), BucketChain(jx, f));
    AddBucketChain(jx, h, r, g);
    AddBucketChain(jx, h, r, f);
    if g == h {
      NextNotInChain(jx.store, jx.directory[f]);
      ApartAppend(BucketChain(jx, g), BucketChain(jx, f), n);
    } else if f == h {
      NextNotInChain(jx.store, jx.directory[g]);
      ApartAppendRight(BucketChain(jx, g), BucketChain(jx, f), n);
    }
  }

  /** The chain of bucket `g` after an insert into bucket `h`: unchanged
      for another bucket, and for `h` itself unchanged or extended by the
      page the allocator hands out. */
  lemma {:induction false} AddBucketChain(jx: Index, h: int, r: Record, g: int)
    requires Valid(jx) && 0 <= h < Buckets && jx.directory[h] != NoPage && 0 <= g < Buckets
    requires Headed(Index(jx.directory, AddFrom(jx.store, jx.directory[h], r)))
    ensures var kx := Index(jx.directory, AddFrom(jx.store, jx.directory[h], r));
            if g != h then
              && BucketChain(kx, g) == BucketChain(jx, g)
              && BucketRecords(kx, g) == BucketRecords(jx, g)
            else
              || BucketChain(kx, g) == BucketChain(jx, g)
              || BucketChain(kx, g) == BucketChain(jx, g) + [jx.store.next]
  {
    var s := jx.store;
    var t := AddFrom(s, jx.directory[h], r);
    if g != h {
      assert Apart(BucketChain(jx, g), BucketChain(jx, h));
      AddElsewhere(s, jx.directory[h], r, jx.directory[g]);
    } else {
      AddChain(s, jx.directory[h], r);
    }
  }

  /** An insert from `cur` leaves a chain that shares no page with `cur`'s
      as it was, pages and records. */
  lemma {:induction false} AddElsewhere(s: Store, cur: int, r: Record, start: int)
    requires Linked(s) && cur in s.pages && (start == NoPage || start in s.pages)
    requires Apart(Chain(s, start), Chain(s, cur))
    ensures Chain(AddFrom(s, cur, r), start) == Chain(s, start)
    ensures ChainRecords(AddFrom(s, cur, r), start) == ChainRecords(s, start)
  {
    var t := AddFrom(s, cur, r);
    var c := Chain(s, start);
    forall k | k in c
      ensures k in t.pages && t.pages[k] == s.pages[k]
    {
      var i :| 0 <= i < |c| && c[i] == k;
      assert c[i] !in Chain(s, cur);
    }
    ChainFrame(s, t, start);
  }

  // ---------------------------------------------------------------------
  // What one step of createFromFile does to the buckets
  // ---------------------------------------------------------------------

  /** Claiming a head changes no bucket's records (the new head is empty)
      and no other bucket's chain, and allocates a page exactly when the
      bucket was unassigned. */
  lemma {:induction false} ClaimKeepsRecords(ix: Index, h: int, g: int)
    requires Valid(ix) && 0 <= h < Buckets && 0 <= g < Buckets
    ensures BucketRecords(Claim(ix, h), g) == BucketRecords(ix, g)
    ensures g != h ==> BucketChain(Claim(ix, h), g) == BucketChain(ix, g)
    ensures ix.directory[h] != NoPage ==> BucketChain(Claim(ix, h), h) == BucketChain(ix, h)
    ensures ix.directory[h] == NoPage ==> BucketChain(Claim(ix, h), h) == [ix.store.next]
  {
    var jx := Claim(ix, h);
    if ix.directory[h] == NoPage {
      var p := EmptyPageWith(ix.store.reserve);
      assert Settled(ix.store.reserve, p) && p.overflow == NoPage && p.records == [] by {
        EmptyPageAccounted(ix.store.reserve);
      }
      assert jx == Index(ix.directory[h := ix.store.next],
                         Store(ix.store.pages[ix.store.next := p], ix.store.next + 1, ix.store.reserve));
      ClaimChain(ix, h, p, jx, g);
      assert BucketRecords(ix, h) == [];
    }
  }

  /** A record that fits an empty page is stored in its bucket: the
      bucket's records are the old ones with the new one inserted among
      them, at most `Slack` of its trailing bytes zeroed. */
  lemma {:induction false} IngestPlacesRecord(ix: Index, r: Record)
    requires Valid(ix) && 0 <= Bucket(r.id) && Size(r) <= Capacity(ix.store.reserve)
    ensures InsertedKept(BucketRecords(ix, Bucket(r.id)),
                         BucketRecords(Ingest(ix, r).value, Bucket(r.id)), r, Slack(ix.store.reserve))
  {
    var h := Bucket(r.id);
    var jx := Claim(ix, h);
    ClaimKeepsRecords(ix, h, h);
    AddPlacesRecord(jx.store, jx.directory[h], r);
  }

  /** A record too large for an empty page is lost: its bucket keeps its
      records, yet the index file grows by a page. */
  lemma {:induction false} IngestDropsOversized(ix: Index, r: Record)
    requires Valid(ix) && 0 <= Bucket(r.id) && Size(r) > Capacity(ix.store.reserve)
    ensures BucketRecords(Ingest(ix, r).value, Bucket(r.id)) == BucketRecords(ix, Bucket(r.id))
    ensures Ingest(ix, r).value.store.next > ix.store.next
  {
    var h := Bucket(r.id);
    var jx := Claim(ix, h);
    ClaimKeepsRecords(ix, h, h);
    AddDropsOversized(jx.store, jx.directory[h], r);
  }

  /** Ingesting a record leaves every other bucket's chain and records as
      they were. */
  lemma {:induction false} IngestKeepsOthers(ix: Index, r: Record, g: int)
    requires Valid(ix) && 0 <= Bucket(r.id) && 0 <= g < Buckets && g != Bucket(r.id)
    ensures BucketChain(Ingest(ix, r).value, g) == BucketChain(ix, g)
    ensures BucketRecords(Ingest(ix, r).value, g) == BucketRecords(ix, g)
  {
    var h := Bucket(r.id);
    var jx := Claim(ix, h);
    ClaimKeepsRecords(ix, h, g);
    AddBucketChain(jx, h, r, g);
  }

  /** The only pages of the file an ingest rewrites are those of the
      record's bucket chain; every other page keeps its contents. */
  lemma {:induction false} IngestFrame(ix: Index, r: Record)
    requires Valid(ix) && 0 <= Bucket(r.id)
    ensures forall k :: k in ix.store.pages && k !in BucketChain(ix, Bucket(r.id)) ==>
              k in Ingest(ix, r).value.store.pages
              && Ingest(ix, r).value.store.pages[k] == ix.store.pages[k]
  {
    var h := Bucket(r.id);
    var jx := Claim(ix, h);
    ClaimKeepsRecords(ix, h, h);
    assert ix.store.next !in ix.store.pages;
  }

  // ---------------------------------------------------------------------
  // Lookup
  // ---------------------------------------------------------------------

  /** The lookup answers with the first record carrying the id among the
      records of its bucket, in chain order. */
  lemma {:induction false} FindFirst(ix: Index, id: Int32)
    requires Valid(ix) && 0 <= Bucket(id)
    ensures FindEmployee(ix, id).value.found == FirstWithId(BucketRecords(ix, Bucket(id)), id)
  {
    var h := Bucket(id);
    if ix.directory[h] != NoPage {
      SearchFindsFirst(ix.store, ix.directory[h], id);
    }
  }

  /** Every record of a bucket hashes to that bucket. */
  ghost predicate Placed(ix: Index)
  {
    && Valid(ix)
    && forall h, rec :: 0 <= h < Buckets && rec in BucketRecords(ix, h) ==> Bucket(rec.id) == h
  }

  /** Some bucket holds a record carrying `id`. */
  ghost predicate HasId(ix: Index, id: int)
    requires Headed(ix)
  {
    exists h, rec :: 0 <= h < Buckets && rec in BucketRecords(ix, h) && rec.id == id
  }

  /** With every record in its own bucket, the lookup finds a record
      exactly when the index holds one with that id, and a record it finds
      carries the id. */
  lemma {:induction false} FoundIffHeld(ix: Index, id: Int32)
    requires Placed(ix) && 0 <= Bucket(id)
    ensures FindEmployee(ix, id).value.found.Some? <==> HasId(ix, id)
    ensures FindEmployee(ix, id).value.found.Some? ==> FindEmployee(ix, id).value.found.value.id == id
  {
    var h := Bucket(id);
    FindFirst(ix, id);
    var rs := BucketRecords(ix, h);
    if HasId(ix, id) {
      var g, rec :| 0 <= g < Buckets && rec in BucketRecords(ix, g) && rec.id == id;
      assert g == h;
      var i :| 0 <= i < |rs| && rs[i] == rec;
      assert rs[i].id == id;
    } else {
      forall k | 0 <= k < |rs|
        ensures rs[k].id != id
      {
        assert rs[k] in BucketRecords(ix, h);
      }
    }
  }

  /** `ys` holds the records of `xs` and `r`, and nothing else. */
  lemma {:induction false} InsertedMembers(xs: seq<Record>, ys: seq<Record>, r: Record)
    requires InsertedSomewhere(xs, ys, r)
    ensures r in ys
    ensures forall x :: x in xs ==> x in ys
    ensures forall y :: y in ys ==> y in xs || y == r
  {
    var i :| 0 <= i <= |xs| && ys == xs[..i] + [r] + xs[i..];
    assert xs == xs[..i] + xs[i..];
  }

  /** Ingesting keeps every record in its own bucket. */
  lemma {:induction false} IngestKeepsPlaced(ix: Index, r: Record)
    requires Placed(ix) && 0 <= Bucket(r.id)
    ensures Placed(Ingest(ix, r).value)
  {
    var h := Bucket(r.id);
    var jx := Ingest(ix, r).value;
    forall g, rec | 0 <= g < Buckets && rec in BucketRecords(jx, g)
      ensures Bucket(rec.id) == g
    {
      if g != h {
        IngestKeepsOthers(ix, r, g);
      } else if Size(r) <= Capacity(ix.store.reserve) {
        IngestPlacesRecord(ix, r);
        var r2 :| KeptUpTo(r2, r, Slack(ix.store.reserve))
                  && InsertedSomewhere(BucketRecords(ix, h), BucketRecords(jx, h), r2);
        KeptFields(r2, r, Slack(ix.store.reserve));
        InsertedMembers(BucketRecords(ix, h), BucketRecords(jx, h), r2);
      } else {
        IngestDropsOversized(ix, r);
      }
    }
  }

  /** `r` is in the bucket its id hashes to, as the index file reads it
      back: with at most the reserve's slack of trailing bytes zeroed. */
  ghost predicate Stored(ix: Index, r: Record)
  {
    && Valid(ix) && 0 <= Bucket(r.id)
    && exists r2 :: r2 in BucketRecords(ix, Bucket(r.id)) && KeptUpTo(r2, r, Slack(ix.store.reserve))
  }

  /** A stored record stays stored: ingesting never removes a record. */
  lemma {:induction false} IngestKeepsStored(ix: Index, r: Record, q: Record)
    requires Stored(ix, q) && 0 <= Bucket(r.id)
    ensures Stored(Ingest(ix, r).value, q)
  {
    var h := Bucket(r.id);
    var jx := Ingest(ix, r).value;
    var q2 :| q2 in BucketRecords(ix, Bucket(q.id)) && KeptUpTo(q2, q, Slack(ix.store.reserve));
    if Bucket(q.id) != h {
      IngestKeepsOthers(ix, r, Bucket(q.id));
    } else if Size(r) <= Capacity(ix.store.reserve) {
      IngestPlacesRecord(ix, r);
      var r2 :| KeptUpTo(r2, r, Slack(ix.store.reserve))
                && InsertedSomewhere(BucketRecords(ix, h), BucketRecords(jx, h), r2);
      InsertedMembers(BucketRecords(ix, h), BucketRecords(jx, h), r2);
    } else {
      IngestDropsOversized(ix, r);
    }
    assert q2 in BucketRecords(jx, Bucket(q.id));
  }

  /** A record that fits an empty page is stored once ingested. */
  lemma {:induction false} IngestStores(ix: Index, r: Record)
    requires Valid(ix) && 0 <= Bucket(r.id) && Size(r) <= Capacity(ix.store.reserve)
    ensures Stored(Ingest(ix, r).value, r)
  {
    var h := Bucket(r.id);
    var jx := Ingest(ix, r).value;
    IngestPlacesRecord(ix, r);
    var r2 :| KeptUpTo(r2, r, Slack(ix.store.reserve))
              && InsertedSomewhere(BucketRecords(ix, h), BucketRecords(jx, h), r2);
    InsertedMembers(BucketRecords(ix, h), BucketRecords(jx, h), r2);
  }

  /** With the full 8-byte reserve a stored record is held exactly as
      given. */
  lemma {:induction false} StoredExactly(ix: Index, r: Record)
    requires Stored(ix, r) && ix.store.reserve == Reserve
    ensures r in BucketRecords(ix, Bucket(r.id))
  {
    var r2 :| r2 in BucketRecords(ix, Bucket(r.id)) && KeptUpTo(r2, r, Slack(ix.store.reserve));
    KeptExactly(r2, r);
  }

  /** A lookup for a stored record's id finds a record with that id. */
  lemma {:induction false} StoredIsFound(ix: Index, r: Record)
    requires Stored(ix, r)
    ensures FindEmployee(ix, r.id).Done?
    ensures FindEmployee(ix, r.id).value.found.Some?
    ensures FindEmployee(ix, r.id).value.found.value.id == r.id
  {
    var rs := BucketRecords(ix, Bucket(r.id));
    var r2 :| r2 in rs && KeptUpTo(r2, r, Slack(ix.store.reserve));
    KeptFields(r2, r, Slack(ix.store.reserve));
    FindFirst(ix, r.id);
    var i :| 0 <= i < |rs| && rs[i] == r2;
    assert rs[i].id == r.id;
  }

  /** Lookup after insert: right after a record that fits is ingested, a
      lookup of its id succeeds. */
  lemma {:induction false} FoundAfterIngest(ix: Index, r: Record)
    requires Valid(ix) && 0 <= Bucket(r.id) && Size(r) <= Capacity(ix.store.reserve)
    ensures FindEmployee(Ingest(ix, r).value, r.id).value.found.Some?
  {
    IngestStores(ix, r);
    StoredIsFound(Ingest(ix, r).value, r);
  }

  // ---------------------------------------------------------------------
  // createFromFile over a whole sequence of records
  // ---------------------------------------------------------------------

  /** `createFromFile` (classes.h:296-340) after the CSV text has become
      `rs`: ingest the records in order. A record whose bucket is negative
      stops the build, since the source indexes outside `PageDirectory`
      there. */
  function Build(ix: Index, rs: seq<Record>): (res: Outcome<Index>)
    requires Valid(ix)
    ensures res.OutOfRange? <==> exists i :: 0 <= i < |rs| && Bucket(rs[i].id) < 0
    ensures res.Done? ==> Valid(res.value) && ix.store.next <= res.value.store.next
    ensures res.Done? ==> res.value.store.reserve == ix.store.reserve
    decreases |rs|
  {
    if |rs| == 0 then Done(ix)
    else
      match Ingest(ix, rs[0])
      case OutOfRange => OutOfRange
      case Done(jx) =>
        var res := Build(jx, rs[1..]);
        assert forall i :: 0 < i < |rs| ==> rs[i] == rs[1..][i - 1];
        res
  }

  /** The constructor followed by `createFromFile`, with the source's
      initial `cur_size` of 4. */
  function CreateFromFile(rs: seq<Record>): (res: Outcome<Index>)
    ensures res.OutOfRange? <==> exists i :: 0 <= i < |rs| && Bucket(rs[i].id) < 0
    ensures res.Done? ==> Valid(res.value) && res.value.store.reserve == SourceReserve
  {
    Build(Init(SourceReserve), rs)
  }

  /** The loop of `createFromFile`, one record at a time: compute the
      bucket, give an unassigned bucket its head page, then run
      `addRecordToIndex` from the head. */
  method CreateFromRecords(rs: seq<Record>) returns (res: Outcome<Index>)
    ensures res == CreateFromFile(rs)
  {
    var ix := Init(SourceReserve);
    var i := 0;
    while i < |rs|
      invariant 0 <= i <= |rs| && Valid(ix)
      invariant Build(ix, rs[i..]) == CreateFromFile(rs)
    {
      var r := rs[i];
      assert rs[i..][0] == r && rs[i..][1..] == rs[i + 1..];
      var h := Bucket(r.id);
      if h < 0 {
        return OutOfRange;
      }
      var jx := Claim(ix, h);
      var t := AddRecordToIndex(jx.store, jx.directory[h], r);
      ix := Index(jx.directory, t);
      i := i + 1;
    }
    assert rs[i..] == [];
    return Done(ix);
  }

  /** The empty index keeps every record in its own bucket. */
  lemma {:induction false} InitPlaced(reserve: int)
    requires SourceReserve <= reserve <= Reserve
    ensures Placed(Init(reserve))
  {
    forall h | 0 <= h < Buckets
      ensures BucketRecords(Init(reserve), h) == []
    {
    }
  }

  /** A stored record stays stored through the rest of the build. */
  lemma {:induction false} BuildKeepsStored(ix: Index, rs: seq<Record>, q: Record)
    requires Stored(ix, q) && Build(ix, rs).Done?
    ensures Stored(Build(ix, rs).value, q)
    decreases |rs|
  {
    if |rs| > 0 {
      IngestKeepsStored(ix, rs[0], q);
      BuildKeepsStored(Ingest(ix, rs[0]).value, rs[1..], q);
    }
  }

  /** A completed build stores every record it was given that fits an
      empty page. */
  lemma {:induction false} BuildStores(ix: Index, rs: seq<Record>)
    requires Valid(ix) && Build(ix, rs).Done?
    ensures forall i :: 0 <= i < |rs| && Size(rs[i]) <= Capacity(ix.store.reserve) ==>
              Stored(Build(ix, rs).value, rs[i])
    decreases |rs|
  {
    if |rs| > 0 {
      var jx := Ingest(ix, rs[0]).value;
      BuildStores(jx, rs[1..]);
      forall i | 0 <= i < |rs| && Size(rs[i]) <= Capacity(ix.store.reserve)
        ensures Stored(Build(ix, rs).value, rs[i])
      {
        if i == 0 {
          IngestStores(ix, rs[0]);
          BuildKeepsStored(jx, rs[1..], rs[0]);
        } else {
          assert rs[i] == rs[1..][i - 1];
        }
      }
    }
  }

  /** A completed build keeps every record in its own bucket. */
  lemma {:induction false} BuildPlaced(ix: Index, rs: seq<Record>)
    requires Placed(ix) && Build(ix, rs).Done?
    ensures Placed(Build(ix, rs).value)
    decreases |rs|
  {
    if |rs| > 0 {
      IngestKeepsPlaced(ix, rs[0]);
      BuildPlaced(Ingest(ix, rs[0]).value, rs[1..]);
    }
  }

  /** After a completed `createFromFile`, looking up the id of any record
      of the input that fits an empty page (4084 bytes) finds a record
      with that id. */
  lemma {:induction false} CreatedFinds(rs: seq<Record>, i: int)
    requires CreateFromFile(rs).Done? && 0 <= i < |rs| && Size(rs[i]) <= Capacity(SourceReserve)
    ensures FindEmployee(CreateFromFile(rs).value, rs[i].id).value.found.Some?
    ensures FindEmployee(CreateFromFile(rs).value, rs[i].id).value.found.value.id == rs[i].id
  {
    BuildStores(Init(SourceReserve), rs);
    StoredIsFound(CreateFromFile(rs).value, rs[i]);
  }

  /** After a completed `createFromFile`, every record of the input that
      fits an empty page is in its bucket with at most its last four bytes
      zeroed; with the full 8-byte reserve it is there exactly as given. */
  lemma {:induction false} CreatedHolds(reserve: int, rs: seq<Record>, i: int)
    requires SourceReserve <= reserve <= Reserve
    requires Build(Init(reserve), rs).Done? && 0 <= i < |rs| && Size(rs[i]) <= Capacity(reserve)
    ensures Stored(Build(Init(reserve), rs).value, rs[i])
    ensures reserve == Reserve ==>
              rs[i] in BucketRecords(Build(Init(reserve), rs).value, Bucket(rs[i].id))
  {
    BuildStores(Init(reserve), rs);
    if reserve == Reserve {
      StoredExactly(Build(Init(reserve), rs).value, rs[i]);
    }
  }

  /** After a completed `createFromFile`, a lookup finds a record exactly
      when the index holds one with the id. */
  lemma {:induction false} CreatedFoundIffHeld(rs: seq<Record>, id: Int32)
    requires CreateFromFile(rs).Done? && 0 <= Bucket(id)
    ensures FindEmployee(CreateFromFile(rs).value, id).value.found.Some?
            <==> HasId(CreateFromFile(rs).value, id)
  {
    InitPlaced(SourceReserve);
    BuildPlaced(Init(SourceReserve), rs);
    FoundIffHeld(CreateFromFile(rs).value, id);
  }
}
