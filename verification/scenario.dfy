/** A worked example: three employees, two of whom share a bucket. */
module Scenario {
  import opened Codec
  import opened SlottedPage
  import opened Chains
  import opened HashIndex

  /** Ids 1 and 257 both hash to bucket 1; id 2 hashes to bucket 2. */
  function A(): Record { Record(1, 0, [65], [98, 105, 111, 49]) }
  function B(): Record { Record(257, 1, [66], [98, 105, 111, 50]) }
  function C(): Record { Record(2, 1, [67], [98, 105, 111, 51]) }

  /** The three small records share bucket 1's head page: no overflow page
      is needed, so the index file holds two pages. */
  lemma {:induction false} ThreeEmployees()
    ensures CreateFromFile([A(), B(), C()]).Done?
    ensures var ix := CreateFromFile([A(), B(), C()]).value;
            && ix.store.next == 2
            && ix.directory[1] == 0 && ix.directory[2] == 1
            && BucketChain(ix, 1) == [0] && BucketRecords(ix, 1) == [A(), B()]
            && BucketChain(ix, 2) == [1] && BucketRecords(ix, 2) == [C()]
            && ix.store.pages[0].records == [A(), B()] && ix.store.pages[0].overflow == NoPage
            && ix.store.pages[1].records == [C()] && ix.store.pages[1].overflow == NoPage
            && ix.directory[3] == NoPage
  {
    var i1 := Ingest(Init(SourceReserve), A()).value;
    var i2 := Ingest(i1, B()).value;
    var i3 := Ingest(i2, C()).value;
    FirstStep();
    SecondStep(i1);
    ThirdStep(i2);
    BuildThree(Init(SourceReserve), A(), B(), C());
  }

  /** A build of three records that all land is the three ingests in a
      row. */
  lemma {:induction false} BuildThree(ix: Index, a: Record, b: Record, c: Record)
    requires Valid(ix) && Ingest(ix, a).Done?
    requires Ingest(Ingest(ix, a).value, b).Done?
    requires Ingest(Ingest(Ingest(ix, a).value, b).value, c).Done?
    ensures Build(ix, [a, b, c]) == Ingest(Ingest(Ingest(ix, a).value, b).value, c)
  {
    var i1 := Ingest(ix, a).value;
    var i2 := Ingest(i1, b).value;
    assert [a, b, c][1..] == [b, c] && [b, c][1..] == [c] && [c][1..] == [];
    BuildStep(ix, [a, b, c]);
    BuildStep(i1, [b, c]);
    BuildStep(i2, [c]);
  }

  /** A build that starts with an ingest that succeeds continues from its
      result. */
  lemma {:induction false} BuildStep(ix: Index, rs: seq<Record>)
    requires Valid(ix) && |rs| > 0 && Ingest(ix, rs[0]).Done?
    ensures Build(ix, rs) == Build(Ingest(ix, rs[0]).value, rs[1..])
  {
  }

  /** Employee 1 claims page 0 for bucket 1 and lands there. */
  lemma {:induction false} FirstStep()
    ensures Ingest(Init(SourceReserve), A()).Done?
    ensures var i1 := Ingest(Init(SourceReserve), A()).value;
            && i1.store.next == 1 && i1.directory[1] == 0 && i1.directory[2] == NoPage
            && i1.store.pages[0].records == [A()] && i1.store.pages[0].overflow == NoPage
            && i1.store.pages[0].curSize == SourceReserve + Size(A()) + SlotSize
            && i1.directory[3] == NoPage
  {
    var jx := Claim(Init(SourceReserve), 1);
    assert Bucket(A().id) == 1;
    InsertIntoEmpty(SourceReserve, A());
    var p := SinglePage(SourceReserve, A());
    assert [A()][..0] == [];
    assert Spill(p) < 0;
    assert Ingest(Init(SourceReserve), A())
        == Done(Index(jx.directory, Store(jx.store.pages[0 := p], 1, SourceReserve)));
  }

  /** Employee 257 joins employee 1 on page 0. */
  lemma {:induction false} SecondStep(i1: Index)
    requires Valid(i1)
    requires i1.store.next == 1 && i1.directory[1] == 0 && i1.directory[2] == NoPage
    requires i1.store.pages[0].records == [A()] && i1.store.pages[0].overflow == NoPage
    requires i1.store.pages[0].curSize == SourceReserve + Size(A()) + SlotSize
    requires i1.directory[3] == NoPage
    ensures Ingest(i1, B()).Done?
    ensures var i2 := Ingest(i1, B()).value;
            && i2.store.next == 1 && i2.directory[1] == 0 && i2.directory[2] == NoPage
            && i2.store.pages[0].records == [A(), B()] && i2.store.pages[0].overflow == NoPage
            && i2.directory[3] == NoPage
  {
  }

  /** Employee 2 claims page 1 for bucket 2. */
  lemma {:induction false} ThirdStep(i2: Index)
    requires Valid(i2)
    requires i2.store.next == 1 && i2.directory[1] == 0 && i2.directory[2] == NoPage
    requires i2.store.pages[0].records == [A(), B()] && i2.store.pages[0].overflow == NoPage
    requires i2.directory[3] == NoPage
    ensures Ingest(i2, C()).Done?
    ensures var i3 := Ingest(i2, C()).value;
            && i3.store.next == 2 && i3.directory[1] == 0 && i3.directory[2] == 1
            && BucketChain(i3, 1) == [0] && BucketRecords(i3, 1) == [A(), B()]
            && BucketChain(i3, 2) == [1] && BucketRecords(i3, 2) == [C()]
            && i3.store.pages[0].records == [A(), B()] && i3.store.pages[0].overflow == NoPage
            && i3.store.pages[1].records == [C()] && i3.store.pages[1].overflow == NoPage
            && i3.directory[3] == NoPage
  {
    var i3 := Ingest(i2, C()).value;
    IngestKeepsOthers(i2, C(), 1);
    IngestFrame(i2, C());
    assert BucketChain(i2, 1) == [0] + Chain(i2.store, NoPage);
    assert BucketRecords(i2, 1) == [A(), B()] + ChainRecords(i2.store, NoPage);
    assert i3.store.pages[1].records == [C()];
    assert BucketChain(i3, 2) == [1] + Chain(i3.store, NoPage);
    assert BucketRecords(i3, 2) == [C()] + ChainRecords(i3.store, NoPage);
  }

  /** The lookups of the example: each employee is found by id on the one
      page it was read from, and an id nobody has is not found without
      reading any page. */
  lemma {:induction false} ThreeEmployeesLookups()
    ensures var ix := CreateFromFile([A(), B(), C()]).value;
            && FindEmployee(ix, 1) == Done(Lookup(Some(A()), [0]))
            && FindEmployee(ix, 257) == Done(Lookup(Some(B()), [0]))
            && FindEmployee(ix, 2) == Done(Lookup(Some(C()), [1]))
            && FindEmployee(ix, 3) == Done(Lookup(None, []))
  {
    ThreeEmployees();
    LookupsIn(CreateFromFile([A(), B(), C()]).value);
  }

  lemma {:induction false} LookupsIn(ix: Index)
    requires Valid(ix) && ix.store.next == 2
    requires ix.directory[1] == 0 && ix.directory[2] == 1
    requires ix.store.pages[0].records == [A(), B()] && ix.store.pages[0].overflow == NoPage
    requires ix.store.pages[1].records == [C()] && ix.store.pages[1].overflow == NoPage
    requires ix.directory[3] == NoPage
    ensures FindEmployee(ix, 1) == Done(Lookup(Some(A()), [0]))
    ensures FindEmployee(ix, 257) == Done(Lookup(Some(B()), [0]))
    ensures FindEmployee(ix, 2) == Done(Lookup(Some(C()), [1]))
    ensures FindEmployee(ix, 3) == Done(Lookup(None, []))
  {
    assert Bucket(1) == 1 && Bucket(257) == 1 && Bucket(2) == 2 && Bucket(3) == 3;
    assert FirstWithId([A(), B()], 257) == Some(B());
  }
}
