# Static hash index over slotted pages — a Dafny model

This project models the core of a small static hash index over employee
records, written in C++ in `classes.h`. It has three layers.

- **Record codec (`Codec`).** An employee `Record` has an id, a manager id,
  a name and a bio. `get_size` gives its byte size. `serialize` lays it out
  as `id(4) | manager_id(4) | name_len(4) | name | bio_len(4) | bio`. The
  decoder inlined in `read_from_data_file` reads it back. A C++ `int` is an
  `Int32`, written as four little-endian two's-complement bytes.
- **Slotted page (`SlottedPage`).** A `Page` holds records, a slot
  directory of `(offset, length)` pairs, the running size estimate
  `cur_size`, and an overflow pointer.
  - `insert_record_into_page` does the capacity test and the accounting.
  - `write_into_data_file` packs the records from offset 0 of a 4096-byte
    block. It writes a trailer at the end: the overflow pointer at 4092,
    the slot count at 4088, and slot `i` of `n` at `4088 - 8 * (n - i)`.
  - `read_from_data_file` decodes such a block.
- **Hash index (`Chains`, `HashIndex`, `IndexFile`).**
  - `compute_hash_value` is C++'s truncating `id % 256`.
  - There is a 256-entry `PageDirectory` of chain heads with sentinel `-1`,
    and a `nextFreePage` allocator.
  - `addRecordToIndex` walks a bucket's overflow chain to the first page
    with room. When there is none, it links a fresh page.
  - `searchRecordByIdInPage` walks the chain and returns the first record
    with the id.
  - The per-record step of `createFromFile` claims a head page for an
    unassigned bucket and then adds the record.
  - `findAndPrintEmployee` decides between "not found" and a chain search.

The index file is a map from page numbers to pages (`Chains.Store`).
`IndexFile` shows that this map is a faithful view of the byte file: page
`k` is the block at byte `4096 * k`, and reading it gives back exactly page
`k`.

The invariant `Chains.Linked` says:
- every page below the allocator exists and is settled: its `cur_size` is
  counted from the store's reserve, its slots locate its packed records,
  the capacity test admits it, and it equals what its block reads back as;
- every overflow pointer is `-1` or a later page number.

The store carries the initial `cur_size`, the reserve. The source starts
`cur_size` at 4 (classes.h:63, 68, 190), so the largest record an empty
page takes is `SlottedPage.Capacity(4) == 4084` bytes. The trailer is 8
bytes, though. When the records and the slot entries of a page total more
than 4088 bytes (at most 4092 pass the test), slot 0's entry is written
over the last bytes of the last record. Slot 0's offset is 0, so those
bytes read back as zeros. The model follows the code: a page is stored as
`SlottedPage.Settle` of what was inserted, the page its block reads back
as. A stored record is therefore the inserted one with at most its last
`SlottedPage.Slack(4) == 4` bytes zeroed (`Codec.KeptUpTo`). With an
8-byte reserve, `Capacity(8) == 4080`, nothing is zeroed, and the same
lemmas give exact membership.

Chains therefore terminate: every walk decreases `nextFreePage - page`.
`HashIndex.Valid` adds that two buckets never share a page.

`Scenario` works one concrete example through the model. Ids 1 and 257
both hash to bucket 1, and id 2 hashes to bucket 2. The three records are
small, so ids 1 and 257 share the head page and no overflow page is
allocated.

## Model

| member | source | states |
|---|---|---|
| Codec.Narrow | classes.h:39-40 | `int n = s.size()` keeps the low 32 bits of the length, and is the length itself when the length is below 2^31 |
| Codec.Serialize | classes.h:31-46 | the serialized bytes are exactly `get_size` long, which is the equality the page-capacity test relies on |
| Codec.SerializeFields | classes.h:35-46 | the id, manager id, name length, name, bio length and bio sit at offsets 0, 4, 8, 12, 12+n and 16+n of the serialized bytes |
| Codec.DecodeEncodeInt32 | classes.h:156-164 | reading four bytes written from a signed `int` gives back that `int` |
| Codec.EncodeDecodeInt32 | classes.h:156-164 | any four bytes are the encoding of the `int` read from them |
| Codec.DecodeAt | classes.h:153-187 | a record decoded at `off` lies wholly inside the block, and its string lengths fit in an `int` |
| Codec.DecodeSerialized | classes.h:153-187 | encode then decode: a record whose serialized bytes sit at `off` is read back unchanged, whatever surrounds it |
| Codec.DecodedReserializes | classes.h:153-187 | decode then encode: a record read at `off` re-serializes to exactly the bytes it was read from |
| Codec.RecordInData | classes.h:79-83 | in records packed back to back, record `i` occupies the bytes from the sum of the earlier sizes onward, for its own size |
| SlottedPage.EmptyPageAccounted | classes.h:63-70 | a new or cleared page holds nothing, ends its chain, keeps the `cur_size` accounting of its reserve, and is settled when the reserve is within the block |
| SlottedPage.Insert | classes.h:72-91 | insertion fails exactly when `cur_size + size + 8 > 4096` and then changes nothing; on success the record is appended, the overflow pointer is kept, and `cur_size` stays within the page |
| SlottedPage.InsertAccounting | classes.h:79-87 | a successful insert appends the slot `(sum of earlier sizes, size)` and raises `cur_size` by `size + 8`, so `cur_size == reserve + sum(size_i + 8)` is preserved |
| SlottedPage.InsertKeepsPacked | classes.h:79-87 | insertion keeps every slot pointing at its record in the packed data |
| SlottedPage.InsertSettles | classes.h:72-196 | an insert into a stored page, as its block reads back, keeps the page's records in front, appends the record with at most `Slack(reserve)` trailing bytes zeroed, keeps the overflow pointer, and yields a stored page again |
| SlottedPage.InsertIntoEmpty | classes.h:72-91 | an empty page with `cur_size` starting at `reserve` takes a record of at most `Capacity(reserve)` bytes (4084 for the source's 4) as slot `(0, size)` and refuses anything larger, unchanged |
| SlottedPage.InsertRecordIntoPage | classes.h:72-91 | the loop that sums the earlier record sizes computes the same result and page as the insertion function |
| SlottedPage.SpillBound | classes.h:63-120 | the capacity test bounds how far records, slots and the 8-byte trailer run over the block by `8 - reserve`: up to 4 bytes for the source's reserve, never with a reserve of 8 |
| SlottedPage.SettleShape | classes.h:99-120 | zeroing the bytes under slot 0 keeps the page packed and its record sizes, and doing it twice is doing it once |
| SlottedPage.Overwrite | classes.h:100 | `memcpy` into a buffer puts the bytes at the position and leaves every other byte alone |
| SlottedPage.WriteSlots | classes.h:116-120 | the reverse loop puts slot `i` of `n` at `4088 - 8 * (n - i)` and touches nothing outside the slot area |
| SlottedPage.WriteBlock | classes.h:93-123 | the block is 4096 bytes: overflow pointer at 4092, slot count at 4088, slot `i` at `4088 - 8 * (n - i)`, packed data from offset 0 and zeros up to the slot area |
| SlottedPage.RecordBytesAtSlot | classes.h:93-102 | record `i`'s serialized bytes begin at slot `i`'s offset in the block |
| SlottedPage.DecodeRecords | classes.h:153-187 | the records read are exactly those decoded at each slot's offset; the read fails only if some slot's record does not decode |
| SlottedPage.DecodeBlockWith | classes.h:133-193 | a decoded page has one slot per record and `cur_size` recomputed from the reserve; its overflow pointer and slot count are the trailer's |
| SlottedPage.ReadFromDataFile | classes.h:125-196 | a read of fewer than 4096 bytes returns false and leaves the page untouched, and only then; a successful read recounts `cur_size` from the given reserve (4 in the source) |
| SlottedPage.SlotsRoundTrip | classes.h:145-150 | the slot entries read backward from a written block are the page's slots |
| SlottedPage.RecordsRoundTrip | classes.h:152-187 | the records of a packed page decode from any block that starts with its packed data |
| SlottedPage.LayoutDecodes | classes.h:133-193 | any block laid out for a packed page whose trailer fits decodes back to that page |
| SlottedPage.RoundTripWith | classes.h:93-196 | for any reserve, a packed page with `sum(sizes) + 8n + 8 <= 4096` reads back from its block as the same records, slots, overflow pointer and `cur_size` |
| SlottedPage.DecodeWritten | classes.h:93-193 | for a reserve of 4 or more, every packed page the capacity test admits can be written, and its block decodes to the page with the bytes under slot 0's zero offset zeroed in its last record |
| SlottedPage.ReadBack | classes.h:93-196 | `read_from_data_file` after `write_into_data_file` succeeds and yields that settled page, whatever page did the reading and whatever follows the block |
| SlottedPage.RoundTrip | classes.h:93-196 | with an 8-byte reserve, every page the capacity test admits reads back as itself, whatever page did the reading and whatever follows the block in the file |
| SlottedPage.SettledBlock | classes.h:93-123 | writing the page as it was read back produces the same 4096 bytes as writing the page before the read |
| SlottedPage.TrailerOverlapBreaksRoundTrip | classes.h:105-120 | when slot 0 is written over a non-zero byte of the last record, the block does not read back as the page |
| SlottedPage.DecodedRecordAt | classes.h:153-187 | if a block decodes to a page, each slot's offset decodes to that slot's record |
| Chains.Chain | classes.h:265-280 | the pages a walk visits from a head: empty exactly for `-1`, otherwise starting at the head, every page in the file and numbered at least the head |
| Chains.LinkedAfterAllocate | classes.h:325-334 | a settled page written at `nextFreePage` with no overflow, the allocator moved on, keeps the file linked |
| Chains.LinkedAfterExtend | classes.h:234-247 | linking a new page from the allocator at the end of a chain keeps every overflow pointer pointing forward |
| Chains.NewOverflowPage | classes.h:236-238 | the new overflow page is stored as its block reads back and ends its chain |
| Chains.NewOverflowPageRecords | classes.h:236-238 | the new overflow page holds the record, at most `Slack(reserve)` trailing bytes zeroed, if it is at most `Capacity(reserve)` bytes (4084 in the source), and nothing otherwise, the insert's result being ignored |
| Chains.AddFrom | classes.h:210-257 | an insert keeps the file linked and its reserve, moves the allocator by at most one page, and changes no page outside its own chain |
| Chains.AddRecordToIndex | classes.h:217-254 | the read, try, write-or-link-or-move loop computes the same file as the recursive walk |
| Chains.ChainFrame | classes.h:265-280 | a chain whose pages are unchanged between two files walks the same pages and holds the same records |
| Chains.AddChain | classes.h:221-254 | an insert leaves its chain as it was, or extends it by exactly the page the allocator hands out |
| Chains.AddPlacesRecord | classes.h:221-254 | a record of at most `Capacity(reserve)` bytes (4084 in the source) ends up in its chain: the chain's records are the old ones with the record, at most `Slack(reserve)` trailing bytes zeroed, inserted at some position |
| Chains.AddPlacesExactly | classes.h:221-254 | with an 8-byte reserve the inserted record is exactly the one given |
| Chains.AddDropsOversized | classes.h:234-248 | a record larger than `Capacity(reserve)` (4084 in the source) is lost: the chain's records are unchanged, yet one more page is linked |
| Chains.FirstWithId | classes.h:271-276 | the page scan finds nothing exactly when no record has the id, and otherwise finds a record of the page with that id |
| Chains.FirstWithIdAt | classes.h:271-276 | the scan returns the first record carrying the id |
| Chains.SearchFrom | classes.h:259-284 | the walk visits a prefix of the chain, all of it when nothing is found, and a found record is on the last page it read |
| Chains.SearchFindsFirst | classes.h:265-280 | the walk returns the first record with the id among the chain's records, in chain order and then page order |
| Chains.SearchRecordByIdInPage | classes.h:259-284 | the nested loops compute the same answer as the recursive walk |
| Chains.ScanPage | classes.h:271-276 | the inner loop returns the first record of the page carrying the id |
| HashIndex.Bucket | classes.h:206-208 | `id % 256` truncates toward zero: a remainder in (-256, 256) that differs from `id` by a multiple of 256, negative only for a negative `id` and never positive for one |
| HashIndex.BucketOutOfRange | classes.h:206-208 | the bucket is negative, an index outside `PageDirectory`, exactly for negative ids that are not multiples of 256 |
| HashIndex.Init | classes.h:287-293 | the constructor leaves every bucket unassigned and the file empty, which satisfies the index invariant for the given reserve |
| HashIndex.Claim | classes.h:321-335 | an unassigned bucket gets page `nextFreePage`, an empty page is written there and the allocator moves on; an assigned bucket is left alone |
| HashIndex.Ingest | classes.h:321-338 | the per-record step fails exactly for a negative bucket; otherwise it keeps the invariant and raises `nextFreePage` by at most two |
| HashIndex.FindEmployee | classes.h:345-362 | the lookup fails exactly for a negative bucket; an unassigned bucket answers not found without reading a page; pages read are a prefix of the bucket's chain |
| HashIndex.AddBucketChain | classes.h:210-257 | an insert into bucket `h` leaves every other bucket's chain and records alone, and extends `h`'s chain by at most the new page |
| HashIndex.ClaimKeepsRecords | classes.h:325-334 | claiming a head page changes no bucket's records, and only the claimed bucket's chain |
| HashIndex.IngestPlacesRecord | classes.h:321-338 | a record of at most `Capacity(reserve)` bytes (4084 in the source) is added to its bucket's records, at most `Slack(reserve)` trailing bytes zeroed |
| HashIndex.IngestDropsOversized | classes.h:236-238 | a record larger than `Capacity(reserve)` (4084 in the source) leaves its bucket's records as they were, yet the file grows |
| HashIndex.IngestKeepsOthers | classes.h:321-338 | ingesting a record leaves every other bucket's chain and records unchanged |
| HashIndex.IngestFrame | classes.h:321-338 | the only existing pages an ingest rewrites are those on the record's bucket chain |
| HashIndex.FindFirst | classes.h:345-362 | the lookup answers with the first record carrying the id among its bucket's records, in chain order |
| HashIndex.FoundIffHeld | classes.h:345-362 | when every record sits in its own bucket, the lookup finds a record exactly when the index holds one with the id, and what it finds carries the id |
| HashIndex.IngestKeepsPlaced | classes.h:321-338 | ingesting keeps every record in the bucket its id hashes to |
| HashIndex.IngestKeepsStored | classes.h:321-338 | ingesting never removes a stored record |
| HashIndex.IngestStores | classes.h:321-338 | a record of at most `Capacity(reserve)` bytes is stored in its bucket once ingested |
| HashIndex.StoredExactly | classes.h:321-338 | with an 8-byte reserve a stored record is in its bucket exactly as given |
| HashIndex.StoredIsFound | classes.h:345-362 | a lookup of a stored record's id finds a record with that id |
| HashIndex.FoundAfterIngest | classes.h:321-362 | right after a record of at most `Capacity(reserve)` bytes (4084 in the source) is ingested, a lookup of its id succeeds |
| HashIndex.Build | classes.h:305-339 | ingesting a sequence of records fails exactly when one of them has a negative bucket; otherwise the invariant holds and `nextFreePage` never decreases |
| HashIndex.CreateFromFile | classes.h:287-340 | the constructor followed by the build, with `cur_size` counted from 4, fails exactly on a negative bucket and otherwise yields a valid index with that reserve |
| HashIndex.CreateFromRecords | classes.h:305-339 | the record loop of `createFromFile` computes the same index as the recursive build |
| HashIndex.BuildStores | classes.h:305-339 | a completed build stores every input record of at most `Capacity(reserve)` bytes (4084 in the source) |
| HashIndex.BuildPlaced | classes.h:305-339 | a completed build keeps every record in the bucket its id hashes to |
| HashIndex.CreatedFinds | classes.h:295-362 | after `createFromFile`, looking up the id of any input record of at most 4084 bytes finds a record with that id |
| HashIndex.CreatedHolds | classes.h:287-340 | after a build from the empty index, every input record of at most `Capacity(reserve)` bytes is in its bucket with at most `Slack(reserve)` trailing bytes zeroed, and exactly as given with an 8-byte reserve |
| HashIndex.CreatedFoundIffHeld | classes.h:295-362 | after `createFromFile`, a lookup finds a record exactly when the index holds one with the id |
| IndexFile.ConcatBlock | classes.h:223 | in a file of 4096-byte blocks, block `k` is at byte `k * 4096` |
| IndexFile.StoredPageReads | classes.h:224 | every page of the file can be written, and its block reads back as the page whatever follows it, with `cur_size` recounted from the store's reserve |
| IndexFile.ReadPage | classes.h:222-224 | reading from `pageNum * 4096` in the file of all written pages never comes up short and yields exactly that page |
| Scenario.ThreeEmployees | classes.h:321-338 | ids 1 and 257 share bucket 1's head page 0 and id 2 gets page 1: two pages, no overflow |
| Scenario.ThreeEmployeesLookups | classes.h:345-362 | in that index, ids 1, 257 and 2 are each found after reading one page, and id 3 is not found without reading any page |
| SourceFindings.SourceReserveBreaksRoundTrip | classes.h:63-120 | with the source's 4-byte reserve, a record of 4081 to 4084 bytes with a non-zero byte 4080 is accepted by an empty page, but the page does not survive its block |
| SourceFindings.OnePageOverlap | classes.h:105-120 | the one-record page of that case is accounted and writable, and its block does not read back as the page |

## Left out

- `main.cpp`: the interactive console loop, and its narrowing of a 64-bit id to `int`.
- The CSV reading of `createFromFile` (classes.h:296-319): line splitting, `stoi` and its exceptions, and the record count. The model starts from the sequence of parsed records.
- File open, seek and close mechanics, and the `cerr` error paths: the file is a map from page numbers to pages.
- `Record::print` and the console messages of `findAndPrintEmployee`: output only.
- Host endianness: integers are little-endian, and a slot entry is 8 bytes.
- Codec.Size: it is the mathematical sum. For records of 2^31 bytes or more the `int` the source returns wraps, possibly to a negative value that passes the capacity test (classes.h:76) and lets the later `memcpy` run past the page buffer; such records are outside this model.
- Codec.DecodeAt: the source reads through a raw pointer. A negative length or a read past the block is undefined behaviour there and `None` here.
- SlottedPage.DecodeBlockWith: a negative slot count makes `resize` throw (classes.h:146), and a count above 511 reads before the page buffer (classes.h:147-150), which is undefined behaviour; both are `None` here. A successful read that decodes a bad block is `Corrupt`.
- HashIndex.Ingest: a negative bucket reads outside `PageDirectory` in the source (classes.h:321-322), which is undefined behaviour. Here it is the `OutOfRange` outcome, and the build stops.
- HashIndex.FindEmployee: a negative bucket reads outside `PageDirectory` in the source (classes.h:346-347), which is undefined behaviour. Here it is the `OutOfRange` outcome.
- IndexFile.ReadPage: it covers files of fewer than 524288 pages. Beyond that, `pageNum * 4096` overflows `int` in the source.
- Chains.AddFrom, Chains.AddRecordToIndex, HashIndex.Claim and Chains.SearchFrom: every seek computes `pageNum * 4096` as an `int` product (classes.h:223, 229, 242, 246, 267, 331), which overflows from page 524288 on, a 2 GiB file. The model's allocator is unbounded and says nothing about what the source does from that page on; `Build` and `CreateFromFile` inherit this.
- The ignored results of `read_from_data_file` (classes.h:224, 268) are not modelled as a failure path. `IndexFile.ReadPage` shows that such a read never comes up short.

## Findings

| source | as written | input that shows it | evidently intended | confidence | as-written member | corrected member |
|---|---|---|---|---|---|---|
| classes.h:63 | `cur_size` starts at `sizeof(int)`, reserving 4 bytes, and so do `clear` (68) and the recount after a read (190). The block's trailer is 8 bytes (107-114), so the test at line 76 admits pages whose records and slot entries total 4089 to 4092 bytes, and slot 0's entry, offset 0, is written over up to 4 trailing bytes of the last record | an empty page and one record of 4081 to 4084 bytes whose byte 4080 is not zero, e.g. an empty name and a 4068-byte bio of ones: the record reads back with zeros there | start `cur_size` at 8, covering the overflow pointer and the slot count; the model runs on either reserve, and with 8 every page reads back exactly | not executed | SourceFindings.SourceReserveBreaksRoundTrip | SlottedPage.RoundTrip |
