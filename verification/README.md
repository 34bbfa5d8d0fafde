# asn-db in Dafny

asn-db maps an IPv4 address to the autonomous system (AS) that announces
it. Its database is built from the `ip2asn-v4.tsv` table published by
IPtoASN. Each row of that table is an address range with an AS number, a
country code and an owner text. The library:

- drops unrouted rows;
- parses the remaining rows;
- cuts each row's range into CIDR blocks, with no block wider than a /8;
- stably sorts the records by base address;
- answers lookups with a binary search plus a floor rule.

A prepared database can be stored to a binary cache file and loaded back.
The file holds the tag `ASDB`, the version `bin1` and the record vector.

The model covers the core of `src/lib.rs`, one module per concern:

| module | file | models |
|---|---|---|
| `Ipv4` | `ipv4.dfy` | 32-bit addresses and `Ipv4Net`: `Contains` masks the address, `Aligned` says the base address has no host bits |
| `Cidr` | `cidr.dfy` | `Ipv4Subnets::new(start, end, 8)` as the function `Subnets`: a range cut into CIDR blocks, each the widest aligned block that fits and at most /8 wide, with prefix lengths computed as ipnet's `next_ipv4_subnet` does |
| `Asn` | `asn.dfy` | `Record`, `Record::network` and the orderings over record sequences |
| `Ingest` | `ingest.dfy` | `read_asn_tsv`: the row filter, field parsing with its error contexts, range expansion, the error-first `flat_map`, and the `collect` into `Result<Vec<_>, _>` |
| `StableSort` | `sort.dfy` | `sort_by_key(|record| record.ip)` as an in-place stable insertion sort on an `array` |
| `Search` | `search.dfy` | `binary_search_by_key` as a `while` loop, and the lookup rule as a specification with its lemmas |
| `Codec` | `codec.dfy` | the payload encoding and its decoder, with a round-trip proof |
| `Streams` | `streams.dfy` | the byte source and sink as classes (`Reader`, `Writer`) |
| `AsnDb` | `db.dfy` | the `Db` class: `form_tsv`, `load`, `store` and `lookup` |
| `Wrappers` | `wrappers.dfy` | `Option` and `Result` |

Three behaviours of the code that a reader might not expect:

- `Record::network` does not reject a record whose base address is
  unaligned. `Ipv4Net::new` refuses only a prefix length above 32, and
  `contains` masks the address.
- Records are not deduplicated by base address. The stable sort keeps
  records that share a base address in input order, and `lookup` may return
  any of them.
- The code does not require a row to satisfy `range_start <= range_end`.
  A reversed range yields no blocks.

The payload layout is length-prefixed and little-endian:

- the record count as 8 bytes;
- per record: `ip` (4 bytes), `prefix_len` (1 byte) and `as_number` (4 bytes);
- then `country` and `owner`, each as an 8-byte length followed by its bytes.

As far as it is modelled, this matches bincode 1's fixed-width little-endian
layout. Only bincode's UTF-8 and size-limit checks are left out. What is
stated about it is the round trip, and that a successful decode consumes a
prefix of its input.

## Model

| member | source | states |
|---|---|---|
| Ingest.ParseRow | src/lib.rs:140-152 | Parsing succeeds exactly when range_start, range_end and as_number all parse, and then carries their values and the unchanged country and owner. Otherwise the first failing field names the error: address error "parsing range_start IP", address error "parsing range_end IP", or integer error "parsing as_number". |
| Ingest.UnroutedRowContributesNothing | src/lib.rs:131-138 | A successfully read row whose owner is "Not routed" or "None" contributes nothing, wherever it stands in the stream. |
| Ingest.SourceErrorSurfaces | src/lib.rs:131-139 | A row the source failed to read is never filtered. It yields exactly one `TsvError` item at its place in the stream. |
| Ingest.Kept | src/lib.rs:131-138 | The filter: a row is dropped only when it was read and its owner is "Not routed" or "None". A row the source failed on is always kept. |
| Ingest.RowData | src/lib.rs:139-152 | A kept row after the two `map` steps: the source's error becomes `TsvError`, otherwise the fields are parsed. |
| Ingest.BlockRecords | src/lib.rs:155-161 | One record per block, with the block's base address and prefix length and the row's AS number, country and owner. |
| Ingest.Expand | src/lib.rs:153-163 | The records of a parsed row: one per block of `Ipv4Subnets::new(range_start, range_end, 8)`. |
| Ingest.RowItems | src/lib.rs:164-178 | The `flat_map` step for one kept row, in the source's shape: the row's records (when it parsed) mapped to `Ok`, chained with its error (when it did not) mapped to `Err`. |
| Ingest.RowItemsCases | src/lib.rs:164-178 | A kept row yields exactly one error and no records when reading or parsing fails. Otherwise it yields exactly the records of its range, each as a success. |
| Ingest.ReadAsnTsv | src/lib.rs:127-179 | `read_asn_tsv` over a finite row stream: for each row in order, nothing when the filter drops it, else that row's items. |
| Ingest.ExpandRecords | src/lib.rs:153-163 | Every record of a row carries the row's AS number, country and owner. Its prefix length is 8..32 and its base address is aligned. The records are in strictly increasing address order and their blocks do not overlap. |
| Ingest.ExpandExact | src/lib.rs:153-163 | An address lies in the row's range if and only if some record's network contains it, and no address lies in two records' networks. |
| Ingest.TilingRecordsExact | src/lib.rs:155-161 | For any tiling of a range, the records built from its blocks are exact for that range and pairwise disjoint. |
| Ingest.ReadAsnTsvAppend | src/lib.rs:127-179 | `read_asn_tsv` handles rows one at a time: the items of two concatenated row streams are the concatenation of their items. |
| Ingest.ReadAsnTsvBlocks | src/lib.rs:127-179 | Every record `read_asn_tsv` yields is a CIDR block: prefix length 8..32 and an aligned base address. |
| Ingest.Collect | src/lib.rs:254 | The collect succeeds if and only if every item succeeded, and then holds every item's record in order. Otherwise it fails with the first error, and every item before that error succeeded. |
| Cidr.NextPrefixLen | src/lib.rs:155 | The next block's prefix length is between 8 and 32. The block is aligned at the current start and ends within the range. |
| Cidr.NextPrefixLenWidest | src/lib.rs:155 | The block the decomposition picks is the widest allowed: every block with a prefix length from 8 up to the chosen one (exclusive) is either unaligned at the start address or runs past the end of the range. |
| Cidr.Subnets | src/lib.rs:155 | The blocks tile [start, end]: the first starts at start, each next one begins right after the previous one, and the last ends at end. Each block is aligned with a prefix length 8..32. There are no blocks when start > end. |
| Cidr.TilesCover | src/lib.rs:155 | Any tiling covers exactly [start, end], and no address lies in two of its blocks. |
| Cidr.TilesExact | src/lib.rs:155 | The same with `Ipv4Net::contains`: an address is in [start, end] if and only if some block contains it, and at most one block does. |
| Cidr.SubnetsExact | src/lib.rs:155 | The blocks of `Ipv4Subnets::new(start, end, 8)` are exact for [start, end] and pairwise disjoint. |
| Asn.Network | src/lib.rs:72-74 | The network has the record's prefix length and contains the record's base address. When the record is aligned, its network address is the base address. |
| StableSort.SwapDown | src/lib.rs:255 | Exchanging two out-of-order neighbours with different keys is a stable permutation. |
| StableSort.InsertStep | src/lib.rs:255 | Sinking the next record into the sorted prefix extends the sorted prefix by one, is a stable permutation, and leaves every record after it where it was. |
| StableSort.SortByIp | src/lib.rs:255 | The array ends up sorted by base address. It is a permutation of the input, and for every base address the records with that address keep their input order. |
| StableSort.StableSortUnique | src/lib.rs:255 | Two sequences that are both sorted by base address and hold the same records, in the same order, for every base address are equal. Hence any stable sort gives the same result as `SortByIp`. |
| Search.BinarySearchByIp | src/lib.rs:289 | `Found(i)` gives an index whose record has the key. `NotFound(k)` gives an insertion index, and on sorted records everything before k is below the key and everything from k on is above it. |
| Search.CountBelowAt | src/lib.rs:291 | The insertion index is the number of records below the query. |
| Search.CountBelowSorted | src/lib.rs:291-293 | In sorted records, the records below the query are exactly the first CountBelow of them. |
| Search.LookupSpec | src/lib.rs:288-301 | The lookup rule: a record whose base address is the query when there is one (any of them). Otherwise, with k the number of records below the query, the record at k - 1 if its network contains the query, and nothing if there is none or it does not. |
| Search.LookupSound | src/lib.rs:288-301 | A record returned by the lookup rule is one of the records, and its network contains the query. |
| Search.LookupExact | src/lib.rs:289-290 | A query equal to some base address always returns a record with that base address. |
| Search.LookupBelowAll | src/lib.rs:291-292 | A query below every base address returns nothing. |
| Search.LookupComplete | src/lib.rs:288-301 | On sorted, aligned, pairwise disjoint records, the lookup returns a record if and only if some record's network contains the query. |
| Search.LookupDeterministic | src/lib.rs:288-301 | With distinct base addresses, the lookup rule allows exactly one result. |
| Codec.EncodeRecords | src/lib.rs:283 | The payload `serialize_into` writes: the record count as 8 little-endian bytes, then every record's fields in order. |
| Codec.DecodeRecords | src/lib.rs:273-274 | The payload `deserialize_from` reads: the count, then that many records; a payload that ends early fails with `UnexpectedEof`. Yields the records and the bytes after them. |
| Codec.DecodeEncodeLe | src/lib.rs:58-63 | Decoding the n little-endian bytes of any x below 256^n gives back x. |
| Codec.TakeEncodedLe | src/lib.rs:58-63 | Reading an n-byte number from its encoding followed by anything gives the number and leaves exactly what followed. |
| Codec.DecodeEncodedText | src/lib.rs:64-67 | A length-prefixed text decodes to itself and leaves what followed. |
| Codec.DecodeEncodedRecord | src/lib.rs:56-68 | An encodable record decodes to itself, with every field round-tripped, and leaves what followed. |
| Codec.DecodeEncodedAll | src/lib.rs:273-274 | n encoded records followed by anything decode, as n records, to the same records in order. |
| Codec.DecodeEncodedRecords | src/lib.rs:273-274 | The encoded record vector, followed by anything, decodes to the same vector and leaves exactly what followed. |
| Codec.DecodeRecordsSuffix | src/lib.rs:273-274 | A successful decode consumes a prefix of its input: what it leaves is a suffix of it. |
| Streams.Reader.ReadExact | src/lib.rs:261-262 | `read_exact(n)` returns the next n bytes and advances past them. When fewer than n remain it fails with `UnexpectedEof`. |
| Streams.Writer.Write | src/lib.rs:281-282 | `write` accepts a prefix of its argument, at most one chunk and at most the remaining room, and reports its length. A non-empty write into a full sink fails. |
| Streams.Writer.WriteAll | src/lib.rs:283 | Repeated `write` calls deliver all the bytes when they fit. Otherwise they deliver exactly as many as fit, fill the sink and fail. |
| AsnDb.StoredBytes | src/lib.rs:280-283 | Everything `store` writes when each write goes out in full: the tag, the version and the payload. |
| AsnDb.CheckHeader | src/lib.rs:261-271 | The header checks of `load` in their order: a stream shorter than 4 bytes fails with "reading database tag", a wrong tag with "bad database data tag", a stream shorter than 8 bytes with "reading database version", a wrong version with "unsuported database version". Otherwise it yields the bytes after the header. |
| AsnDb.LoadSpec | src/lib.rs:260-277 | What `load` yields for given stream contents: the header's error; else the payload's error under "reading bincode DB file"; else the decoded records and the unread bytes. |
| AsnDb.GoodHeader | src/lib.rs:261-271 | The tag followed by the version passes both header checks whatever follows, and leaves what follows. |
| AsnDb.LoadStored | src/lib.rs:260-285 | Loading what `store` writes, followed by anything, gives back the same records in the same order and leaves exactly what followed. |
| AsnDb.BadTagFirst | src/lib.rs:261-265 | A wrong tag fails with "bad database data tag" whatever follows it. |
| AsnDb.BadVersionBeforePayload | src/lib.rs:267-271 | After the right tag, a wrong version fails with "unsuported database version" whatever follows it, and the payload is not decoded. |
| AsnDb.ShortWriteLosesTag | src/lib.rs:281-282 | When a sink accepts fewer than 4 bytes per `write` call, the bytes that `store` leaves fail to load with "bad database data tag". |
| AsnDb.Db.FromTsv | src/lib.rs:249-257 | The first error of `read_asn_tsv` fails the build as `TsvError`. Otherwise the database holds all records, sorted by base address as a stable permutation of the collected ones, with valid, aligned prefixes. |
| AsnDb.Db.Load | src/lib.rs:260-277 | The result is exactly what the load specification gives for the stream's contents: each error in check order, or the decoded records with the stream left just after the payload. |
| AsnDb.Db.ReadHeader | src/lib.rs:261-271 | The tag is read and checked before the version. A short stream fails with "reading database tag" or "reading database version", and a mismatch fails with the data error. On success the stream is left at the payload. |
| AsnDb.Db.FromRecords | src/lib.rs:276 | The database holds exactly the decoded records, in order. |
| AsnDb.Db.Store | src/lib.rs:280-285 | The corrected `store`, with the tag and the version each written in full as by `write_all`. The sink receives the tag, the version and the payload, or the prefix of them that it has room for. The error names the part that did not fit: "error writing tag", "error writing version" or "stroing DB". |
| AsnDb.WriteDatabase | src/lib.rs:280-285 | The same, for any payload: the sink receives the prefix that fits, and the error depends on where the room ran out. |
| AsnDb.WriteHeader | src/lib.rs:281-282 | The tag and then the version are written in full. Room for fewer than 4 bytes fails on the tag, and room for fewer than 8 fails on the version. |
| AsnDb.Db.StoreAsWritten | src/lib.rs:280-285 | `store` as written: one `write` call each for tag and version, each accepting t and v bytes, as much as one call and the remaining room allow. It fails with "error writing tag" only when the sink has no room, and with "error writing version" only when the tag call filled it. Otherwise the sink holds those t and v bytes, then the payload or as much of it as fits, and the store fails with "stroing DB" exactly when the payload did not fit. With room for everything it succeeds, whatever the sink accepted per call. |
| AsnDb.WriteDatabaseAsWritten | src/lib.rs:280-285 | The same, for any payload: the bytes each header call leaves, the part of the payload that fits, and the error for every amount of room. |
| AsnDb.WriteHeaderAsWritten | src/lib.rs:281-282 | One `write` call each for tag and version. Each call leaves the first t (or v) bytes, as much as one call and the remaining room allow, and the remaining room shrinks by exactly that. A call into a full sink fails with the part's context. |
| AsnDb.Db.Lookup | src/lib.rs:288-301 | On any records, a returned record is one of them and contains the query. On sorted records, the result is the one the lookup rule describes: an exact match if there is one, else the record just below the insertion index if it contains the query, else nothing. |
| AsnDb.StoreThenLoad | src/lib.rs:260-285 | Storing a database into a sink with room for it, in any write chunking, and loading the bytes back gives the same records in the same order. |
| AsnDb.StoreAsWrittenThenLoad | src/lib.rs:260-285 | With the source's `store` and a sink that takes 2 bytes per call, the store succeeds and loading its bytes fails with "bad database data tag". |

## Left out

- Reading CSV is not modelled: the row source is a finite sequence of rows, each read successfully or failed.
- The laziness of the iterators is not modelled: `read_asn_tsv` is a function from rows to items.
- Parsing `Ipv4Addr` and `u32` text is not modelled. The parsers are parameters, and only their success or failure and their value matter. The lower-level `AddrParseError` and `ParseIntError` values are reduced to the context text.
- A row with fewer than five fields makes the source panic on the index. Rows are modelled with exactly five fields.
- The `Display`, `Error::source` and `From` impls, `Debug` and the tests are not modelled.
- Text is kept as bytes, and UTF-8 validation is not modelled.
- bincode's size limits are not modelled.
- I/O errors are reduced to `UnexpectedEof` on reading and `StorageFull` on writing. A sink is modelled by its room and by the largest count one `write` call accepts.
- Cidr.Subnets: each block is proved to be the widest one allowed (Cidr.NextPrefixLenWidest), but not that the decomposition has the fewest blocks of any tiling.
- Cidr.Subnets: the special cases of `Ipv4Subnets` for a minimum prefix length of 0 are not modelled, because the library always passes 8.
- AsnDb.Db.Lookup: requires every prefix length to be at most 32. The source panics with "bad network" when the record it checks has a longer one.
- AsnDb.Db.Lookup: the full lookup rule is stated only for sorted records, as built by `FromTsv`. On unsorted records only soundness is stated.
- AsnDb.Db.Load: on failure, what is left of the stream is not stated.
- Streams.Reader.ReadExact: after a failed read the stream is taken to be exhausted, where `read_exact` leaves the position unspecified.
- Search.BinarySearchByIp: the exact probe sequence of the standard library's search is not modelled. The model may return any index with the key when several records share it, as the standard library allows.
- StableSort.SortByIp: an insertion sort stands for the standard library's merge sort. StableSort.StableSortUnique shows that both give the same result.

## Findings

| source | as written | input that shows it | evidently intended | confidence | as-written member | corrected member |
|---|---|---|---|---|---|---|
| src/lib.rs:281-282 | `store` writes the tag and the version with one `write` call each and ignores how many bytes each call accepted | a sink whose `write` accepts 2 bytes per call (room for everything): `store` returns `Ok(())`, and the file then starts `AS` `bi` before the payload, so `load` fails with "bad database data tag" | `write_all`, so that the full tag and version reach the sink | medium, not executed | AsnDb.Db.StoreAsWritten, AsnDb.ShortWriteLosesTag, AsnDb.StoreAsWrittenThenLoad | AsnDb.Db.Store, AsnDb.StoreThenLoad |
