# Versioned state database over an ordered key-value store

This project models the Go adapter that lets a ledger's versioned state
database run on an ordered key-value store (LevelDB reached through cgo). The
model has three parts.

- **The composite key codec.** A `(namespace, key)` pair becomes one flat
  store key: the namespace, a NUL, then the key. The parser splits that key on
  every NUL and accepts exactly two fields.
- **The height and value codecs.**
  - The save point is stored as 16 bytes: the block number, then the
    transaction number, each as a big-endian `uint64`.
  - A versioned value is stored as a serialised wrapper record. The record
    holds the payload, the metadata, and the version's block and transaction
    numbers.
- **The database, its range-scan iterator and the provider.**
  - `FabricDB` offers point reads, batched reads and range scans.
    `ApplyUpdates` writes a batch atomically together with the save point.
  - `FabricIterator` walks one namespace between a start key and an optional
    end key.
  - `FabricDBProvider` caches one database per channel id.

The store underneath is a strictly sorted sequence of `(key, bytes)` entries
(`OrderedStore`). It offers a point lookup that gives nil for a missing key,
an atomic write of a batch of puts and deletes applied in order, and the
cursor's seek. `OrderedStore.BindingGet` is the binding's read as written,
which reports a missing key as an error; the adapter does not use it.

Dafny characters are Unicode scalar values. Their code-point order is the byte
order of their UTF-8 encoding. So the key order `Base.Less` is the store's
bytewise order and Go's `<` on strings.

Modules:

| file | module | contents |
|---|---|---|
| `base.dfy` | `Base` | `Option`, `Result`, the error kinds, `byte`, `uint64`, the key order |
| `store.dfy` | `OrderedStore` | the engine as a sorted sequence, batch write, seek |
| `encoding.dfy` | `Encoding` | `Height`, `VersionedValue`, `UpdateBatch` and the other records; the height and value codecs |
| `composite_key.dfy` | `CompositeKeyCodec` | `constructCompositeKey`, `parseCompositeKey` and the order of composite keys |
| `fabric_adapter.dfy` | `FabricAdapter` | `FabricDB`, `FabricIterator`, `FabricDBProvider` |

Outside inputs become parameters:

- `FabricDBProvider.GetDBHandle` takes `openResult`. It holds the store's
  contents when the engine opens the database, and is `None` when opening
  fails.
- `FabricDB.ApplyUpdates` takes `writeFails`. It says whether the engine
  rejects the atomic write.

Facts about the code that shape the model:

- **A closed database.** `FabricDB.Close` sets the engine handle to nil
  (`fabric_adapter.go:267-272`). Every data operation then calls a method on
  that nil handle (`fabric_adapter.go:113`, `156`, `227`, `232`), which
  dereferences it (`leveldb.go:145`, `199`, `223`). The model therefore requires an open
  handle (`requires db.Some?`) for the data operations. No operation returns a
  "not open" error.
- **Keys containing NUL.** `ValidateKeyValue` always accepts
  (`fabric_adapter.go:245-248`), and `ApplyUpdates` does not validate
  (`fabric_adapter.go:193-228`).
  - A namespace or key containing NUL yields a composite key that does not
    parse back. Two such pairs can share a composite key.
  - For that reason the pointwise contents after `ApplyUpdates` are stated for
    a batch whose namespaces and keys are NUL-free (`WellFormedBatch`).
  - For any batch, the save point behaves as stated, and a failed write
    changes nothing. Every key the batch stages is the composite key of one of
    its entries (`Named`). Every key other than the save point that no entry
    names keeps its value.
- **Bookmarks.** `GetBookmarkAndClose` closes the iterator and returns the
  empty string (`fabric_adapter.go:331-334`).
- **Missing keys.** The binding reports a missing key as an error (see
  "## Findings"). The adapter's reads use the point read with the contract
  that `leveldb_test.go:53-60` expects: a missing key gives nil without error.

## Model

| member | source | states |
|---|---|---|
| OrderedStore.LookupMissing | cpp-leveldb-wrapper/go/leveldb_test.go:53-60 | a key that no entry carries reads as nil, as the binding's test expects after a delete |
| OrderedStore.BindingGet | cpp-leveldb-wrapper/src/leveldb_wrapper.cpp:117-123 | the binding's read as written: an error exactly when the key is missing, otherwise the stored value |
| OrderedStore.BindingGetMissing | cpp-leveldb-wrapper/go/leveldb.go:149-156 | as written, reading a missing key fails with NotFound, where the point read gives nil |
| CompositeKeyCodec.ConstructCompositeKey | cpp-leveldb-wrapper/go/fabric_adapter.go:338-340 | the composite key always contains the separator; parsing it returns `(namespace, key)` exactly when neither contains a NUL |
| CompositeKeyCodec.Decompose | cpp-leveldb-wrapper/go/fabric_adapter.go:342-361 | parsing succeeds exactly when the input holds one NUL; it fails with the invalid-format error otherwise; on success the input is `ns + NUL + key` with both parts NUL-free |
| CompositeKeyCodec.ParseCompositeKey | cpp-leveldb-wrapper/go/fabric_adapter.go:342-361 | the character loop that builds `parts` and `current` returns exactly `Decompose` of its input |
| CompositeKeyCodec.JoinFields | cpp-leveldb-wrapper/go/fabric_adapter.go:346-355 | the parts the loop collects, joined with NUL, give back the input |
| CompositeKeyCodec.FieldsCount | cpp-leveldb-wrapper/go/fabric_adapter.go:346-357 | the loop collects one part more than the input has NULs, so `len(parts) == 2` means exactly one NUL |
| CompositeKeyCodec.CompositeOrder | cpp-leveldb-wrapper/go/fabric_adapter.go:338-340 | for NUL-free namespaces, composite keys sort by namespace first and then by key |
| CompositeKeyCodec.SameNamespaceOrder | cpp-leveldb-wrapper/go/fabric_adapter.go:338-340 | within one namespace, composite keys sort as their keys |
| Encoding.EncodeHeight | cpp-leveldb-wrapper/go/encoding.go:131-141 | nil gives nil; otherwise exactly 16 bytes, with bytes 0..8 the big-endian block number and bytes 8..16 the big-endian transaction number |
| Encoding.DecodeHeight | cpp-leveldb-wrapper/go/encoding.go:144-159 | nil gives nil without error; an error exactly for non-nil input whose length is not 16; otherwise the height whose encoding the input is |
| Encoding.HeightRoundTrip | cpp-leveldb-wrapper/go/encoding.go:131-159 | decoding the encoding of any height, nil included, gives it back |
| Encoding.EncodeHeightOrder | cpp-leveldb-wrapper/go/encoding.go:136-138 | encodings compare bytewise exactly as their heights compare by (block, tx) |
| Encoding.BigEndianOrder | cpp-leveldb-wrapper/go/encoding.go:137-138 | the fixed-width big-endian encoding preserves and reflects the order of numbers |
| Encoding.FromBigEndianOfBigEndian | cpp-leveldb-wrapper/go/encoding.go:137-155 | reading a big-endian field back gives the number written |
| Encoding.EncodeValue | cpp-leveldb-wrapper/go/encoding.go:88-104 | nil gives nil; any value gives a non-empty record |
| Encoding.DecodeValue | cpp-leveldb-wrapper/go/encoding.go:107-128 | nil gives nil without error; a decoded value always has a non-nil version; an empty record is rejected |
| Encoding.UnmarshalMarshal | cpp-leveldb-wrapper/go/encoding.go:103-116 | the wrapper record's serialisation is inverted by its parser |
| Encoding.ValueRoundTrip | cpp-leveldb-wrapper/go/encoding.go:88-128 | decoding an encoded value keeps payload, metadata, block and tx number; a nil version comes back as (0, 0); nil stays nil |
| Encoding.EncodeValueInjective | cpp-leveldb-wrapper/go/encoding.go:93-103 | two values with the same encoding agree on payload, metadata and (defaulted) version |
| FabricAdapter.SavePointKeyIsNotComposite | cpp-leveldb-wrapper/go/fabric_adapter.go:222 | the key "savepoint" fails to parse and equals no composite key, so the scan skips it |
| FabricAdapter.FillWriteBatch | cpp-leveldb-wrapper/go/fabric_adapter.go:198-214 | every staged key is the composite key of a batch entry; for a NUL-free batch, every key carries a delete for a nil value, a put of the encoded value otherwise, and nothing for pairs outside the batch |
| FabricAdapter.FillNamespace | cpp-leveldb-wrapper/go/fabric_adapter.go:199-213 | the inner loop over one namespace's entries: every appended key is the composite key of a batch entry; for a NUL-free batch, afterwards that namespace is staged in full on top of those staged before |
| FabricAdapter.CommitSpec | cpp-leveldb-wrapper/go/fabric_adapter.go:217-227 | writing the staged operations plus the save-point put keeps the store sorted; the save point becomes the new height, or stays as it was for a nil height; for any batch, every other key that no entry names keeps its value; a NUL-free batch leaves exactly the committed contents |
| FabricAdapter.CommittedEntry | cpp-leveldb-wrapper/go/fabric_adapter.go:198-214 | after a commit, a nil-valued entry's composite key is absent; any other entry's key holds its encoding, which decodes to the entry |
| FabricAdapter.CommittedElsewhere | cpp-leveldb-wrapper/go/fabric_adapter.go:193-227 | keys that the batch does not name, other than the save point, keep their value |
| FabricAdapter.CommittedSavePoint | cpp-leveldb-wrapper/go/fabric_adapter.go:217-223 | after a commit the save point decodes to the new height, or to the old one for a nil height |
| FabricAdapter.FabricDB.constructor | cpp-leveldb-wrapper/go/fabric_adapter.go:61-64 | a database wraps an open handle over sorted contents |
| FabricAdapter.FabricDB.GetState | cpp-leveldb-wrapper/go/fabric_adapter.go:110-123 | a missing key gives absent without error; a stored encoding of `vv` gives `vv` with its version made explicit; it fails, with the malformed-record error, exactly when the stored record does not decode |
| FabricAdapter.FabricDB.GetVersion | cpp-leveldb-wrapper/go/fabric_adapter.go:126-137 | absent exactly when the key is missing; otherwise the stored version, (0, 0) when written without one; it fails exactly when `GetState` fails |
| FabricAdapter.FabricDB.GetStateMultipleKeys | cpp-leveldb-wrapper/go/fabric_adapter.go:140-152 | succeeds exactly when every `GetState` succeeds; then one result per key, with `results[i]` the result of `GetState(ns, keys[i])`; otherwise the first failing key's error |
| FabricAdapter.FabricDB.GetStateRangeScanIterator | cpp-leveldb-wrapper/go/fabric_adapter.go:155-170 | a fresh iterator over the current contents, sought to the first entry not below the composite start key |
| FabricAdapter.FabricDB.ApplyUpdates | cpp-leveldb-wrapper/go/fabric_adapter.go:193-228 | errs exactly when the write fails, and then the store is unchanged; on success `GetLatestSavePoint` returns a non-nil height, and a nil height leaves the save point alone; for any batch, keys other than the save point that no entry names keep their value; for a NUL-free batch every key holds its committed value and every entry reads back through `GetState` |
| FabricAdapter.FabricDB.CommittedReadBack | cpp-leveldb-wrapper/go/fabric_adapter.go:110-123 | over committed contents, `GetState` of a batch entry is absent for a delete and the normalized value otherwise |
| FabricAdapter.FabricDB.GetLatestSavePoint | cpp-leveldb-wrapper/go/fabric_adapter.go:231-242 | no save point gives absent; a stored encoding of `h` gives `h`; a record of the wrong length is the only error |
| FabricAdapter.FabricDB.Close | cpp-leveldb-wrapper/go/fabric_adapter.go:267-272 | the handle is released, and closing twice is harmless |
| FabricAdapter.ScanNext | cpp-leveldb-wrapper/go/fabric_adapter.go:277-320 | one cursor step: the cursor never moves back; entries passed over have keys that do not parse; an absent result means the cursor is past the end or on a parseable entry of another namespace or at or past a non-empty `endKey`, and a scan that is over stays over; a handed-out entry is one the scan admits, with its parsed key and decoded record, and the cursor moves past it; a decode error leaves the cursor on the entry |
| FabricAdapter.StepKeepsScan | cpp-leveldb-wrapper/go/fabric_adapter.go:290-316 | a step keeps the cursor state of the scan, and an entry it hands out has a key at least `startKey` and below a non-empty `endKey` |
| FabricAdapter.ScanYield | cpp-leveldb-wrapper/go/fabric_adapter.go:290-316 | an entry the scan admits has a key at least `startKey` and is the composite key of that key |
| FabricAdapter.ScanKeysOrigin | cpp-leveldb-wrapper/go/fabric_adapter.go:284-316 | every key a scan hands out parses out of one of the entries it passed, with the scan's namespace |
| FabricAdapter.ScanKeysAscending | cpp-leveldb-wrapper/go/fabric_adapter.go:277-320 | over a sorted stretch of one namespace, the keys a scan hands out are strictly ascending |
| FabricAdapter.ScanKeysInRange | cpp-leveldb-wrapper/go/fabric_adapter.go:277-320 | the keys a scan hands out are strictly ascending, at least `startKey`, below a non-empty `endKey`, and each comes from an entry of the namespace |
| FabricAdapter.ScanStopIsFinal | cpp-leveldb-wrapper/go/fabric_adapter.go:290-297 | from the entry where the scan stops onwards, no entry belongs to the range |
| FabricAdapter.FabricIterator.constructor | cpp-leveldb-wrapper/go/fabric_adapter.go:155-167 | the cursor starts at the seek position of the composite start key, with nothing handed out |
| FabricAdapter.FabricIterator.Next | cpp-leveldb-wrapper/go/fabric_adapter.go:277-320 | one step as above on the iterator's snapshot; the keys handed out grow by exactly the key handed out; a handed-out key lies in [startKey, endKey) |
| FabricAdapter.FabricIterator.YieldedInOrder | cpp-leveldb-wrapper/go/fabric_adapter.go:277-320 | all keys handed out so far are strictly ascending, at least `startKey`, and below a non-empty `endKey` |
| FabricAdapter.FabricIterator.StoppedIsComplete | cpp-leveldb-wrapper/go/fabric_adapter.go:290-297 | once the scan has ended, it has handed out the key of every entry of the namespace in [startKey, endKey) |
| FabricAdapter.FabricIterator.Close | cpp-leveldb-wrapper/go/fabric_adapter.go:323-328 | the cursor is released, and closing twice is harmless |
| FabricAdapter.FabricDBProvider.constructor | cpp-leveldb-wrapper/go/fabric_adapter.go:31-36 | a provider starts with an empty cache |
| FabricAdapter.FabricDBProvider.GetDBHandle | cpp-leveldb-wrapper/go/fabric_adapter.go:39-68 | a cached id gives the same instance with the cache unchanged; a failed open is an error with the cache unchanged; otherwise a fresh database over the opened contents, cached under exactly `id` |
| FabricAdapter.FabricDBProvider.Close | cpp-leveldb-wrapper/go/fabric_adapter.go:82-90 | every cached database is closed and the cache is left empty |
| FabricAdapter.FabricDBProvider.Drop | cpp-leveldb-wrapper/go/fabric_adapter.go:93-105 | the database cached for `id` is closed and evicted; every other entry and its database are left as they were |

## Left out

- The cgo bindings and the C++ wrapper over LevelDB: pointer marshalling, memory management, options, compaction and the on-disk format. `OrderedStore` stands in for the engine.
- The JSON text produced by `encoding/json`. A byte format with the same three properties stands in for it: the parser inverts the serialiser, nil and empty byte slices stay distinct, and malformed records are rejected.
- The provider's `sync.RWMutex`: locking adds no sequential behaviour.
- I/O errors from the engine's point read, and a failing iterator. Apart from decoding a stored record, the reads in the model do not fail.
- The binding's NotFound error on a missing key (see "## Findings"). As written, `DB.Get` returns that error (`leveldb.go:149-152`) and its nil branch (`leveldb.go:154-156`) never runs. So `GetState`, `GetVersion` and `GetStateMultipleKeys` fail on a missing key, and `GetLatestSavePoint` fails on a fresh database. Their "absent" branches (`fabric_adapter.go:118-119`, `237-238`) never run. The model's reads follow the contract that `leveldb_test.go:53-60` expects, in which a missing key gives nil.
- Persistence across a close and reopen. The contents a reopened database starts from are the `openResult` parameter of `GetDBHandle`.
- Filesystem paths, the open options, and the `namespaceProvider` argument of `GetDBHandle`. `Drop` does not remove any directory in the source either.
- The stubs: `ImportFromSnapshot`, `GetFullScanIterator`, `ExecuteQuery`, `ExecuteQueryWithPagination`, `ValidateKeyValue` (always accepts), `Open` (no-op), `BytesKeySupported` (always true) and `GetBookmarkAndClose` (closes and returns "").
- `GetStateRangeScanIteratorWithPagination`: it returns the plain range-scan iterator and ignores the page size.
- The error results of `encodeValue` and `encodeHeight`, and the two `ApplyUpdates` branches that return them. Neither encoder can fail on these records, so both are total functions here.
- A nil `*VersionedValue` inside `UpdateBatch.Updates`: the source would dereference it and crash. The model's batch maps hold values.
- The error result of `Drop`, which is always nil, and the error result of `GetStateRangeScanIterator`, which is always nil.
- The preallocated result slice of `GetStateMultipleKeys`. The model appends each result to a sequence instead of storing it by index. The result is the same.
- Go's rune walk over a string that is not valid UTF-8: keys are sequences of Unicode scalar values.
- FabricAdapter.FabricDB.ApplyUpdates: the contents under the keys a batch names are stated only for batches whose namespaces and keys are NUL-free. With a NUL, two entries can share a composite key, and which one wins depends on Go's random map iteration order. Keys the batch does not name are covered for every batch.

## Findings

| source | as written | input that shows it | evidently intended | confidence | as-written member | corrected member |
|---|---|---|---|---|---|---|
| cpp-leveldb-wrapper/src/leveldb_wrapper.cpp:117-123 | every non-ok status of the engine's Get, NotFound included, becomes an error, so `DB.Get` (leveldb.go:149-156) fails on a missing key and its nil branch never runs; this is in the binding, outside the modelled adapter | any key not in the store, for instance "savepoint" read by `GetLatestSavePoint` on a fresh database | a missing key gives nil without error, as leveldb_test.go:53-60 expects and as fabric_adapter.go:118-119 and 237-238 assume | not executed; high | OrderedStore.BindingGetMissing | OrderedStore.LookupMissing |
