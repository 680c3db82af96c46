# packrat storage engine, modelled in Dafny

packrat is a small key-value server speaking the Redis protocol. Its storage
engine is modelled here:

- the record codec that the `TinyBitSerializer` / `TinyBitDeserializer`
  derives generate: a one-byte length before the key, a one-byte length
  before the value, records written back to back;
- the `KeyValue` record that wraps it;
- the write-ahead log (`wal.dat`), an append-only byte log decoded in full
  on replay;
- the index, which maps a key to the segment file, offset and length of its
  flushed record;
- the memtable, a sorted map that logs every `set` to the WAL, answers `get`
  from the tree or through the index from a segment, rebuilds itself from
  the WAL, and flushes its entries in ascending key order into one segment
  file;
- `process_cmd`, which dispatches `get`, `set` and `COMMAND` and flushes
  when the memtable outgrows its threshold.

Strings are byte sequences (`seq<byte>`), files are entries of a map from
file name to bytes, and a Rust panic (`expect`, `unwrap`,
`unimplemented!`) is a third outcome, `Panic(message)`, next to `Ok` and
`Err`.

Files:

- `outcomes.dfy`: `Option` and `Outcome`.
- `codec.dfy`: the two generated methods, proved equal to the functions
  `Encode` and `Decode`, and the codec's properties.
- `keyvalue.dfy`: `KeyValue` and record streams.
- `wal.dfy`: the WAL class.
- `index.dfy`: `Index` and the `Indexes` class.
- `order.dfy`: the key order of the memtable's `BTreeMap` and the
  ascending drain order of `pop_first`.
- `memtable.dfy`: replay, the segment layout a flush produces, and the
  `MemTable` class.
- `scenarios.dfy`: the memtable's test scenarios.
- `server.dfy`: `process_cmd`.

Two parts of the core do not compile as written, and they are modelled by
what their callers expect of them:

- `KeyValue::read_from_bytes` is declared at src/keyvalue.rs:22 as a method
  returning `()`. src/wal.rs:33 calls it as an associated function that
  returns the records. It is modelled as returning the records
  `deserialize` decodes, or the decoder's error or panic.
- `Wal::clear_wal`, called at src/memtable.rs:157, is not defined in
  src/wal.rs. It is modelled as truncating the log to empty.

## Model

| member | source | states |
|---|---|---|
| Codec.Serialize | tiny_bit_derive/src/lib.rs:12-30 | the output is the key's length byte, the key, the value's length byte and the value, that is `Encode(key, value)` |
| Codec.Deserialize | tiny_bit_derive/src/lib.rs:44-78 | the iterator-and-stack loop returns exactly `Decode(bytes)`: the fields paired in order, the UTF-8 error, or the panic |
| Codec.FirstNonAscii | tiny_bit_derive/src/lib.rs:52-54 | finds no byte exactly when every content byte is below 0x80, and any byte it finds is at least 0x80 |
| Codec.Fields | tiny_bit_derive/src/lib.rs:49-58 | splitting into length-prefixed fields never panics: it yields the fields or a UTF-8 error |
| Codec.Pairs | tiny_bit_derive/src/lib.rs:59-72 | an even number of fields gives half as many pairs |
| Codec.Decode | tiny_bit_derive/src/lib.rs:49-77 | empty input decodes to no pairs |
| Codec.StackEnd | tiny_bit_derive/src/lib.rs:68-77 | at the end of input the stack holds at most two fields; two are paired, none leave the pairs as they are, and one panics with "could not get key" |
| CodecProperties.PairsAt | tiny_bit_derive/src/lib.rs:59-72 | pair i is field 2i as key and field 2i+1 as value |
| CodecProperties.DecodeConcat | tiny_bit_derive/src/lib.rs:49-75 | a representable record followed by any bytes decodes to that record in front of whatever the rest decodes to |
| CodecProperties.DecodeEncode | tiny_bit_derive/src/lib.rs:12-78 | `deserialize(serialize(k, v)) == Ok([(k, v)])` when both fields fit in 255 bytes and are ASCII |
| CodecProperties.DecodeRejectsNonAscii | tiny_bit_derive/src/lib.rs:52-54 | a record with a content byte of 0x80 or more decodes to the UTF-8 error carrying the first such byte |
| CodecProperties.FirstFieldShort | tiny_bit_derive/src/lib.rs:50-56 | the first field is never longer than its length byte says |
| CodecProperties.ShortValueIsAccepted | tiny_bit_derive/src/lib.rs:52-56 | a length byte larger than the bytes left yields a shortened last field, not an error |
| CodecProperties.OversizedFieldDoesNotRoundTrip | tiny_bit_derive/src/lib.rs:16-23 | a field of 256 bytes or more does not survive the round trip, because its length wraps through `as u8` |
| CodecProperties.LoneFieldPanics | tiny_bit_derive/src/lib.rs:69-72 | an odd field count panics with "could not get key" at the final pop |
| KeyValues.New | src/keyvalue.rs:14-16 | the record holds the given key and value unchanged |
| KeyValues.WriteToBytes | src/keyvalue.rs:18-20 | the encoding has length 2 + \|key\| + \|value\|, starts with \|key\| for keys of at most 255 bytes, and holds key and value in place |
| KeyValues.ReadFromBytes | src/keyvalue.rs:22-24 | the records `deserialize` decodes, pair i becoming record i with its key and value; otherwise the decoder's error or panic, unchanged |
| KeyValues.ReadWritten | src/keyvalue.rs:22-24 | reading back what `write_to_bytes` wrote gives exactly that record |
| KeyValues.StreamAppend | src/wal.rs:22-26 | the bytes of two record runs are the bytes of the first followed by those of the second |
| KeyValues.ReadStream | src/wal.rs:22-34 | a log of records appended one after another reads back as exactly those records, in order |
| WriteAheadLog.Wal.constructor | src/wal.rs:10-19 | the log is the existing `wal.dat` of the directory, or empty when it is created |
| WriteAheadLog.Wal.Append | src/wal.rs:22-27 | the log grows by exactly the record's encoding and every earlier byte stays |
| WriteAheadLog.Wal.Read | src/wal.rs:29-35 | returns the decoding of the whole log and leaves the log as it is |
| WriteAheadLog.Wal.ClearWal | src/memtable.rs:157 | the log is empty afterwards |
| WriteAheadLog.AppendThenRead | src/wal.rs:43-62 | appending `("foo", "bar")` to a fresh log reads back as exactly that record |
| IndexStore.Index.From | src/index.rs:14-20 | offset, length and file name are stored as given |
| IndexStore.Indexes.constructor | src/index.rs:24-28 | no entries, so every getter answers `None` for every key |
| IndexStore.Indexes.CreateIndex | src/index.rs:30-41 | the key's getters answer the new file, offset and length, an earlier entry is replaced without error, and every other key's getters answer as before |
| IndexStore.Indexes.GetFile | src/index.rs:43-48 | `Some` exactly when the key is indexed, carrying its file name |
| IndexStore.Indexes.GetOffset | src/index.rs:50-55 | `Some` exactly when the key is indexed, carrying its offset |
| IndexStore.Indexes.GetLen | src/index.rs:57-62 | `Some` exactly when the key is indexed, carrying its length |
| KeyOrder.BelowTransitive | src/memtable.rs:13 | the byte-wise order of the `BTreeMap`'s keys is transitive |
| KeyOrder.BelowAntisymmetric | src/memtable.rs:13 | two keys each below the other are equal |
| KeyOrder.LeastExists | src/memtable.rs:140 | every non-empty key set has a least key, the one `pop_first` takes |
| KeyOrder.LeastKey | src/memtable.rs:140 | the scan returns a key of the set that is below every key of the set |
| KeyOrder.Sorted | src/memtable.rs:140 | the drain order holds as many entries as the tree |
| KeyOrder.SortedEntries | src/memtable.rs:140 | the drain order lists each entry of the tree with its value, in strictly ascending key order |
| KeyOrder.SortedCovers | src/memtable.rs:140 | every key of the tree is drained |
| MemTables.ReplayKeys | src/memtable.rs:35-41 | a key is in the rebuilt tree exactly when some WAL record carries it |
| MemTables.ReplayLastWins | src/memtable.rs:35-41 | the last record for a key decides its value in the rebuilt tree |
| MemTables.LoggedRecord | src/memtable.rs:107-116 | the record `set` logs carries the key, and the new value for a fresh key but the previous value on an overwrite |
| MemTables.OverwriteLogsStaleValue | src/memtable.rs:107-111 | replaying a WAL that ends with what an overwriting `set` logged gives the previous value, not the one set |
| MemTables.Drained | src/memtable.rs:140-141 | the drained records are as many as the tree's entries |
| MemTables.DrainedEntries | src/memtable.rs:140-141 | each drained record is an entry of the tree, and no key is drained twice |
| MemTables.PlacementAt | src/memtable.rs:140-151 | with distinct keys, record i is indexed at the base plus the bytes of the records before it, with its encoded length, in the named segment |
| MemTables.Existing | src/memtable.rs:132-138 | opening with `create` gives the segment's bytes, or none for a new file |
| MemTables.Decimal | src/memtable.rs:130 | a timestamp prints as one or more decimal digits |
| MemTables.SegmentName | src/memtable.rs:130 | the segment name ends in `_sstable.dat` |
| MemTables.ReadSegment | src/memtable.rs:67-102 | a missing segment panics, the read fails exactly when a non-empty slice runs past the end of the segment, and a successful read lies inside the segment |
| MemTables.ReadRejectsNonAscii | src/memtable.rs:93-101 | a slice holding a record with a content byte of 0x80 or more gives `OtherError` with the decoder's UTF-8 error |
| MemTables.ReadLocated | src/memtable.rs:67-102 | a slice that holds exactly a storable record reads back as that record's value |
| MemTables.StreamSlice | src/memtable.rs:150 | the record i of a buffer appended after prior bytes sits at the prior length plus the bytes of the records before it |
| MemTables.RecordLocates | src/memtable.rs:140-151 | records with distinct keys written after the segment's prior bytes and placed from its prior length: each entry names exactly its record's bytes |
| MemTables.FlushLocates | src/memtable.rs:140-151 | with offsets counted from the segment's prior length, each flushed key's entry names exactly its record |
| MemTables.AppendKeepsLocation | src/memtable.rs:132-138 | appending to a segment leaves every earlier record where its entry says it is |
| MemTables.PlacementKeys | src/memtable.rs:140-149 | a flush indexes only keys of records it drained |
| MemTables.ReadAfterAppend | src/memtable.rs:132-138 | appending to a segment does not change what an earlier successful slice read returns |
| MemTables.FlushKeepsEarlierRead | src/memtable.rs:140-155 | a key outside the flushed tree keeps its index entry, and that entry still reads back the same value |
| MemTables.FlushedKeysReadBack | src/memtable.rs:132-151 | with offsets counted from the segment's prior length, each flushed key is indexed and its slice reads back as its value |
| MemTables.SharedSegmentMisdirects | src/memtable.rs:132-150 | with offsets counted from 0 in a segment that already holds `("a", "1")`, the entry of the flushed `"b"` reads back `"1"` |
| MemTables.GetKeptByFlush | src/memtable.rs:50-104 | after a flush, `get` of a key outside the flushed tree returns what its earlier index entry read back |
| MemTables.GetAfterFlush | src/memtable.rs:50-104 | after a flush that counts offsets from the prior length, `get` of every flushed key returns its value |
| MemTables.MemTable.constructor | src/memtable.rs:27-33 | the tree starts empty over the given WAL and segment directory |
| MemTables.MemTable.NewWithWalData | src/memtable.rs:35-48 | the tree is the WAL's records inserted in order; every WAL that decodes gives a memtable, and one written as a run of storable records rebuilds exactly those records |
| MemTables.MemTable.Get | src/memtable.rs:50-104 | a key in the tree returns the tree's value; otherwise an unindexed key is `NoValueFound`, and an indexed key reads its segment slice |
| MemTables.MemTable.Set | src/memtable.rs:106-119 | the tree maps the key to the new value and nothing else changes, the WAL grows by the record `LoggedRecord` names, and the result is `Ok` |
| MemTables.MemTable.SetIntended | src/memtable.rs:106-119 | as `Set`, but the WAL record is the pair set, so a recoverable memtable stays recoverable |
| MemTables.MemTable.Drain | src/memtable.rs:140-151 | the tree ends empty, the buffer is the drained records in ascending key order, and the index gains their placements |
| MemTables.MemTable.FlushToSstable | src/memtable.rs:121-158 | the buffer is appended to the segment named after the timestamp, entries are placed from offset 0, and the WAL is cleared; a key outside the flushed tree that read back a value still reads it back |
| MemTables.MemTable.FlushToSstableIntended | src/memtable.rs:121-158 | as `FlushToSstable` with entries placed after the segment's prior bytes, so afterwards `get` returns every flushed value, and every value read back before through the index for other keys |
| MemTableScenarios.SetThree | src/memtable.rs:178-182 | three `set`s of fresh keys leave the three pairs in the tree and in the WAL, in order |
| MemTableScenarios.InsertAndGet | src/memtable.rs:204-229 | each of the three keys set reads back its value |
| MemTableScenarios.ReplayAfterSets | src/memtable.rs:168-201 | a memtable rebuilt from the WAL answers the three values |
| MemTableScenarios.OverwriteThenReplay | src/memtable.rs:106-119 | after setting `foo` to `bar` then `baz`, the live memtable answers `baz` but the one rebuilt from its WAL answers `bar` |
| MemTableScenarios.FlushThenGet | src/memtable.rs:232-244 | after the three sets and the flush as written on an empty directory, each key reads back its value from the segment |
| Server.ValueReply | src/server.rs:21 | the reply to `get` is `+`, the value, then CR LF |
| Server.Classify | src/server.rs:14-41 | a non-array is `NotArray`; `get` with and without a key, `set` with two, one or no arguments, `COMMAND`, and anything else are told apart by the array's first element and length |
| Server.Engine.ProcessCmd | src/server.rs:7-46 | replies per branch (`+value`, `+OK`, `GetError`, `SetError`, the panics); only `set` changes state: without a flush the pair joins the tree and the WAL and the index and segments stay; with one (exactly when the tree outgrows the threshold) the tree and WAL are emptied, the segment gains the drained records and the index their placements; every key of the new tree reads back its value, other keys keep what they read back, and a recoverable memtable stays recoverable |

## Left out

- The TCP listener and client loop (`handle_client`, `start_server`): network I/O.
- RESP decoding with `resp::Decoder`, and its `expect("cannot decode value")`: the command arrives decoded as a `Value`.
- `to_string_pretty` is a foreign function: it is the parameter `render` of `ProcessCmd`.
- src/cli.rs and src/main.rs (argument parsing, start-up): the `GlobalState` they build is the fields of `Server.Engine`.
- src/compaction.rs: a stub with empty loops and no merge logic.
- File-system behaviour: `OpenOptions`, seeking, `read_exact`, durability and the file cursor. Files are entries of a map, and an open, read or write that fails for an I/O reason is not modelled; the WAL read ignores its read error and the model reads the whole log.
- A short `write` of the segment buffer or of a WAL record: each write is modelled as complete.
- The message text of `OtherError`: the model keeps its cause (`ReadFailed` or the `FromUtf8Error`) instead.
- `SystemTime`: the flush's timestamp is a parameter.
- Logging with `println!` and `eprintln!`.
- `usize` overflow of lengths and offsets: they are unbounded naturals. The `as u8` truncation of field lengths is modelled.
- The test at src/keyvalue.rs:37-46 expects Debug-format bytes and contradicts the serializer, so nothing is proved about it.
- The memtable's `BTreeMap` is a map with a proved key order; the drain order is a ghost function, and `pop_first` is a linear scan of the key set.
- WriteAheadLog.Wal.Read: returns the decoder's error or panic instead of a record vector, because `read_from_bytes` does not compile and its intended signature is unknown.
- MemTables.MemTable.NewWithWalData: a WAL that does not decode stops the construction with that error or panic, for the same reason.
- MemTables.MemTable.Get: a segment that cannot be opened panics with a fixed message; the source's message carries the OS error.
- Server.Engine.ProcessCmd: uses the intended `set` and flush, so its contract states the behaviour the findings below restore; the as-written ones are `MemTable.Set` and `MemTable.FlushToSstable`.

## Findings

| source | as written | input that shows it | evidently intended | confidence | as-written member | corrected member |
|---|---|---|---|---|---|---|
| src/memtable.rs:107-111 | the pattern `Some(value)` shadows the new value with the one `insert` returns, so an overwrite logs the previous value to the WAL | `set foo bar`, then `set foo baz`, then rebuild from the WAL: the rebuilt memtable answers `bar` | log the value just set | not executed; high | MemTables.OverwriteLogsStaleValue | MemTables.MemTable.SetIntended |
| src/memtable.rs:132-150 | the segment is opened in append mode but offsets are counted from the start of the new buffer | a segment already holding the record `("a", "1")`, for example after a second flush in the same second, then a flush of `{"b": "2"}`: `b` is indexed at offset 0 and `get b` returns `"1"` | count offsets from the segment's prior length | not executed; high | MemTables.SharedSegmentMisdirects | MemTables.FlushedKeysReadBack |
