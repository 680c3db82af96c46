/** The memtable: a sorted map of the latest writes, backed by the WAL, and
    flushed in key order into a segment file whose records the index
    locates. */
module MemTables {
  import opened Outcomes
  import opened Codec
  import opened CodecProperties
  import opened KeyValues
  import opened WriteAheadLog
  import opened IndexStore
  import opened KeyOrder

  /** What went wrong below `get`: the read came up short, or the slice did
      not decode. */
  datatype OtherCause = ReadFailed | InvalidUtf8(error: FromUtf8Error)

  datatype MemTableError = GetError | SetError | NoValueFound | OtherError(cause: OtherCause)

  const UnwrapErr: string := "called `Result::unwrap()` on an `Err` value"
  const UnwrapNone: string := "called `Option::unwrap()` on a `None` value"

  predicate AllStorable(records: seq<KeyValue>)
  {
    forall i :: 0 <= i < |records| ==> Storable(records[i])
  }

  predicate StorableTree(tree: map<Bytes, Bytes>)
  {
    forall k :: k in tree ==> Storable(KeyValue(k, tree[k]))
  }

  predicate DistinctKeys(records: seq<KeyValue>)
  {
    forall i, j :: 0 <= i < j < |records| ==> records[i].key != records[j].key
  }

  /* ---------------- replay ---------------- */

  /** The tree that inserting the records one after another builds. */
  function Replay(records: seq<KeyValue>): map<Bytes, Bytes>
  {
    if records == [] then map[]
    else
      var n := |records| - 1;
      Replay(records[..n])[records[n].key := records[n].value]
  }

  lemma ReplaySnoc(records: seq<KeyValue>, kv: KeyValue)
    ensures Replay(records + [kv]) == Replay(records)[kv.key := kv.value]
  {
    assert (records + [kv])[..|records|] == records;
  }

  /** A key is in the replayed tree exactly when some record carries it. */
  lemma {:induction false} ReplayKeys(records: seq<KeyValue>, key: Bytes)
    ensures key in Replay(records) <==> exists i :: 0 <= i < |records| && records[i].key == key
    decreases |records|
  {
    if records != [] {
      var n := |records| - 1;
      ReplayKeys(records[..n], key);
      if key in Replay(records[..n]) {
        var i :| 0 <= i < n && records[..n][i].key == key;
        assert records[i].key == key;
      }
      if exists i :: 0 <= i < |records| && records[i].key == key {
        var i :| 0 <= i < |records| && records[i].key == key;
        if i < n {
          assert records[..n][i].key == key;
        }
      }
    }
  }

  /** The last record for a key decides its value. */
  lemma {:induction false} ReplayLastWins(records: seq<KeyValue>, i: nat)
    requires i < |records|
    requires forall j :: i < j < |records| ==> records[j].key != records[i].key
    ensures records[i].key in Replay(records)
    ensures Replay(records)[records[i].key] == records[i].value
    decreases |records|
  {
    var n := |records| - 1;
    if i < n {
      ReplayLastWins(records[..n], i);
    }
  }

  /* ---------------- set ---------------- */

  /** The record `set` appends to the WAL: at line 107 of `memtable.rs` the
      pattern `Some(value)` shadows the new value with the one `insert`
      returns, so an overwrite logs the key's previous value. */
  function LoggedRecord(tree: map<Bytes, Bytes>, key: Bytes, value: Bytes): (kv: KeyValue)
    ensures kv.key == key
    ensures key !in tree ==> kv.value == value
    ensures key in tree ==> kv.value == tree[key]
  {
    if key in tree then New((key, tree[key])) else New((key, value))
  }

  /** Replaying a log that ends with what `set` logged restores the previous
      value of an overwritten key, not the one set. */
  lemma OverwriteLogsStaleValue(records: seq<KeyValue>, tree: map<Bytes, Bytes>, key: Bytes, value: Bytes)
    requires key in tree && tree[key] != value
    ensures Replay(records + [LoggedRecord(tree, key, value)])[key] == tree[key]
    ensures Replay(records + [LoggedRecord(tree, key, value)])[key] != tree[key := value][key]
  {
    ReplaySnoc(records, LoggedRecord(tree, key, value));
  }

  /* ---------------- the flush's layout ---------------- */

  /** The records the flush drains, in `pop_first` order. */
  ghost function Drained(tree: map<Bytes, Bytes>): (rs: seq<KeyValue>)
    ensures |rs| == |tree|
  {
    Records(Sorted(tree))
  }

  /** The drained records are the tree's entries, each key once. */
  lemma DrainedEntries(tree: map<Bytes, Bytes>)
    ensures forall i :: 0 <= i < |Drained(tree)| ==> Drained(tree)[i].key in tree && tree[Drained(tree)[i].key] == Drained(tree)[i].value
    ensures DistinctKeys(Drained(tree))
  {
    SortedEntries(tree);
  }

  lemma DrainedFirst(tree: map<Bytes, Bytes>, m: Bytes)
    requires tree != map[] && m == Least(tree.Keys)
    ensures Drained(tree) == [New((m, tree[m]))] + Drained(tree - {m})
  {
    var rest := tree - {m};
    assert rest.Keys == tree.Keys - {m};
    assert Sorted(tree) == [(m, tree[m])] + Sorted(rest);
    var s := Sorted(tree);
    assert Records(s)[1..] == Records(s[1..]);
  }

  /** Popping the least key of the tree moves its record to the drained ones. */
  lemma DrainStep(oldTree: map<Bytes, Bytes>, tree: map<Bytes, Bytes>, drained: seq<KeyValue>, key: Bytes)
    requires key in tree && forall k :: k in tree ==> Below(key, k)
    requires Drained(oldTree) == drained + Drained(tree)
    ensures Drained(oldTree) == (drained + [New((key, tree[key]))]) + Drained(tree - {key})
    ensures |tree - {key}| < |tree|
  {
    LeastUnique(tree.Keys, key);
    DrainedFirst(tree, key);
    assert (tree - {key}).Keys == tree.Keys - {key};
  }

  lemma UnionUpdate<K, V>(a: map<K, V>, b: map<K, V>, k: K, v: V)
    ensures (a + b)[k := v] == a + b[k := v]
  {
  }

  lemma DrainedCovers(tree: map<Bytes, Bytes>, k: Bytes)
    requires k in tree
    ensures exists i :: 0 <= i < |Drained(tree)| && Drained(tree)[i].key == k
  {
    SortedCovers(tree, k);
    var i :| 0 <= i < |Sorted(tree)| && Sorted(tree)[i].0 == k;
    assert Drained(tree)[i].key == k;
  }

  /** The index entries a flush creates: each record at `base` plus the bytes
      written before it in the segment buffer, with its encoded length. */
  function Placement(records: seq<KeyValue>, name: string, base: nat): map<Bytes, Index>
  {
    if records == [] then map[]
    else
      var n := |records| - 1;
      Placement(records[..n], name, base)[records[n].key := Index.From(base + |Stream(records[..n])|, |WriteToBytes(records[n])|, name)]
  }

  lemma PlacementSnoc(records: seq<KeyValue>, kv: KeyValue, name: string, base: nat)
    ensures Placement(records + [kv], name, base) ==
            Placement(records, name, base)[kv.key := Index.From(base + |Stream(records)|, |WriteToBytes(kv)|, name)]
  {
    assert (records + [kv])[..|records|] == records;
  }

  /** With distinct keys, record i is placed right after the records before it. */
  lemma {:induction false} PlacementAt(records: seq<KeyValue>, name: string, base: nat, i: nat)
    requires DistinctKeys(records) && i < |records|
    ensures records[i].key in Placement(records, name, base)
    ensures Placement(records, name, base)[records[i].key] ==
            Index(base + |Stream(records[..i])|, |WriteToBytes(records[i])|, name)
    decreases |records|
  {
    var n := |records| - 1;
    if i < n {
      var front := records[..n];
      assert front[..i] == records[..i];
      PlacementAt(front, name, base, i);
    }
  }

  /** The bytes of the segment `name`, or none when it does not exist yet. */
  function Existing(segments: map<string, Bytes>, name: string): (file: Bytes)
    ensures name !in segments ==> file == []
    ensures name in segments ==> file == segments[name]
  {
    if name in segments then segments[name] else []
  }

  /** Decimal digits of a number, most significant first. */
  function Decimal(n: nat): (s: string)
    ensures |s| >= 1
    ensures forall i :: 0 <= i < |s| ==> '0' <= s[i] <= '9'
    decreases n
  {
    var digit := ["0123456789"[n % 10]];
    if n < 10 then digit else Decimal(n / 10) + digit
  }

  /** The segment file name for a flush at `timestamp` seconds. */
  function SegmentName(timestamp: nat): (name: string)
    ensures |name| > 12 && name[|name| - 12..] == "_sstable.dat"
  {
    Decimal(timestamp) + "_sstable.dat"
  }

  /* ---------------- reading a segment slice ---------------- */

  /** The part of `get` after the index lookup: open the segment, seek to
      `offset`, read exactly `len` bytes, decode them and take the value of
      the first record. A segment that cannot be opened and a slice that
      decodes to no record both panic. */
  function ReadSegment(segments: map<string, Bytes>, fileName: string, offset: nat, len: nat): (r: Outcome<Bytes, MemTableError>)
    ensures fileName !in segments ==> r.Panic?
    ensures r == Err(OtherError(ReadFailed)) <==> fileName in segments && 0 < len && |segments[fileName]| < offset + len
    ensures r.Ok? ==> fileName in segments && offset + len <= |segments[fileName]|
  {
    if fileName !in segments then Panic(UnwrapErr)
    else
      var file := segments[fileName];
      if len > 0 && offset + len > |file| then Err(OtherError(ReadFailed))
      else
        var buf := if len == 0 then [] else file[offset..offset + len];
        match Decode(buf)
        case Ok(val) => if val == [] then Panic(UnwrapNone) else Ok(val[0].1)
        case Err(e) => Err(OtherError(InvalidUtf8(e)))
        case Panic(m) => Panic(m)
  }

  /** The index entry `ix` names exactly the bytes of the record `kv`. */
  predicate Locates(segments: map<string, Bytes>, ix: Index, kv: KeyValue)
  {
    ix.fileName in segments && ix.length == |WriteToBytes(kv)| &&
    ix.offset + ix.length <= |segments[ix.fileName]| &&
    segments[ix.fileName][ix.offset..ix.offset + ix.length] == WriteToBytes(kv)
  }

  /** A slice holding exactly the encoding of a storable record reads back as
      that record's value. */
  lemma ReadLocated(segments: map<string, Bytes>, ix: Index, kv: KeyValue)
    requires Storable(kv) && Locates(segments, ix, kv)
    ensures ReadSegment(segments, ix.fileName, ix.offset, ix.length) == Ok(kv.value)
  {
    DecodeEncode(kv.key, kv.value);
  }

  /** A slice holding a record with a byte of 0x80 or more in its key or
      value fails to decode, and `get` reports the decoder's error. */
  lemma ReadRejectsNonAscii(segments: map<string, Bytes>, ix: Index, kv: KeyValue)
    requires Fits(kv.key) && Fits(kv.value) && !(Ascii(kv.key) && Ascii(kv.value))
    requires Locates(segments, ix, kv)
    ensures FirstNonAscii(kv.key + kv.value).Some?
    ensures ReadSegment(segments, ix.fileName, ix.offset, ix.length) ==
            Err(OtherError(InvalidUtf8(FromUtf8Error([FirstNonAscii(kv.key + kv.value).value]))))
  {
    DecodeRejectsNonAscii(kv.key, kv.value);
  }

  /** Record i of a stream written after `prior` sits at `|prior|` plus the
      bytes of the records before it. */
  lemma StreamSlice(prior: Bytes, records: seq<KeyValue>, i: nat)
    requires i < |records|
    ensures var off := |prior| + |Stream(records[..i])|;
            var file := prior + Stream(records);
            off + |WriteToBytes(records[i])| <= |file| &&
            file[off..off + |WriteToBytes(records[i])|] == WriteToBytes(records[i])
  {
    StreamSplit(records, i);
    var a, b, c := Stream(records[..i]), WriteToBytes(records[i]), Stream(records[i + 1..]);
    assert prior + Stream(records) == (prior + a) + b + c;
  }

  /** Records with distinct keys written after `prior` and placed from
      `|prior|` on: each record's entry names exactly its bytes. */
  lemma RecordLocates(records: seq<KeyValue>, prior: Bytes, segments: map<string, Bytes>, name: string, i: nat)
    requires DistinctKeys(records) && i < |records|
    ensures records[i].key in Placement(records, name, |prior|)
    ensures Placement(records, name, |prior|)[records[i].key].fileName == name
    ensures Locates(segments[name := prior + Stream(records)], Placement(records, name, |prior|)[records[i].key], records[i])
  {
    PlacementAt(records, name, |prior|, i);
    StreamSlice(prior, records, i);
  }

  /** When a flush writes the drained records after the `prior` bytes of the
      segment and places them from `|prior|` on, every flushed key's entry
      names exactly its record. */
  lemma FlushLocates(tree: map<Bytes, Bytes>, prior: Bytes, segments: map<string, Bytes>, name: string, k: Bytes)
    requires k in tree
    ensures k in Placement(Drained(tree), name, |prior|)
    ensures Placement(Drained(tree), name, |prior|)[k].fileName == name
    ensures Locates(segments[name := prior + Stream(Drained(tree))], Placement(Drained(tree), name, |prior|)[k], KeyValue(k, tree[k]))
  {
    var rs := Drained(tree);
    DrainedCovers(tree, k);
    var i :| 0 <= i < |rs| && rs[i].key == k;
    DrainedEntries(tree);
    assert rs[i] == KeyValue(k, tree[k]);
    RecordLocates(rs, prior, segments, name, i);
  }

  /** Appending to a segment leaves every earlier record where its index
      entry says it is. */
  lemma AppendKeepsLocation(segments: map<string, Bytes>, name: string, more: Bytes, ix: Index, kv: KeyValue)
    requires Locates(segments, ix, kv)
    ensures Locates(segments[name := Existing(segments, name) + more], ix, kv)
  {
    if ix.fileName == name {
      var file := segments[name];
      assert (file + more)[ix.offset..ix.offset + ix.length] == file[ix.offset..ix.offset + ix.length];
    }
  }

  /** Every key a flush indexes is the key of a record it drained. */
  lemma {:induction false} PlacementKeys(records: seq<KeyValue>, name: string, base: nat, k: Bytes)
    requires k in Placement(records, name, base)
    ensures exists i :: 0 <= i < |records| && records[i].key == k
    decreases |records|
  {
    var n := |records| - 1;
    if k != records[n].key {
      PlacementKeys(records[..n], name, base, k);
      var i :| 0 <= i < n && records[..n][i].key == k;
      assert records[i].key == k;
    }
  }

  /** A slice that read back a value before an append to a segment reads back
      the same value after it. */
  lemma ReadAfterAppend(segments: map<string, Bytes>, name: string, more: Bytes, fileName: string, offset: nat, len: nat)
    requires ReadSegment(segments, fileName, offset, len).Ok?
    ensures ReadSegment(segments[name := Existing(segments, name) + more], fileName, offset, len) ==
            ReadSegment(segments, fileName, offset, len)
  {
    if fileName == name && len > 0 {
      var file := segments[name];
      assert (file + more)[offset..offset + len] == file[offset..offset + len];
    }
  }

  /** A flush leaves the index entry of a key outside the flushed tree alone,
      and the slice it names still reads back the same value. */
  lemma FlushKeepsEarlierRead(tree: map<Bytes, Bytes>, segments: map<string, Bytes>, name: string,
                              before: map<Bytes, Index>, base: nat, k: Bytes)
    requires k !in tree && k in before
    requires ReadSegment(segments, before[k].fileName, before[k].offset, before[k].length).Ok?
    ensures k in before + Placement(Drained(tree), name, base)
    ensures (before + Placement(Drained(tree), name, base))[k] == before[k]
    ensures ReadSegment(segments[name := Existing(segments, name) + Stream(Drained(tree))], before[k].fileName, before[k].offset, before[k].length) ==
            ReadSegment(segments, before[k].fileName, before[k].offset, before[k].length)
  {
    if k in Placement(Drained(tree), name, base) {
      PlacementKeys(Drained(tree), name, base, k);
      var i :| 0 <= i < |Drained(tree)| && Drained(tree)[i].key == k;
      DrainedEntries(tree);
      assert false;
    }
    ReadAfterAppend(segments, name, Stream(Drained(tree)), before[k].fileName, before[k].offset, before[k].length);
  }

  /** Flush integrity: every flushed key is indexed, and its slice reads back
      as its value. */
  lemma FlushedKeysReadBack(tree: map<Bytes, Bytes>, prior: Bytes, segments: map<string, Bytes>, name: string, k: Bytes)
    requires k in tree && StorableTree(tree)
    ensures k in Placement(Drained(tree), name, |prior|)
    ensures var ix := Placement(Drained(tree), name, |prior|)[k];
            ix.fileName == name &&
            ReadSegment(segments[name := prior + Stream(Drained(tree))], ix.fileName, ix.offset, ix.length) == Ok(tree[k])
  {
    FlushLocates(tree, prior, segments, name, k);
    ReadLocated(segments[name := prior + Stream(Drained(tree))], Placement(Drained(tree), name, |prior|)[k], KeyValue(k, tree[k]));
  }

  /** What `pop_first` drains from a one-key tree. */
  lemma DrainedSingleton(key: Bytes, value: Bytes)
    ensures Drained(map[key := value]) == [KeyValue(key, value)]
  {
    var tree := map[key := value];
    assert tree.Keys == {key};
    assert tree - {key} == map[];
    DrainedFirst(tree, key);
  }

  /** The flush as written places records from offset 0 even when the segment
      already holds bytes (a second flush within the same second appends to
      the same file): the index then points `b` at the earlier record of `a`,
      and reading `b` back yields `a`'s value. */
  lemma SharedSegmentMisdirects(segments: map<string, Bytes>, name: string)
    ensures var prior := WriteToBytes(KeyValue([0x61], [0x31]));
            var tree := map[[0x62] := [0x32]];
            var ix := Placement(Drained(tree), name, 0)[[0x62]];
            ReadSegment(segments[name := prior + Stream(Drained(tree))], ix.fileName, ix.offset, ix.length) == Ok([0x31])
  {
    var prior := WriteToBytes(KeyValue([0x61], [0x31]));
    var kv := KeyValue([0x62], [0x32]);
    DrainedSingleton([0x62], [0x32]);
    assert Stream([kv]) == WriteToBytes(kv) by { assert [kv][1..] == []; }
    PlacementAt([kv], name, 0, 0);
    assert [kv][..0] == [];
    var file := prior + WriteToBytes(kv);
    assert file[0..4] == prior;
    ReadLocated(segments[name := file], Index(0, 4, name), KeyValue([0x61], [0x31]));
  }

  /* ---------------- the memtable ---------------- */

  class MemTable {
    /** The `BTreeMap` of the latest values. */
    var tree: map<Bytes, Bytes>
    /** The segment directory: file name to bytes. */
    var segments: map<string, Bytes>
    const wal: Wal
    /** The records the WAL holds since the last flush. */
    ghost var pending: seq<KeyValue>

    /** The WAL holds the records since the last flush, and replaying them
        rebuilds the tree. */
    ghost predicate Recoverable()
      reads this, wal
    {
      wal.log == Stream(pending) && AllStorable(pending) && tree == Replay(pending)
    }

    /** `MemTable::new`: an empty tree over the given WAL and segment
        directory. */
    constructor (wal: Wal, segments: map<string, Bytes>)
      ensures tree == map[] && this.wal == wal && this.segments == segments && pending == []
      ensures wal.log == [] ==> Recoverable()
    {
      tree := map[];
      this.wal := wal;
      this.segments := segments;
      pending := [];
    }

    /** `new_with_wal_data`: reads the WAL and inserts its records in order.
        A WAL that does not decode stops the construction with the decoder's
        error or panic. */
    static method NewWithWalData(wal: Wal, segments: map<string, Bytes>) returns (r: Outcome<MemTable, FromUtf8Error>)
      ensures ReadFromBytes(wal.log).Err? ==> r == Err(ReadFromBytes(wal.log).error)
      ensures ReadFromBytes(wal.log).Panic? ==> r == Panic(ReadFromBytes(wal.log).message)
      ensures ReadFromBytes(wal.log).Ok? ==> r.Ok?
      ensures r.Ok? ==> fresh(r.value) && r.value.wal == wal && r.value.segments == segments &&
                        ReadFromBytes(wal.log) == Ok(r.value.pending) && r.value.tree == Replay(r.value.pending)
      ensures forall rs :: wal.log == Stream(rs) && AllStorable(rs) ==>
                r.Ok? && r.value.pending == rs && r.value.Recoverable()
    {
      var kvVec := wal.Read();
      forall rs | wal.log == Stream(rs) && AllStorable(rs)
        ensures kvVec == Ok(rs)
      {
        ReadStream(rs);
      }
      if kvVec.Err? {
        return Err(kvVec.error);
      } else if kvVec.Panic? {
        return Panic(kvVec.message);
      }
      var kvs := kvVec.value;
      var tree: map<Bytes, Bytes> := map[];
      for i := 0 to |kvs|
        invariant tree == Replay(kvs[..i])
      {
        assert kvs[..i + 1] == kvs[..i] + [kvs[i]];
        ReplaySnoc(kvs[..i], kvs[i]);
        tree := tree[kvs[i].key := kvs[i].value];
      }
      assert kvs[..|kvs|] == kvs;
      var m := new MemTable(wal, segments);
      m.tree := tree;
      m.pending := kvs;
      r := Ok(m);
    }

    /** `get`: the tree first; otherwise the index, then the slice of the
        segment it names. */
    function Get(key: Bytes, indexes: Indexes): (r: Outcome<Bytes, MemTableError>)
      reads this, indexes
      ensures key in tree ==> r == Ok(tree[key])
      ensures key !in tree && key !in indexes.indexes ==> r == Err(NoValueFound)
      ensures key !in tree && key in indexes.indexes ==>
                r == ReadSegment(segments, indexes.indexes[key].fileName, indexes.indexes[key].offset, indexes.indexes[key].length)
    {
      if key in tree then Ok(tree[key])
      else
        var fileName := indexes.GetFile(key);
        var offset := indexes.GetOffset(key);
        var len := indexes.GetLen(key);
        if fileName.None? || offset.None? || len.None? then Err(NoValueFound)
        else ReadSegment(segments, fileName.value, offset.value, len.value)
    }

    /** `set` as written: the tree takes the new value, and the WAL gets the
        record `LoggedRecord` names, the previous value on an overwrite. */
    method Set(key: Bytes, value: Bytes) returns (r: Outcome<(), MemTableError>)
      modifies this, wal
      ensures tree == old(tree)[key := value]
      ensures wal.log == old(wal.log) + WriteToBytes(LoggedRecord(old(tree), key, value))
      ensures pending == old(pending) + [LoggedRecord(old(tree), key, value)]
      ensures segments == old(segments)
      ensures r == Ok(())
    {
      var previous := if key in tree then Some(tree[key]) else None;
      tree := tree[key := value];
      if previous.Some? {
        wal.Append(New((key, previous.value)));
      } else {
        wal.Append(New((key, value)));
      }
      pending := pending + [LoggedRecord(old(tree), key, value)];
      r := Ok(());
    }

    /** `set` as intended: the WAL records the value set, so replay rebuilds
        the tree. */
    method SetIntended(key: Bytes, value: Bytes) returns (r: Outcome<(), MemTableError>)
      modifies this, wal
      ensures tree == old(tree)[key := value]
      ensures wal.log == old(wal.log) + WriteToBytes(KeyValue(key, value))
      ensures pending == old(pending) + [KeyValue(key, value)]
      ensures segments == old(segments)
      ensures old(Recoverable()) && Storable(KeyValue(key, value)) ==> Recoverable()
      ensures r == Ok(())
    {
      var kv := New((key, value));
      tree := tree[key := value];
      wal.Append(kv);
      StreamSnoc(pending, kv);
      ReplaySnoc(pending, kv);
      pending := pending + [kv];
      r := Ok(());
    }

    /** The `pop_first` loop of the flush: drains the tree in ascending key
        order into a buffer, indexing each record at `base` plus the buffer's
        length so far. */
    method Drain(indexes: Indexes, name: string, base: nat) returns (sstableVec: Bytes)
      modifies this, indexes
      ensures tree == map[]
      ensures sstableVec == Stream(Drained(old(tree)))
      ensures indexes.indexes == old(indexes.indexes) + Placement(Drained(old(tree)), name, base)
      ensures segments == old(segments) && pending == old(pending)
    {
      sstableVec := [];
      ghost var drained: seq<KeyValue> := [];
      while tree != map[]
        invariant Drained(old(tree)) == drained + Drained(tree)
        invariant sstableVec == Stream(drained)
        invariant indexes.indexes == old(indexes.indexes) + Placement(drained, name, base)
        invariant segments == old(segments) && pending == old(pending)
        decreases |tree|
      {
        var key := LeastKey(tree.Keys);
        var kv := New((key, tree[key]));
        DrainStep(old(tree), tree, drained, key);
        tree := tree - {key};
        var kvAsBytes := WriteToBytes(kv);
        ghost var placed := Placement(drained, name, base);
        ghost var ix := Index.From(base + |sstableVec|, |kvAsBytes|, name);
        ghost var before := indexes.indexes;
        assert before == old(indexes.indexes) + placed;
        indexes.CreateIndex(key, base + |sstableVec|, |kvAsBytes|, name);
        assert indexes.indexes == before[key := ix];
        PlacementSnoc(drained, kv, name, base);
        UnionUpdate(old(indexes.indexes), placed, key, ix);
        StreamSnoc(drained, kv);
        sstableVec := sstableVec + kvAsBytes;
        drained := drained + [kv];
      }
      assert Drained(tree) == [];
      assert drained + [] == drained;
    }

    /** `flush_to_sstable` as written: the drained records are appended to the
        segment named after the timestamp, but placed from offset 0, and the
        WAL is cleared. */
    method FlushToSstable(indexes: Indexes, timestamp: nat)
      modifies this, wal, indexes
      ensures tree == map[] && wal.log == [] && pending == []
      ensures var name := SegmentName(timestamp);
              segments == old(segments)[name := Existing(old(segments), name) + Stream(Drained(old(tree)))] &&
              indexes.indexes == old(indexes.indexes) + Placement(Drained(old(tree)), name, 0)
      ensures Recoverable()
      ensures forall k :: k !in old(tree) && old(Get(k, indexes)).Ok? ==> Get(k, indexes) == old(Get(k, indexes))
    {
      var sstableName := SegmentName(timestamp);
      var sstableFile := Existing(segments, sstableName);
      ghost var drained := Drained(tree);
      ghost var drained0, oldSegments := tree, segments;
      var sstableVec := Drain(indexes, sstableName, 0);
      assert sstableVec == Stream(drained);
      segments := segments[sstableName := sstableFile + sstableVec];
      ghost var placed := indexes.indexes;
      wal.ClearWal();
      assert indexes.indexes == placed;
      pending := [];
      assert Stream([]) == [] && Replay([]) == map[];
      GetKeptByFlush(this, indexes, drained0, oldSegments, sstableName, old(indexes.indexes), 0);
    }

    /** `flush_to_sstable` as intended: records are placed after the bytes the
        segment already holds, so every flushed key reads back its value. */
    method FlushToSstableIntended(indexes: Indexes, timestamp: nat)
      modifies this, wal, indexes
      ensures tree == map[] && wal.log == [] && pending == []
      ensures var name := SegmentName(timestamp);
              var prior := Existing(old(segments), name);
              segments == old(segments)[name := prior + Stream(Drained(old(tree)))] &&
              indexes.indexes == old(indexes.indexes) + Placement(Drained(old(tree)), name, |prior|)
      ensures Recoverable()
      ensures StorableTree(old(tree)) ==> forall k :: k in old(tree) ==> Get(k, indexes) == Ok(old(tree)[k])
      ensures forall k :: k !in old(tree) && old(Get(k, indexes)).Ok? ==> Get(k, indexes) == old(Get(k, indexes))
    {
      var sstableName := SegmentName(timestamp);
      var sstableFile := Existing(segments, sstableName);
      ghost var oldTree, oldSegments := tree, segments;
      var sstableVec := Drain(indexes, sstableName, |sstableFile|);
      segments := segments[sstableName := sstableFile + sstableVec];
      wal.ClearWal();
      pending := [];
      if StorableTree(oldTree) {
        GetAfterFlush(this, indexes, oldTree, sstableFile, oldSegments, sstableName, old(indexes.indexes));
      }
      GetKeptByFlush(this, indexes, oldTree, oldSegments, sstableName, old(indexes.indexes), |sstableFile|);
    }
  }

  /** After a flush that places records after the segment's prior bytes,
      `get` finds every flushed key's value through the index. */
  lemma GetAfterFlush(mt: MemTable, indexes: Indexes, tree: map<Bytes, Bytes>, prior: Bytes,
                      segments: map<string, Bytes>, name: string, before: map<Bytes, Index>)
    requires StorableTree(tree)
    requires mt.tree == map[]
    requires mt.segments == segments[name := prior + Stream(Drained(tree))]
    requires indexes.indexes == before + Placement(Drained(tree), name, |prior|)
    ensures forall k :: k in tree ==> mt.Get(k, indexes) == Ok(tree[k])
  {
    forall k | k in tree
      ensures mt.Get(k, indexes) == Ok(tree[k])
    {
      FlushedKeysReadBack(tree, prior, segments, name, k);
    }
  }

  /** After a flush, a key outside the flushed tree that read back a value
      through the index still reads back that value. */
  lemma GetKeptByFlush(mt: MemTable, indexes: Indexes, tree: map<Bytes, Bytes>, segments: map<string, Bytes>,
                       name: string, before: map<Bytes, Index>, base: nat)
    requires mt.tree == map[]
    requires mt.segments == segments[name := Existing(segments, name) + Stream(Drained(tree))]
    requires indexes.indexes == before + Placement(Drained(tree), name, base)
    ensures forall k :: k !in tree && k in before && ReadSegment(segments, before[k].fileName, before[k].offset, before[k].length).Ok? ==>
              mt.Get(k, indexes) == ReadSegment(segments, before[k].fileName, before[k].offset, before[k].length)
  {
    forall k | k !in tree && k in before && ReadSegment(segments, before[k].fileName, before[k].offset, before[k].length).Ok?
      ensures mt.Get(k, indexes) == ReadSegment(segments, before[k].fileName, before[k].offset, before[k].length)
    {
      FlushKeepsEarlierRead(tree, segments, name, before, base, k);
    }
  }
}
