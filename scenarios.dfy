/** The memtable's own test scenarios, over a fresh WAL and an empty segment
    directory. */
module MemTableScenarios {
  import opened Outcomes
  import opened Codec
  import opened KeyValues
  import opened WriteAheadLog
  import opened IndexStore
  import opened MemTables

  const Foo: Bytes := [0x66, 0x6F, 0x6F]
  const Bar: Bytes := [0x62, 0x61, 0x72]
  const Baz: Bytes := [0x62, 0x61, 0x7A]
  const Tadashi: Bytes := [0x74, 0x61, 0x64, 0x61, 0x73, 0x68, 0x69]
  const Mizu: Bytes := [0x6D, 0x69, 0x7A, 0x75]

  /** Sets three fresh keys with `set` as written, so each WAL record is the
      pair set. */
  method SetThree() returns (memtable: MemTable)
    ensures fresh(memtable) && fresh(memtable.wal)
    ensures Foo in memtable.tree && Bar in memtable.tree && Tadashi in memtable.tree
    ensures memtable.tree[Foo] == Bar && memtable.tree[Bar] == Baz && memtable.tree[Tadashi] == Mizu
    ensures StorableTree(memtable.tree)
    ensures memtable.pending == [KeyValue(Foo, Bar), KeyValue(Bar, Baz), KeyValue(Tadashi, Mizu)]
    ensures memtable.wal.log == Stream(memtable.pending) && memtable.segments == map[]
  {
    var wal := new Wal(map[]);
    memtable := new MemTable(wal, map[]);
    var r := memtable.Set(Foo, Bar);
    StreamSnoc([], KeyValue(Foo, Bar));
    r := memtable.Set(Bar, Baz);
    StreamSnoc([KeyValue(Foo, Bar)], KeyValue(Bar, Baz));
    r := memtable.Set(Tadashi, Mizu);
    StreamSnoc([KeyValue(Foo, Bar), KeyValue(Bar, Baz)], KeyValue(Tadashi, Mizu));
    assert memtable.tree == map[Foo := Bar, Bar := Baz, Tadashi := Mizu];
    ThreeStorable();
  }

  lemma ReplayThree()
    ensures Replay([KeyValue(Foo, Bar), KeyValue(Bar, Baz), KeyValue(Tadashi, Mizu)]) == map[Foo := Bar, Bar := Baz, Tadashi := Mizu]
  {
    var a, b, c := KeyValue(Foo, Bar), KeyValue(Bar, Baz), KeyValue(Tadashi, Mizu);
    ReplaySnoc([], a);
    assert [] + [a] == [a];
    ReplaySnoc([a], b);
    assert [a] + [b] == [a, b];
    ReplaySnoc([a, b], c);
    assert [a, b] + [c] == [a, b, c];
  }

  lemma ThreeStorable()
    ensures StorableTree(map[Foo := Bar, Bar := Baz, Tadashi := Mizu])
  {
    var tree := map[Foo := Bar, Bar := Baz, Tadashi := Mizu];
    assert tree.Keys == {Foo, Bar, Tadashi};
    assert Storable(KeyValue(Foo, Bar)) && Storable(KeyValue(Bar, Baz)) && Storable(KeyValue(Tadashi, Mizu));
  }

  /** `test_insert_and_get_memtable`: each key set reads back from the tree. */
  method InsertAndGet() returns (foo: Outcome<Bytes, MemTableError>, bar: Outcome<Bytes, MemTableError>, tadashi: Outcome<Bytes, MemTableError>)
    ensures foo == Ok(Bar) && bar == Ok(Baz) && tadashi == Ok(Mizu)
  {
    var memtable := SetThree();
    var indexes := new Indexes();
    foo := memtable.Get(Foo, indexes);
    bar := memtable.Get(Bar, indexes);
    tadashi := memtable.Get(Tadashi, indexes);
  }

  /** `test_new_memtable_with_wal_data`: a memtable rebuilt from the WAL of
      another answers the same values. */
  method ReplayAfterSets() returns (foo: Outcome<Bytes, MemTableError>, bar: Outcome<Bytes, MemTableError>, tadashi: Outcome<Bytes, MemTableError>)
    ensures foo == Ok(Bar) && bar == Ok(Baz) && tadashi == Ok(Mizu)
  {
    var memtable := SetThree();
    var indexes := new Indexes();
    var replayed := MemTable.NewWithWalData(memtable.wal, memtable.segments);
    var rs := memtable.pending;
    assert AllStorable(rs);
    var m := replayed.value;
    ReplayThree();
    assert m.tree == map[Foo := Bar, Bar := Baz, Tadashi := Mizu];
    foo := m.Get(Foo, indexes);
    bar := m.Get(Bar, indexes);
    tadashi := m.Get(Tadashi, indexes);
  }

  /** `set` as written on an overwrite: the tree holds the new value, but the
      memtable rebuilt from its WAL holds the old one. */
  method OverwriteThenReplay() returns (live: Outcome<Bytes, MemTableError>, recovered: Outcome<Bytes, MemTableError>)
    ensures live == Ok(Baz) && recovered == Ok(Bar)
  {
    var wal := new Wal(map[]);
    var memtable := new MemTable(wal, map[]);
    var indexes := new Indexes();
    var r := memtable.Set(Foo, Bar);
    StreamSnoc([], KeyValue(Foo, Bar));
    r := memtable.Set(Foo, Baz);
    StreamSnoc([KeyValue(Foo, Bar)], KeyValue(Foo, Bar));
    live := memtable.Get(Foo, indexes);
    var rs := memtable.pending;
    assert rs == [KeyValue(Foo, Bar)] + [KeyValue(Foo, Bar)];
    assert AllStorable(rs);
    var replayed := MemTable.NewWithWalData(memtable.wal, memtable.segments);
    var m := replayed.value;
    ReplaySnoc([], KeyValue(Foo, Bar));
    ReplaySnoc([KeyValue(Foo, Bar)], KeyValue(Foo, Bar));
    assert m.tree == map[Foo := Bar];
    recovered := m.Get(Foo, indexes);
  }

  /** `test_flush_memtable_to_sstable`, with the flush as written: on an
      empty segment directory placing from offset 0 is placing after the
      segment's prior bytes, so every key is read back from the segment. */
  method FlushThenGet(timestamp: nat) returns (foo: Outcome<Bytes, MemTableError>, bar: Outcome<Bytes, MemTableError>, tadashi: Outcome<Bytes, MemTableError>)
    ensures foo == Ok(Bar) && bar == Ok(Baz) && tadashi == Ok(Mizu)
  {
    var memtable := SetThree();
    var indexes := new Indexes();
    ghost var tree := memtable.tree;
    memtable.FlushToSstable(indexes, timestamp);
    ghost var name := SegmentName(timestamp);
    assert Existing(map[], name) == [];
    FlushedKeysReadBack(tree, [], map[], name, Foo);
    FlushedKeysReadBack(tree, [], map[], name, Bar);
    FlushedKeysReadBack(tree, [], map[], name, Tadashi);
    foo := memtable.Get(Foo, indexes);
    bar := memtable.Get(Bar, indexes);
    tadashi := memtable.Get(Tadashi, indexes);
  }
}
