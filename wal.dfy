/** The write-ahead log: one append-only file, `wal.dat`, decoded in full on
    replay. */
module WriteAheadLog {
  import opened Outcomes
  import opened Codec
  import opened KeyValues

  const WalFileName: string := "wal.dat"

  class Wal {
    /** The bytes of `wal.dat`. */
    var log: Bytes

    /** `Wal::new`: opens `wal.dat` in the directory, or creates it empty. */
    constructor (dir: map<string, Bytes>)
      ensures log == if WalFileName in dir then dir[WalFileName] else []
    {
      log := if WalFileName in dir then dir[WalFileName] else [];
    }

    /** `append`: writes the record's encoding at the end of the file. */
    method Append(keyValue: KeyValue)
      modifies this
      ensures log == old(log) + WriteToBytes(keyValue)
      ensures log[..|old(log)|] == old(log)
    {
      var serializedKvBytes := WriteToBytes(keyValue);
      log := log + serializedKvBytes;
    }

    /** `read`: reads the whole file and decodes every record in it. */
    method Read() returns (kvs: Outcome<seq<KeyValue>, FromUtf8Error>)
      ensures kvs == ReadFromBytes(log)
    {
      var buf := log;
      var decoded := Deserialize(buf);
      kvs := match decoded
        case Ok(ps) => Ok(Records(ps))
        case Err(e) => Err(e)
        case Panic(m) => Panic(m);
    }

    /** `clear_wal`, which the flush calls: truncates the file to empty. */
    method ClearWal()
      modifies this
      ensures log == []
    {
      log := [];
    }
  }

  /** The log test: a fresh log with `("foo", "bar")` appended reads back as
      exactly that record. */
  method AppendThenRead() returns (kvs: Outcome<seq<KeyValue>, FromUtf8Error>)
    ensures kvs == Ok([KeyValue([0x66, 0x6F, 0x6F], [0x62, 0x61, 0x72])])
  {
    var wal := new Wal(map[]);
    var keyValue := New(([0x66, 0x6F, 0x6F], [0x62, 0x61, 0x72]));
    wal.Append(keyValue);
    assert wal.log == [] + WriteToBytes(keyValue) == WriteToBytes(keyValue);
    ReadWritten(keyValue);
    kvs := wal.Read();
  }
}
