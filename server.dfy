/** `process_cmd`: dispatches one decoded RESP command to the memtable and
    answers with the reply bytes. */
module Server {
  import opened Outcomes
  import opened Codec
  import opened KeyValues
  import opened IndexStore
  import opened MemTables

  /** A value as the RESP decoder yields it. */
  datatype Value =
    | Null
    | NullArray
    | SimpleString(text: Bytes)
    | Error(text: Bytes)
    | Integer(n: int)
    | Bulk(text: Bytes)
    | BufBulk(bytes: Bytes)
    | Array(items: seq<Value>)

  const GetName: Bytes := [0x67, 0x65, 0x74]
  const SetName: Bytes := [0x73, 0x65, 0x74]
  const CommandName: Bytes := [0x43, 0x4F, 0x4D, 0x4D, 0x41, 0x4E, 0x44]
  /** `+OK\r\n` */
  const OkReply: Bytes := [0x2B, 0x4F, 0x4B, 0x0D, 0x0A]
  const Unimplemented: string := "not implemented"

  /** The simple-string reply `+<value>\r\n` to a `get`. */
  function ValueReply(value: Bytes): (r: Bytes)
    ensures |r| == |value| + 3 && r[0] == 0x2B && r[1..|r| - 2] == value && r[|r| - 2..] == [0x0D, 0x0A]
  {
    [0x2B] + value + [0x0D, 0x0A]
  }

  /** Which branch of `process_cmd` a command takes. */
  datatype Command =
    | GetCmd(key: Value)
    | GetNoKey
    | SetCmd(key: Value, value: Value)
    | SetNoKey
    | SetNoValue
    | Probe
    | Unsupported
    | NotArray

  /** The dispatch: a top-level array whose first element is the bulk string
      `get`, `set` or `COMMAND`, with the arguments that follow it. */
  function Classify(cmd: Value): (c: Command)
    ensures c == NotArray <==> !cmd.Array?
    ensures c.GetCmd? <==> cmd.Array? && |cmd.items| >= 2 && cmd.items[0] == Bulk(GetName)
    ensures c == GetNoKey <==> cmd == Array([Bulk(GetName)])
    ensures c.SetCmd? <==> cmd.Array? && |cmd.items| >= 3 && cmd.items[0] == Bulk(SetName)
    ensures c == SetNoKey <==> cmd == Array([Bulk(SetName)])
    ensures c == SetNoValue <==> cmd.Array? && |cmd.items| == 2 && cmd.items[0] == Bulk(SetName)
    ensures c == Probe <==> cmd.Array? && |cmd.items| >= 1 && cmd.items[0] == Bulk(CommandName)
    ensures c == Unsupported <==> cmd.Array? && (cmd.items == [] || cmd.items[0] !in {Bulk(GetName), Bulk(SetName), Bulk(CommandName)})
    ensures c.GetCmd? ==> cmd.Array? && |cmd.items| >= 2 && c.key == cmd.items[1]
    ensures c.SetCmd? ==> cmd.Array? && |cmd.items| >= 3 && c.key == cmd.items[1] && c.value == cmd.items[2]
  {
    if !cmd.Array? then NotArray
    else if cmd.items == [] || !cmd.items[0].Bulk? then Unsupported
    else
      var name := cmd.items[0].text;
      if name == GetName then
        if |cmd.items| >= 2 then GetCmd(cmd.items[1]) else GetNoKey
      else if name == SetName then
        if |cmd.items| < 2 then SetNoKey
        else if |cmd.items| < 3 then SetNoValue
        else SetCmd(cmd.items[1], cmd.items[2])
      else if name == CommandName then Probe
      else Unsupported
  }

  /** The engine's shared state: the memtable, the index and the flush
      threshold. */
  class Engine {
    const memtable: MemTable
    const indexes: Indexes
    const sstableThreshold: nat

    constructor (memtable: MemTable, indexes: Indexes, sstableThreshold: nat)
      ensures this.memtable == memtable && this.indexes == indexes && this.sstableThreshold == sstableThreshold
    {
      this.memtable := memtable;
      this.indexes := indexes;
      this.sstableThreshold := sstableThreshold;
    }

    /** `process_cmd`. `render` is how the decoder's values are turned into
        key and value strings; `timestamp` names the segment of a flush.
        Only `set` changes state: it sets the pair and flushes when the tree
        outgrows the threshold, so the tree never stays above it and the
        value set reads back. */
    method ProcessCmd(cmd: Value, render: Value -> Bytes, timestamp: nat) returns (r: Outcome<Bytes, MemTableError>)
      modifies memtable, memtable.wal, indexes
      ensures Classify(cmd) == NotArray ==> r == Err(SetError)
      ensures Classify(cmd) == GetNoKey ==> r == Err(GetError)
      ensures Classify(cmd) == SetNoKey ==> r == Panic("could not get key")
      ensures Classify(cmd) == SetNoValue ==> r == Panic("could not get value")
      ensures Classify(cmd) == Probe ==> r == Ok(OkReply)
      ensures Classify(cmd) == Unsupported ==> r == Panic(Unimplemented)
      ensures Classify(cmd).GetCmd? ==>
                r == match old(memtable.Get(render(Classify(cmd).key), indexes))
                     case Ok(value) => Ok(ValueReply(value))
                     case Err(e) => Err(e)
                     case Panic(m) => Panic(m)
      ensures !Classify(cmd).SetCmd? ==> unchanged(memtable, memtable.wal, indexes)
      ensures Classify(cmd).SetCmd? ==>
                var key, value := render(Classify(cmd).key), render(Classify(cmd).value);
                var updated := old(memtable.tree)[key := value];
                r == Ok(OkReply) && |memtable.tree| <= sstableThreshold &&
                (old(memtable.Recoverable()) && Storable(KeyValue(key, value)) ==> memtable.Recoverable())
      ensures Classify(cmd).SetCmd? ==>
                var key, value := render(Classify(cmd).key), render(Classify(cmd).value);
                var updated := old(memtable.tree)[key := value];
                |updated| <= sstableThreshold ==>
                  memtable.tree == updated &&
                  memtable.wal.log == old(memtable.wal.log) + WriteToBytes(KeyValue(key, value)) &&
                  memtable.pending == old(memtable.pending) + [KeyValue(key, value)] &&
                  memtable.segments == old(memtable.segments) && indexes.indexes == old(indexes.indexes)
      ensures Classify(cmd).SetCmd? ==>
                var key, value := render(Classify(cmd).key), render(Classify(cmd).value);
                var updated := old(memtable.tree)[key := value];
                var name := SegmentName(timestamp);
                var prior := Existing(old(memtable.segments), name);
                |updated| > sstableThreshold ==>
                  memtable.tree == map[] && memtable.wal.log == [] && memtable.pending == [] &&
                  memtable.segments == old(memtable.segments)[name := prior + Stream(Drained(updated))] &&
                  indexes.indexes == old(indexes.indexes) + Placement(Drained(updated), name, |prior|)
      ensures Classify(cmd).SetCmd? ==>
                var updated := old(memtable.tree)[render(Classify(cmd).key) := render(Classify(cmd).value)];
                StorableTree(updated) ==> forall k :: k in updated ==> memtable.Get(k, indexes) == Ok(updated[k])
      ensures Classify(cmd).SetCmd? ==>
                var updated := old(memtable.tree)[render(Classify(cmd).key) := render(Classify(cmd).value)];
                forall k :: k !in updated && old(memtable.Get(k, indexes)).Ok? ==> memtable.Get(k, indexes) == old(memtable.Get(k, indexes))
    {
      var c := Classify(cmd);
      match c {
        case NotArray =>
          r := Err(SetError);
        case GetCmd(key) =>
          var value := memtable.Get(render(key), indexes);
          r := match value
            case Ok(v) => Ok(ValueReply(v))
            case Err(e) => Err(e)
            case Panic(m) => Panic(m);
        case GetNoKey =>
          r := Err(GetError);
        case SetNoKey =>
          r := Panic("could not get key");
        case SetNoValue =>
          r := Panic("could not get value");
        case SetCmd(keyValue, valueValue) =>
          var key, value := render(keyValue), render(valueValue);
          var setResult := memtable.SetIntended(key, value);
          if |memtable.tree| > sstableThreshold {
            memtable.FlushToSstableIntended(indexes, timestamp);
          }
          r := Ok(OkReply);
        case Probe =>
          r := Ok(OkReply);
        case Unsupported =>
          r := Panic(Unimplemented);
      }
    }
  }
}
