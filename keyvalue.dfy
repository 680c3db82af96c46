/** `KeyValue`, the record type of the engine, which wraps the derived codec. */
module KeyValues {
  import opened Outcomes
  import opened Codec
  import opened CodecProperties

  datatype KeyValue = KeyValue(key: Bytes, value: Bytes)

  /** A record whose key and value survive the codec unchanged. */
  predicate Storable(kv: KeyValue)
  {
    Representable(kv.key, kv.value)
  }

  /** `KeyValue::new`: the record holds the pair's key and value unchanged. */
  function New(pair: (Bytes, Bytes)): (kv: KeyValue)
    ensures kv.key == pair.0 && kv.value == pair.1
  {
    KeyValue(pair.0, pair.1)
  }

  /** `write_to_bytes`: the derived `serialize` encoding of the record. */
  function WriteToBytes(kv: KeyValue): (r: Bytes)
    ensures |r| == 2 + |kv.key| + |kv.value|
    ensures Fits(kv.key) ==> r[0] as int == |kv.key|
    ensures r[1..1 + |kv.key|] == kv.key && r[2 + |kv.key|..] == kv.value
  {
    Encode(kv.key, kv.value)
  }

  function Records(ps: seq<(Bytes, Bytes)>): (rs: seq<KeyValue>)
    ensures |rs| == |ps|
    ensures forall i :: 0 <= i < |ps| ==> rs[i] == New(ps[i])
  {
    seq(|ps|, i requires 0 <= i < |ps| => New(ps[i]))
  }

  /** `read_from_bytes`, with the result `wal.rs` expects of it: the records
      `deserialize` finds in the bytes, or its error or panic. */
  function ReadFromBytes(bytes: Bytes): (r: Outcome<seq<KeyValue>, FromUtf8Error>)
    ensures r.Ok? <==> Decode(bytes).Ok?
    ensures Decode(bytes).Err? ==> r == Err(Decode(bytes).error)
    ensures Decode(bytes).Panic? ==> r == Panic(Decode(bytes).message)
    ensures r.Ok? ==> |r.value| == |Decode(bytes).value| &&
                      forall i :: 0 <= i < |r.value| ==>
                        r.value[i].key == Decode(bytes).value[i].0 && r.value[i].value == Decode(bytes).value[i].1
  {
    match Decode(bytes)
    case Ok(ps) => Ok(Records(ps))
    case Err(e) => Err(e)
    case Panic(m) => Panic(m)
  }

  /** Reading what `write_to_bytes` wrote gives back the one record. */
  lemma ReadWritten(kv: KeyValue)
    requires Storable(kv)
    ensures ReadFromBytes(WriteToBytes(kv)) == Ok([kv])
  {
    DecodeEncode(kv.key, kv.value);
    assert Records([(kv.key, kv.value)]) == [kv];
  }

  /** Records written one after another, as in the WAL and in a segment. */
  function Stream(records: seq<KeyValue>): Bytes
  {
    if records == [] then [] else WriteToBytes(records[0]) + Stream(records[1..])
  }

  lemma {:induction false} StreamAppend(a: seq<KeyValue>, b: seq<KeyValue>)
    ensures Stream(a + b) == Stream(a) + Stream(b)
    decreases |a|
  {
    if a == [] {
      assert a + b == b;
    } else {
      assert (a + b)[1..] == a[1..] + b;
      StreamAppend(a[1..], b);
    }
  }

  lemma StreamSnoc(records: seq<KeyValue>, kv: KeyValue)
    ensures Stream(records + [kv]) == Stream(records) + WriteToBytes(kv)
  {
    StreamAppend(records, [kv]);
    assert [kv][1..] == [];
  }

  /** Record i of a stream sits right after the records before it. */
  lemma StreamSplit(records: seq<KeyValue>, i: nat)
    requires i < |records|
    ensures Stream(records) == Stream(records[..i]) + WriteToBytes(records[i]) + Stream(records[i + 1..])
  {
    assert records == records[..i] + records[i..];
    StreamAppend(records[..i], records[i..]);
    assert records[i..][1..] == records[i + 1..];
  }

  /** Decoding a stream of records gives exactly those records, in order. */
  lemma {:induction false} ReadStream(records: seq<KeyValue>)
    requires forall i :: 0 <= i < |records| ==> Storable(records[i])
    ensures ReadFromBytes(Stream(records)) == Ok(records)
    decreases |records|
  {
    if records == [] {
      assert Records([]) == [];
    } else {
      var kv, rest := records[0], records[1..];
      ReadStream(rest);
      DecodeConcat(kv.key, kv.value, Stream(rest));
      var ps := Decode(Stream(rest)).value;
      assert Records([(kv.key, kv.value)] + ps) == [kv] + rest;
      assert [kv] + rest == records;
    }
  }
}
