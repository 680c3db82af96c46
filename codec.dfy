/** The record codec that the `TinyBitSerializer` and `TinyBitDeserializer`
    derives generate: each field is one length byte followed by its bytes, a
    record is its key field followed by its value field, and records are
    concatenated into a stream. */
module Codec {
  import opened Outcomes

  newtype byte = x: int | 0 <= x < 0x100
  type Bytes = seq<byte>

  /** The error `String::from_utf8` returns for the one-byte buffer `bytes`. */
  datatype FromUtf8Error = FromUtf8Error(bytes: Bytes)

  /** A length as `len() as u8` writes it: only the low eight bits survive. */
  function LengthByte(n: nat): byte
  {
    (n % 0x100) as byte
  }

  /** A single byte is a valid UTF-8 string exactly when it is below 0x80. */
  predicate Ascii(s: Bytes)
  {
    forall i :: 0 <= i < |s| ==> s[i] < 0x80
  }

  /** A field whose length fits the one-byte prefix. */
  predicate Fits(s: Bytes)
  {
    |s| <= 0xFF
  }

  /** A record the codec can carry through a round trip. */
  predicate Representable(key: Bytes, value: Bytes)
  {
    Fits(key) && Fits(value) && Ascii(key) && Ascii(value)
  }

  /** The bytes `serialize` produces for a record. */
  function Encode(key: Bytes, value: Bytes): Bytes
  {
    [LengthByte(|key|)] + key + [LengthByte(|value|)] + value
  }

  /** The first content byte that `String::from_utf8` refuses. */
  function FirstNonAscii(s: Bytes): (r: Option<byte>)
    ensures r.None? <==> Ascii(s)
    ensures r.Some? ==> r.value >= 0x80
  {
    if s == [] then None
    else if s[0] >= 0x80 then Some(s[0])
    else FirstNonAscii(s[1..])
  }

  /** The fields of a byte stream, in order, as the deserializer reads them:
      a length byte, then at most that many content bytes (fewer when the
      stream ends first). The first content byte of 0x80 or above is an
      error; length bytes are never checked. Never a panic. */
  function Fields(s: Bytes): (r: Outcome<seq<Bytes>, FromUtf8Error>)
    ensures !r.Panic?
    decreases |s|
  {
    if s == [] then Ok([])
    else
      var end := if 1 + s[0] as int <= |s| then 1 + s[0] as int else |s|;
      var content := s[1..end];
      match FirstNonAscii(content)
      case Some(b) => Err(FromUtf8Error([b]))
      case None => Prepend([content], Fields(s[end..]))
  }

  /** Puts fields in front of a successful split; an error passes through. */
  function Prepend(fs: seq<Bytes>, r: Outcome<seq<Bytes>, FromUtf8Error>): Outcome<seq<Bytes>, FromUtf8Error>
  {
    match r
    case Ok(rest) => Ok(fs + rest)
    case Err(e) => Err(e)
    case Panic(m) => Panic(m)
  }

  /** Field 2i is a key and field 2i+1 its value. */
  function Pairs(fs: seq<Bytes>): (ps: seq<(Bytes, Bytes)>)
    requires |fs| % 2 == 0
    ensures |ps| == |fs| / 2
    decreases |fs|
  {
    if fs == [] then [] else [(fs[0], fs[1])] + Pairs(fs[2..])
  }

  /** What `deserialize` returns: the records of the stream, the UTF-8 error,
      or the panic of the final `pop` when the field count is odd. */
  function Decode(s: Bytes): (r: Outcome<seq<(Bytes, Bytes)>, FromUtf8Error>)
    ensures s == [] ==> r == Ok([])
  {
    match Fields(s)
    case Ok(fs) => if |fs| % 2 == 1 then Panic("could not get key") else Ok(Pairs(fs))
    case Err(e) => Err(e)
    case Panic(m) => Panic(m)
  }

  /** The derived `serialize`: push the key's length and bytes, then the
      value's length and bytes. */
  method Serialize(key: Bytes, value: Bytes) returns (kvBytes: Bytes)
    ensures kvBytes == Encode(key, value)
  {
    kvBytes := [];
    kvBytes := kvBytes + [LengthByte(|key|)];
    for i := 0 to |key|
      invariant kvBytes == [LengthByte(|key|)] + key[..i]
    {
      kvBytes := kvBytes + [key[i]];
    }
    kvBytes := kvBytes + [LengthByte(|value|)];
    for i := 0 to |value|
      invariant kvBytes == [LengthByte(|key|)] + key + [LengthByte(|value|)] + value[..i]
    {
      kvBytes := kvBytes + [value[i]];
    }
  }

  /** How the deserializer's `str_vec` stack and `tup_vec` accumulator stand
      after it has read the fields `done`: every completed pair of earlier
      fields is in `pairs`, the last one or two fields are on the stack. */
  ghost predicate StackHolds(done: seq<Bytes>, strs: seq<Bytes>, pairs: seq<(Bytes, Bytes)>)
  {
    || (done == [] && strs == [] && pairs == [])
    || (|done| % 2 == 1 && strs == [done[|done| - 1]] && pairs == Pairs(done[..|done| - 1]))
    || (|done| % 2 == 0 && |done| >= 2 && strs == done[|done| - 2..] && pairs == Pairs(done[..|done| - 2]))
  }

  /** The derived `deserialize`: an outer loop reads a length byte, an inner
      loop reads up to that many bytes, checking each as UTF-8; when two
      fields are already on the stack they are popped as a pair first. At the
      end of the input a remaining pair is popped; a lone field panics. */
  method Deserialize(bytes: Bytes) returns (r: Outcome<seq<(Bytes, Bytes)>, FromUtf8Error>)
    ensures r == Decode(bytes)
  {
    var strs: seq<Bytes> := [];
    var pairs: seq<(Bytes, Bytes)> := [];
    var i := 0;
    ghost var done: seq<Bytes> := [];
    assert bytes[i..] == bytes;
    PrependNothing(Fields(bytes));
    while i < |bytes|
      invariant 0 <= i <= |bytes|
      invariant Fields(bytes) == Prepend(done, Fields(bytes[i..]))
      invariant StackHolds(done, strs, pairs)
      decreases |bytes| - i
    {
      var bit := bytes[i];
      ghost var at := i;
      i := i + 1;
      var str: Bytes := [];
      for j := 0 to bit as int
        invariant at + 1 <= i <= |bytes|
        invariant i == at + 1 + (if j <= |bytes| - (at + 1) then j else |bytes| - (at + 1))
        invariant str == bytes[at + 1..i]
        invariant Ascii(str)
      {
        if i < |bytes| {
          var c := bytes[i];
          if c >= 0x80 {
            assert bytes[at..][1..i - at] == str;
            FieldErrorAt(bytes[at..], i - at);
            return Err(FromUtf8Error([c]));
          }
          i := i + 1;
          str := str + [c];
        }
      }
      ghost var rest := bytes[at..];
      assert rest[0] == bit;
      assert i - at == if 1 + bit as int <= |rest| then 1 + bit as int else |rest|;
      assert rest[1..i - at] == str;
      FieldAt(rest, str);
      assert rest[1 + |str|..] == bytes[i..];
      PrependTwice(done, str, Fields(bytes[i..]));
      StackPush(done, strs, pairs, str);
      if |strs| == 2 {
        var value := strs[1];
        var key := strs[0];
        pairs := pairs + [(key, value)];
        strs := [str];
      } else {
        strs := strs + [str];
      }
      done := done + [str];
    }
    assert bytes[i..] == [];
    assert Fields(bytes) == Ok(done + []);
    assert done + [] == done;
    StackEnd(bytes, done, strs, pairs);
    if |strs| != 0 {
      if |strs| == 1 {
        return Panic("could not get key");
      }
      var value := strs[1];
      var key := strs[0];
      pairs := pairs + [(key, value)];
    }
    return Ok(pairs);
  }

  /** Reading one more field keeps the stack and the accumulator in step. */
  lemma StackPush(done: seq<Bytes>, strs: seq<Bytes>, pairs: seq<(Bytes, Bytes)>, str: Bytes)
    requires StackHolds(done, strs, pairs)
    ensures |strs| == 2 ==> StackHolds(done + [str], [str], pairs + [(strs[0], strs[1])])
    ensures |strs| != 2 ==> StackHolds(done + [str], strs + [str], pairs)
  {
    if |strs| == 2 {
      var front := done[..|done| - 2];
      assert front + [strs[0], strs[1]] == done;
      PairsSnoc(front, strs[0], strs[1]);
      assert (done + [str])[..|done|] == done;
    } else if done != [] {
      assert (done + [str])[..|done| - 1] == done[..|done| - 1];
    }
  }

  /** At the end of the input the stack decides the result: nothing left,
      a lone field (panic), or a last pair to pop. */
  lemma StackEnd(bytes: Bytes, done: seq<Bytes>, strs: seq<Bytes>, pairs: seq<(Bytes, Bytes)>)
    requires StackHolds(done, strs, pairs)
    requires Fields(bytes) == Ok(done)
    ensures |strs| <= 2
    ensures |strs| == 0 ==> Decode(bytes) == Ok(pairs)
    ensures |strs| == 1 ==> Decode(bytes) == Panic("could not get key")
    ensures |strs| == 2 ==> Decode(bytes) == Ok(pairs + [(strs[0], strs[1])])
  {
    if done == [] {
    } else if |done| % 2 == 1 {
    } else {
      var front := done[..|done| - 2];
      assert front + [strs[0], strs[1]] == done;
      PairsSnoc(front, strs[0], strs[1]);
    }
  }

  /** One step of `Fields`: the first field of `s` is `content` when the
      stream's length byte and remaining size give its bounds. */
  lemma FieldAt(s: Bytes, content: Bytes)
    requires s != []
    requires content == s[1..if 1 + s[0] as int <= |s| then 1 + s[0] as int else |s|]
    requires Ascii(content)
    ensures Fields(s) == Prepend([content], Fields(s[1 + |content|..]))
  {
  }

  lemma PrependNothing(r: Outcome<seq<Bytes>, FromUtf8Error>)
    ensures Prepend([], r) == r
  {
    if r.Ok? {
      assert [] + r.value == r.value;
    }
  }

  lemma PrependTwice(done: seq<Bytes>, field: Bytes, r: Outcome<seq<Bytes>, FromUtf8Error>)
    ensures Prepend(done, Prepend([field], r)) == Prepend(done + [field], r)
  {
    if r.Ok? {
      assert done + ([field] + r.value) == done + [field] + r.value;
    }
  }

  /** The first content byte at or above 0x80 decides the error. */
  lemma FieldErrorAt(s: Bytes, p: int)
    requires s != [] && 1 <= p < |s| && p <= s[0] as int
    requires Ascii(s[1..p]) && s[p] >= 0x80
    ensures Fields(s) == Err(FromUtf8Error([s[p]]))
  {
    var end := if 1 + s[0] as int <= |s| then 1 + s[0] as int else |s|;
    assert s[1..end][..p - 1] == s[1..p];
    FirstNonAsciiAt(s[1..end], p - 1);
  }

  lemma {:induction false} FirstNonAsciiAt(s: Bytes, p: int)
    requires 0 <= p < |s| && Ascii(s[..p]) && s[p] >= 0x80
    ensures FirstNonAscii(s) == Some(s[p])
  {
    if p > 0 {
      assert s[1..][..p - 1] == s[1..p];
      FirstNonAsciiAt(s[1..], p - 1);
    }
  }

  lemma {:induction false} PairsSnoc(fs: seq<Bytes>, key: Bytes, value: Bytes)
    requires |fs| % 2 == 0
    ensures Pairs(fs + [key, value]) == Pairs(fs) + [(key, value)]
    decreases |fs|
  {
    if fs != [] {
      assert (fs + [key, value])[2..] == fs[2..] + [key, value];
      PairsSnoc(fs[2..], key, value);
    }
  }
}

module CodecProperties {
  import opened Outcomes
  import opened Codec

  /** Puts a record in front of a successful decode; errors and panics pass through. */
  function ConsRecord(p: (Bytes, Bytes), r: Outcome<seq<(Bytes, Bytes)>, FromUtf8Error>): Outcome<seq<(Bytes, Bytes)>, FromUtf8Error>
  {
    match r
    case Ok(ps) => Ok([p] + ps)
    case Err(e) => Err(e)
    case Panic(m) => Panic(m)
  }

  /** Fields pair strictly in order: record i is field 2i with field 2i+1. */
  lemma {:induction false} PairsAt(fs: seq<Bytes>, i: nat)
    requires |fs| % 2 == 0 && i < |fs| / 2
    ensures Pairs(fs)[i] == (fs[2 * i], fs[2 * i + 1])
    decreases i
  {
    if i > 0 {
      PairsAt(fs[2..], i - 1);
    }
  }

  /** An encoded record contributes exactly its key and value as the next
      two fields, whatever follows it. */
  lemma FieldsOfRecord(key: Bytes, value: Bytes, rest: Bytes)
    requires Representable(key, value)
    ensures Fields(Encode(key, value) + rest) == Prepend([key, value], Fields(rest))
  {
    var s := Encode(key, value) + rest;
    var t := [LengthByte(|value|)] + value + rest;
    assert s[1..1 + |key|] == key;
    FieldAt(s, key);
    assert s[1 + |key|..] == t;
    assert t[1..1 + |value|] == value;
    FieldAt(t, value);
    assert t[1 + |value|..] == rest;
    PrependTwice([key], value, Fields(rest));
    assert Fields(t) == Prepend([value], Fields(rest));
    assert Fields(s) == Prepend([key], Fields(t));
    assert [key] + [value] == [key, value];
  }

  /** Decoding is restartable over a stream: a record in front of any bytes
      decodes to that record in front of what those bytes decode to. */
  lemma DecodeConcat(key: Bytes, value: Bytes, rest: Bytes)
    requires Representable(key, value)
    ensures Decode(Encode(key, value) + rest) == ConsRecord((key, value), Decode(rest))
  {
    FieldsOfRecord(key, value, rest);
    var r := Fields(rest);
    if r.Ok? {
      assert ([key, value] + r.value)[2..] == r.value;
    }
  }

  /** Round trip: `deserialize(serialize(key, value))` is the one record. */
  lemma DecodeEncode(key: Bytes, value: Bytes)
    requires Representable(key, value)
    ensures Decode(Encode(key, value)) == Ok([(key, value)])
  {
    DecodeConcat(key, value, []);
    assert Encode(key, value) + [] == Encode(key, value);
    assert [(key, value)] + [] == [(key, value)];
  }

  lemma {:induction false} FirstNonAsciiConcat(a: Bytes, b: Bytes)
    ensures FirstNonAscii(a + b) == if FirstNonAscii(a).Some? then FirstNonAscii(a) else FirstNonAscii(b)
    decreases |a|
  {
    if a != [] {
      assert (a + b)[1..] == a[1..] + b;
      FirstNonAsciiConcat(a[1..], b);
    } else {
      assert a + b == b;
    }
  }

  /** A length-prefixed field that fits its prefix is read back whole. */
  lemma FieldOfEncoded(field: Bytes, rest: Bytes)
    requires Fits(field)
    ensures Fields([LengthByte(|field|)] + field + rest) ==
      match FirstNonAscii(field)
      case Some(b) => Err(FromUtf8Error([b]))
      case None => Prepend([field], Fields(rest))
  {
    var s := [LengthByte(|field|)] + field + rest;
    assert s[1..1 + |field|] == field;
    assert s[1 + |field|..] == rest;
  }

  /** A content byte of 0x80 or above makes decoding fail with the first
      such byte, although length bytes of any value are accepted. */
  lemma DecodeRejectsNonAscii(key: Bytes, value: Bytes)
    requires Fits(key) && Fits(value)
    requires !(Ascii(key) && Ascii(value))
    ensures FirstNonAscii(key + value).Some?
    ensures Decode(Encode(key, value)) == Err(FromUtf8Error([FirstNonAscii(key + value).value]))
  {
    FirstNonAsciiConcat(key, value);
    var t := [LengthByte(|value|)] + value;
    assert Encode(key, value) == [LengthByte(|key|)] + key + t;
    FieldOfEncoded(key, t);
    assert t == [LengthByte(|value|)] + value + [];
    FieldOfEncoded(value, []);
  }

  /** The first field of a successful split is never longer than its length byte. */
  lemma FirstFieldShort(s: Bytes)
    requires s != []
    ensures Fields(s).Ok? ==> |Fields(s).value| >= 1 && |Fields(s).value[0]| <= s[0] as int
  {
  }

  /** Lengths of 256 or more wrap through `as u8`, so such a record never
      comes back unchanged. */
  lemma OversizedFieldDoesNotRoundTrip(key: Bytes, value: Bytes)
    requires !(Fits(key) && Fits(value))
    ensures Decode(Encode(key, value)) != Ok([(key, value)])
  {
    var s := Encode(key, value);
    FirstFieldShort(s);
    var r := Fields(s);
    if r.Ok? && |r.value| >= 2 && |r.value| % 2 == 0 {
      PairsAt(r.value, 0);
    }
    if Fits(key) && Ascii(key) {
      var t := [LengthByte(|value|)] + value;
      assert s[1..1 + |key|] == key;
      FieldAt(s, key);
      assert s[1 + |key|..] == t;
      FirstFieldShort(t);
    }
  }

  /** A length byte larger than the bytes left yields a shortened last
      field, not an error. */
  lemma ShortValueIsAccepted(key: Bytes, value: Bytes, n: byte)
    requires Fits(key) && Ascii(key) && Ascii(value)
    requires |value| < n as int
    ensures Decode([LengthByte(|key|)] + key + [n] + value) == Ok([(key, value)])
  {
    var t := [n] + value;
    assert [LengthByte(|key|)] + key + [n] + value == [LengthByte(|key|)] + key + t;
    FieldOfEncoded(key, t);
    assert t[1..] == value;
    FieldAt(t, value);
    assert t[1 + |value|..] == [];
    assert [value] + [] == [value];
    assert Fields(t) == Ok([value]);
    assert [key] + [value] == [key, value];
    assert Fields([LengthByte(|key|)] + key + t) == Ok([key, value]);
    assert [key, value][2..] == [];
    assert Pairs([key, value]) == [(key, value)];
  }

  /** An odd number of fields panics at the final `pop` of the key. */
  lemma LoneFieldPanics(field: Bytes)
    requires Fits(field) && Ascii(field)
    ensures Decode([LengthByte(|field|)] + field) == Panic("could not get key")
  {
    var s := [LengthByte(|field|)] + field;
    assert s[1..1 + |field|] == field;
    FieldAt(s, field);
    assert s[1 + |field|..] == [];
  }
}
