/** The log record `LogEntry { key, value }` and its bincode framing with fixed-width
    integers: each `Vec<u8>` field is a u64 length (8 bytes, little-endian) followed by
    its bytes, so a record reads `ksz | key | vsz | value`. The literals 8 and 16
    below are the width of one length field and of the two together. */
module Codec {
  import opened Common
  import opened Bytes

  datatype LogEntry = LogEntry(key: ByteString, value: ByteString)

  /** One length-prefixed byte vector: its u64 length, then its bytes. */
  function EncodeVec(v: ByteString): (r: seq<byte>)
    ensures |r| == 8 + |v|
  {
    EncodeU64(|v|) + v
  }

  /** The bytes bincode produces for an entry: the key field, then the value field. */
  function Encode(e: LogEntry): (r: seq<byte>)
    ensures |r| == 16 + |e.key| + |e.value|
  {
    EncodeVec(e.key) + EncodeVec(e.value)
  }

  /** Where each part of a record lies within its encoding. */
  lemma EncodeLayout(e: LogEntry)
    ensures var r, k := Encode(e), |e.key|;
      && r[..8] == EncodeU64(k)
      && r[8..8 + k] == e.key
      && r[8 + k..16 + k] == EncodeU64(|e.value|)
      && r[16 + k..] == e.value
  {
    var r, k := Encode(e), |e.key|;
    assert r[..8 + k] == EncodeVec(e.key);
    assert r[8 + k..] == EncodeVec(e.value);
    SubSlice(r, 0, 8 + k, 0, 8);
    SubSlice(r, 0, 8 + k, 8, 8 + k);
    SubSlice(r, 8 + k, |r|, 0, 8);
    SubSlice(r, 8 + k, |r|, 8, 8 + |e.value|);
  }

  /** `key_size()`: the key length, which fits the u64 length field. */
  function KeySize(e: LogEntry): (n: nat)
    ensures n < U64_LIMIT
  {
    |e.key|
  }

  /** The key size is what the record's first length field announces. */
  lemma KeySizeIsHeader(e: LogEntry)
    ensures DecodeU64(Encode(e)[..8]) == KeySize(e)
  {
    EncodeLayout(e);
    DecodeEncodeU64(|e.key|);
  }

  /** `size()`: the number of bytes the record occupies in the log. */
  function Size(e: LogEntry): nat
  {
    16 + |e.key| + |e.value|
  }

  /** The size is the length of the encoding. */
  lemma SizeIsEncodedLength(e: LogEntry)
    ensures Size(e) == |Encode(e)|
  {
  }

  /** A byte vector decoded from a stream, with the position just past it. */
  datatype Field = Field(data: ByteString, next: nat)

  /** Decoding one `Vec<u8>` at `pos`: the length field needs 8 bytes, and the
      declared length must fit in what remains of the stream. */
  function DecodeVec(bytes: seq<byte>, pos: nat): (r: Result<Field>)
    ensures r.Ok? ==> r.value.next == pos + 8 + |r.value.data| <= |bytes|
    ensures r.Err? ==> r.error == MalformedRecord
  {
    if |bytes| < pos + 8 then Err(MalformedRecord)
    else
      var len := DecodeU64(bytes[pos..pos + 8]);
      if |bytes| - (pos + 8) < len then Err(MalformedRecord)
      else Ok(Field(bytes[pos + 8..pos + 8 + len], pos + 8 + len))
  }

  /** A record decoded from a stream, with the position just past it. */
  datatype Decoded = Decoded(entry: LogEntry, next: nat)

  /** Decoding one record at `pos`, as bincode's `decode_from_reader` does with
      fixed-width integers: the key field, then the value field. */
  function Decode(bytes: seq<byte>, pos: nat): (r: Result<Decoded>)
    ensures r.Ok? ==> r.value.next == pos + Size(r.value.entry) <= |bytes|
    ensures r.Err? ==> r.error == MalformedRecord
  {
    match DecodeVec(bytes, pos)
    case Err(err) => Err(err)
    case Ok(key) =>
      match DecodeVec(bytes, key.next)
      case Err(err) => Err(err)
      case Ok(value) => Ok(Decoded(LogEntry(key.data, value.data), value.next))
  }

  lemma DecodeVecEncode(bytes: seq<byte>, pos: nat, v: ByteString)
    requires pos + 8 + |v| <= |bytes|
    requires bytes[pos..pos + 8 + |v|] == EncodeVec(v)
    ensures DecodeVec(bytes, pos) == Ok(Field(v, pos + 8 + |v|))
  {
    var end := pos + 8 + |v|;
    SubSlice(bytes, pos, end, 0, 8);
    SubSlice(bytes, pos, end, 8, 8 + |v|);
    assert bytes[pos..pos + 8] == EncodeU64(|v|);
    assert bytes[pos + 8..end] == v;
    DecodeEncodeU64(|v|);
  }

  lemma DecodeVecIsEncoded(bytes: seq<byte>, pos: nat)
    requires DecodeVec(bytes, pos).Ok?
    ensures var f := DecodeVec(bytes, pos).value;
      bytes[pos..f.next] == EncodeVec(f.data)
  {
    var f := DecodeVec(bytes, pos).value;
    DecodeU64Canonical(bytes[pos..pos + 8]);
    assert bytes[pos..f.next] == bytes[pos..pos + 8] + bytes[pos + 8..f.next];
  }

  /** `e` is stored in `bytes` at `pos`. */
  ghost predicate EncodedAt(bytes: seq<byte>, pos: nat, e: LogEntry)
  {
    pos + Size(e) <= |bytes| && bytes[pos..pos + Size(e)] == Encode(e)
  }

  /** Decoding fails when fewer than 8 bytes remain for a length field, or when a
      declared length runs past the end of the stream. */
  lemma DecodeFailsWhenShort(bytes: seq<byte>, pos: nat)
    ensures |bytes| < pos + 8 ==> Decode(bytes, pos).Err?
    ensures pos + 8 <= |bytes| && DecodeU64(bytes[pos..pos + 8]) > |bytes| - (pos + 8)
      ==> Decode(bytes, pos).Err?
    ensures DecodeVec(bytes, pos).Ok? && DecodeVec(bytes, DecodeVec(bytes, pos).value.next).Err?
      ==> Decode(bytes, pos).Err?
  {
  }

  /** Round trip: a record stored at `pos` decodes to itself, and decoding resumes
      just after it, whatever follows. */
  lemma DecodeEncode(bytes: seq<byte>, pos: nat, e: LogEntry)
    requires EncodedAt(bytes, pos, e)
    ensures Decode(bytes, pos) == Ok(Decoded(e, pos + Size(e)))
  {
    var mid := pos + 8 + |e.key|;
    var end := pos + Size(e);
    SubSlice(bytes, pos, end, 0, 8 + |e.key|);
    SubSlice(bytes, pos, end, 8 + |e.key|, Size(e));
    assert Encode(e)[..8 + |e.key|] == EncodeVec(e.key);
    assert Encode(e)[8 + |e.key|..] == EncodeVec(e.value);
    DecodeVecEncode(bytes, pos, e.key);
    DecodeVecEncode(bytes, mid, e.value);
  }

  /** The round trip in the form a single record takes at the head of a stream. */
  lemma DecodeEncodeHead(e: LogEntry, rest: seq<byte>)
    ensures Decode(Encode(e) + rest, 0) == Ok(Decoded(e, |Encode(e)|))
  {
    var bytes := Encode(e) + rest;
    assert bytes[0..Size(e)] == Encode(e);
    DecodeEncode(bytes, 0, e);
  }

  /** The converse: whatever decodes was stored there, byte for byte. */
  lemma DecodeIsEncoded(bytes: seq<byte>, pos: nat)
    requires Decode(bytes, pos).Ok?
    ensures EncodedAt(bytes, pos, Decode(bytes, pos).value.entry)
  {
    var key := DecodeVec(bytes, pos).value;
    var value := DecodeVec(bytes, key.next).value;
    DecodeVecIsEncoded(bytes, pos);
    DecodeVecIsEncoded(bytes, key.next);
    assert bytes[pos..value.next] == bytes[pos..key.next] + bytes[key.next..value.next];
  }

  /** Framing is prefix-free: no record's encoding begins another's. */
  lemma EncodePrefixUnique(a: LogEntry, b: LogEntry)
    requires |Encode(a)| <= |Encode(b)| && Encode(a) == Encode(b)[..|Encode(a)|]
    ensures a == b
  {
    var ea, eb := Encode(a), Encode(b);
    EncodeLayout(a);
    EncodeLayout(b);
    PrefixSlice(ea, eb, 0, 8);
    DecodeEncodeU64(|a.key|);
    DecodeEncodeU64(|b.key|);
    assert |a.key| == |b.key| by {
      assert DecodeU64(ea[..8]) == |a.key| && DecodeU64(eb[..8]) == |b.key|;
    }
    var k := |a.key|;
    PrefixSlice(ea, eb, 8, 8 + k);
    assert a.key == b.key;
    PrefixSlice(ea, eb, 8 + k, 16 + k);
    DecodeEncodeU64(|a.value|);
    DecodeEncodeU64(|b.value|);
    assert |a.value| == |b.value| by {
      assert DecodeU64(ea[8 + k..16 + k]) == |a.value| && DecodeU64(eb[8 + k..16 + k]) == |b.value|;
    }
    PrefixSlice(ea, eb, 16 + k, |ea|);
    assert a.value == ea[16 + k..|ea|] == eb[16 + k..|eb|] == b.value;
  }

  /** Where `a` is a prefix of `b`, each slice of `a` is the same slice of `b`. */
  lemma PrefixSlice<T>(a: seq<T>, b: seq<T>, i: nat, j: nat)
    requires |a| <= |b| && a == b[..|a|] && i <= j <= |a|
    ensures a[i..j] == b[i..j]
  {
  }

  /** A record decodes at `pos` exactly when the stream holds some record's full
      encoding there. */
  lemma DecodeSucceedsIff(bytes: seq<byte>, pos: nat)
    ensures Decode(bytes, pos).Ok? <==> exists e :: EncodedAt(bytes, pos, e)
  {
    if Decode(bytes, pos).Ok? {
      DecodeIsEncoded(bytes, pos);
    }
    if e :| EncodedAt(bytes, pos, e) {
      DecodeEncode(bytes, pos, e);
    }
  }

  /** A torn record (a strict prefix of an encoding, as a crash in the middle of an
      append leaves at the end of the log) never decodes. */
  lemma TornRecordFails(bytes: seq<byte>, pos: nat, e: LogEntry)
    requires pos <= |bytes| < pos + Size(e)
    requires bytes[pos..] == Encode(e)[..|bytes| - pos]
    ensures Decode(bytes, pos).Err?
  {
    if Decode(bytes, pos).Ok? {
      var d := Decode(bytes, pos).value;
      DecodeIsEncoded(bytes, pos);
      var n := Size(d.entry);
      SubSlice(Encode(e), 0, |bytes| - pos, 0, n);
      assert Encode(d.entry) == bytes[pos..pos + n] == Encode(e)[..n];
      EncodePrefixUnique(d.entry, e);
      assert false;
    }
  }

  /** A tombstone (empty value) is framed like any record, with a zero value length. */
  lemma TombstoneFraming(key: ByteString)
    ensures var t := LogEntry(key, []);
      && |Encode(t)| == 16 + |key|
      && DecodeU64(Encode(t)[8 + |key|..16 + |key|]) == 0
      && Decode(Encode(t), 0) == Ok(Decoded(t, 16 + |key|))
  {
    var t := LogEntry(key, []);
    EncodeLayout(t);
    DecodeEncodeU64(0);
    DecodeEncodeHead(t, []);
    assert Encode(t) + [] == Encode(t);
  }
}
