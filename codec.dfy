/** Record framing of the Bitcask store: a record is an 8-byte header holding
    the key length and the value length as big-endian unsigned 32-bit
    integers, then the key bytes, then the value bytes (main.py:18-31). */
module Codec {

  type byte = b: int | 0 <= b < 0x100
  type Bytes = seq<byte>

  /** One more than the largest value a 32-bit length field can hold. */
  const U32_BOUND: nat := 0x1_0000_0000
  const HEADER_SIZE: nat := 8

  /** The value that marks a deletion: the ASCII bytes of "__tombstone__". */
  const TOMBSTONE: Bytes := [0x5F, 0x5F, 0x74, 0x6F, 0x6D, 0x62, 0x73, 0x74, 0x6F, 0x6E, 0x65, 0x5F, 0x5F]

  /** LengthOutOfRange: a length does not fit the header (packing fails).
      ShortHeader: fewer than 8 bytes remain where a header is read (unpacking fails). */
  datatype Error = LengthOutOfRange | ShortHeader

  datatype Option<T> = None | Some(value: T)
  datatype Result<T> = Ok(value: T) | Err(error: Error)

  datatype Record = Record(key: Bytes, value: Bytes)

  function Min(a: int, b: int): int { if a <= b then a else b }

  /** Big-endian encoding of an unsigned 32-bit integer. */
  function EncodeU32(n: nat): (b: Bytes)
    requires n < U32_BOUND
    ensures |b| == 4
  {
    [n / 0x100_0000, n / 0x1_0000 % 0x100, n / 0x100 % 0x100, n % 0x100]
  }

  function DecodeU32(b: Bytes): (n: nat)
    requires |b| == 4
    ensures n < U32_BOUND
  {
    ((b[0] as int * 0x100 + b[1]) * 0x100 + b[2]) * 0x100 + b[3]
  }

  lemma DecodeEncodeU32(n: nat)
    requires n < U32_BOUND
    ensures DecodeU32(EncodeU32(n)) == n
  {
    var b := EncodeU32(n);
    assert b[0] as int * 0x100 + b[1] == n / 0x1_0000;
    assert (b[0] as int * 0x100 + b[1]) * 0x100 + b[2] == n / 0x100;
  }

  lemma EncodeDecodeU32(b: Bytes)
    requires |b| == 4
    ensures EncodeU32(DecodeU32(b)) == b
  {
    var n := DecodeU32(b);
    assert n / 0x100 == (b[0] as int * 0x100 + b[1]) * 0x100 + b[2];
    assert n / 0x1_0000 == b[0] as int * 0x100 + b[1];
    assert n / 0x100_0000 == b[0];
  }

  /** The lengths that the two 32-bit header fields can represent. */
  predicate Encodable(key: Bytes, value: Bytes)
  {
    |key| < U32_BOUND && |value| < U32_BOUND
  }

  /** The frame that Segment.write appends for one record. */
  function EncodeRecord(key: Bytes, value: Bytes): (r: Bytes)
    requires Encodable(key, value)
    ensures |r| == HEADER_SIZE + |key| + |value|
  {
    EncodeU32(|key|) + EncodeU32(|value|) + key + value
  }

  /** The key length declared by the header at pos. */
  function KeyLen(s: Bytes, pos: nat): nat
    requires pos + HEADER_SIZE <= |s|
  {
    DecodeU32(s[pos..pos + 4])
  }

  /** The value length declared by the header at pos. */
  function ValueLen(s: Bytes, pos: nat): nat
    requires pos + HEADER_SIZE <= |s|
  {
    DecodeU32(s[pos + 4..pos + HEADER_SIZE])
  }

  /** A whole record, header and body, lies inside s at pos. */
  predicate Fits(s: Bytes, pos: nat)
  {
    pos + HEADER_SIZE <= |s| && pos + HEADER_SIZE + KeyLen(s, pos) + ValueLen(s, pos) <= |s|
  }

  /** The offset just after the record at pos, where the next one starts. */
  function FrameEnd(s: Bytes, pos: nat): (e: nat)
    requires Fits(s, pos)
    ensures pos + HEADER_SIZE <= e <= |s|
  {
    pos + HEADER_SIZE + KeyLen(s, pos) + ValueLen(s, pos)
  }

  /** The record that lies wholly at pos. */
  function RecordAt(s: Bytes, pos: nat): (r: Record)
    requires Fits(s, pos)
    ensures Encodable(r.key, r.value)
    ensures pos + HEADER_SIZE + |r.key| + |r.value| == FrameEnd(s, pos)
  {
    var keyEnd := pos + HEADER_SIZE + KeyLen(s, pos);
    Record(s[pos + HEADER_SIZE..keyEnd], s[keyEnd..FrameEnd(s, pos)])
  }

  /** Segment.read_at on the bytes s of a segment: read 8 header bytes at pos
      (failing when fewer remain), then read at most key_len and at most
      val_len bytes, as a file read stops at the end of the file. */
  function ReadAt(s: Bytes, pos: nat): (r: Result<Record>)
    ensures r.Err? <==> pos + HEADER_SIZE > |s|
    ensures r.Ok? ==> |r.value.key| <= KeyLen(s, pos) && |r.value.value| <= ValueLen(s, pos)
    ensures r.Ok? && !Fits(s, pos) ==> |r.value.key| + |r.value.value| < KeyLen(s, pos) + ValueLen(s, pos)
    ensures Fits(s, pos) ==> r == Ok(RecordAt(s, pos))
  {
    if pos + HEADER_SIZE > |s| then Err(ShortHeader)
    else
      var keyEnd := Min(pos + HEADER_SIZE + KeyLen(s, pos), |s|);
      var valueEnd := Min(keyEnd + ValueLen(s, pos), |s|);
      Ok(Record(s[pos + HEADER_SIZE..keyEnd], s[keyEnd..valueEnd]))
  }

  /** Framing round trip: the record written after any prefix p is read back
      exactly at offset |p|, whatever follows it. */
  lemma {:induction false} RoundTrip(p: Bytes, key: Bytes, value: Bytes, t: Bytes)
    requires Encodable(key, value)
    ensures var s := p + EncodeRecord(key, value) + t;
      && Fits(s, |p|)
      && FrameEnd(s, |p|) == |p| + |EncodeRecord(key, value)|
      && RecordAt(s, |p|) == Record(key, value)
      && ReadAt(s, |p|) == Ok(Record(key, value))
  {
    var s := p + EncodeRecord(key, value) + t;
    var n := |p|;
    assert s[n..n + 4] == EncodeU32(|key|);
    assert s[n + 4..n + HEADER_SIZE] == EncodeU32(|value|);
    DecodeEncodeU32(|key|);
    DecodeEncodeU32(|value|);
    assert s[n + HEADER_SIZE..n + HEADER_SIZE + |key|] == key;
    assert s[n + HEADER_SIZE + |key|..n + HEADER_SIZE + |key| + |value|] == value;
  }

  /** Appending bytes never changes a record that already lies wholly inside s. */
  lemma {:induction false} FitsExtend(s: Bytes, pos: nat, t: Bytes)
    requires Fits(s, pos)
    ensures Fits(s + t, pos)
    ensures FrameEnd(s + t, pos) == FrameEnd(s, pos)
    ensures RecordAt(s + t, pos) == RecordAt(s, pos)
  {
    assert (s + t)[pos..pos + 4] == s[pos..pos + 4];
    assert (s + t)[pos + 4..pos + HEADER_SIZE] == s[pos + 4..pos + HEADER_SIZE];
    var keyEnd := pos + HEADER_SIZE + KeyLen(s, pos);
    assert (s + t)[pos + HEADER_SIZE..keyEnd] == s[pos + HEADER_SIZE..keyEnd];
    assert (s + t)[keyEnd..FrameEnd(s, pos)] == s[keyEnd..FrameEnd(s, pos)];
  }

  /** The same as FitsExtend, for any extension s2 of s. */
  lemma FitsPrefix(s: Bytes, pos: nat, s2: Bytes)
    requires Fits(s, pos) && s <= s2
    ensures Fits(s2, pos) && RecordAt(s2, pos) == RecordAt(s, pos)
  {
    assert s2 == s + s2[|s|..];
    FitsExtend(s, pos, s2[|s|..]);
  }
}
