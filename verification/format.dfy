/** The on-disk record format: a 16-byte big-endian header followed by the key
    bytes and the value bytes (src/database/format.rs). */
module Format {
  import opened Bytes
  import opened Outcomes

  /** Size of an encoded header: four `u32` fields with no padding. */
  const HEADER_SIZE: nat := 16

  /** Why a buffer could not be decoded. The source calls these `Header`,
      `Key` and `Value`; each carries the length actually found and, for the
      key and the value, the length the header declared. */
  datatype FormatError =
    | ShortHeader(len: nat)
    | ShortKey(len: nat, expected: nat)
    | ShortValue(len: nat, expected: nat)

  /** The `crc` field is reserved: nothing computes or checks it. */
  datatype Header = Header(crc: uint32, timestamp: uint32, keySize: uint32, valueSize: uint32)

  datatype Record = Record(header: Header, key: seq<uint8>, value: seq<uint8>)

  /** The header's sizes describe the payload that follows it. */
  predicate WellFormed(r: Record)
  {
    r.header.keySize == |r.key| && r.header.valueSize == |r.value|
  }

  /** Number of payload bytes a header announces. */
  function DeclaredSize(h: Header): nat
  {
    h.keySize + h.valueSize
  }

  /** `Header::encode`: the four fields, each as four big-endian bytes, in
      the order crc, timestamp, key size, value size. */
  function HeaderEncode(h: Header): (b: seq<uint8>)
    ensures |b| == HEADER_SIZE
  {
    U32ToBytes(h.crc) + U32ToBytes(h.timestamp) + U32ToBytes(h.keySize) + U32ToBytes(h.valueSize)
  }

  /** `Header::decode` of a 16-byte buffer. */
  function HeaderDecode(b: seq<uint8>): Header
    requires |b| == HEADER_SIZE
  {
    Header(U32FromBytes(b[0..4]), U32FromBytes(b[4..8]), U32FromBytes(b[8..12]), U32FromBytes(b[12..16]))
  }

  /** Each field occupies its own four bytes and reads back as a big-endian
      number equal to the field. */
  lemma HeaderLayout(h: Header)
    ensures U32FromBytes(HeaderEncode(h)[0..4]) == h.crc
    ensures U32FromBytes(HeaderEncode(h)[4..8]) == h.timestamp
    ensures U32FromBytes(HeaderEncode(h)[8..12]) == h.keySize
    ensures U32FromBytes(HeaderEncode(h)[12..16]) == h.valueSize
  {
    var b := HeaderEncode(h);
    assert b[0..4] == U32ToBytes(h.crc);
    assert b[4..8] == U32ToBytes(h.timestamp);
    assert b[8..12] == U32ToBytes(h.keySize);
    assert b[12..16] == U32ToBytes(h.valueSize);
    U32RoundTrip(h.crc);
    U32RoundTrip(h.timestamp);
    U32RoundTrip(h.keySize);
    U32RoundTrip(h.valueSize);
  }

  /** Decoding an encoded header gives back all four fields. */
  lemma HeaderRoundTrip(h: Header)
    ensures HeaderDecode(HeaderEncode(h)) == h
  {
    HeaderLayout(h);
  }

  /** Every 16-byte buffer is the encoding of the header it decodes to, so
      header encoding is a bijection onto 16-byte buffers. */
  lemma HeaderDecodeInverse(b: seq<uint8>)
    requires |b| == HEADER_SIZE
    ensures HeaderEncode(HeaderDecode(b)) == b
  {
    U32BytesInverse(b[0..4]);
    U32BytesInverse(b[4..8]);
    U32BytesInverse(b[8..12]);
    U32BytesInverse(b[12..16]);
    assert b == b[0..4] + b[4..8] + b[8..12] + b[12..16];
  }

  /** `Record::new`: a zero crc and the payload lengths cast to `u32`, which
      truncates lengths of 2^32 bytes or more. */
  function RecordNew(timestamp: uint32, key: seq<uint8>, value: seq<uint8>): (r: Record)
    ensures r.header.crc == 0 && r.header.timestamp == timestamp
    ensures r.key == key && r.value == value
    ensures |key| < UINT32_LIMIT && |value| < UINT32_LIMIT <==> WellFormed(r)
  {
    Record(Header(0, timestamp, |key| % UINT32_LIMIT, |value| % UINT32_LIMIT), key, value)
  }

  /** Number of bytes a record takes in the log. */
  function EncodedSize(r: Record): nat
  {
    HEADER_SIZE + |r.key| + |r.value|
  }

  /** `Record::encode`: header, then key, then value, nothing in between. */
  function RecordEncode(r: Record): (b: seq<uint8>)
    ensures |b| == EncodedSize(r)
  {
    HeaderEncode(r.header) + r.key + r.value
  }

  /** Where each part of a record lies in its encoding. */
  lemma RecordLayout(r: Record)
    ensures RecordEncode(r)[..HEADER_SIZE] == HeaderEncode(r.header)
    ensures RecordEncode(r)[HEADER_SIZE..HEADER_SIZE + |r.key|] == r.key
    ensures RecordEncode(r)[HEADER_SIZE + |r.key|..] == r.value
  {
    var b := RecordEncode(r);
    assert b == HeaderEncode(r.header) + r.key + r.value;
    assert b[HEADER_SIZE..HEADER_SIZE + |r.key|] == r.key;
  }

  /** `Record::decode` as written. Fewer than 16 bytes is a `ShortHeader`
      error; otherwise the key and the value are drained from the rest, and
      a drain past the end of the buffer panics. The source's checks for a
      short key or value come after those drains and can never fire. Bytes
      after the value are dropped. */
  function RecordDecode(data: seq<uint8>): (r: Outcome<Record, FormatError>)
    ensures |data| < HEADER_SIZE <==> r == Err(ShortHeader(|data|))
    ensures r.Err? ==> r.error.ShortHeader?
  {
    if |data| < HEADER_SIZE then Err(ShortHeader(|data|))
    else
      var header := HeaderDecode(data[..HEADER_SIZE]);
      var rest := data[HEADER_SIZE..];
      if |rest| < header.keySize then Panic
      else
        var key := rest[..header.keySize];
        var rest' := rest[header.keySize..];
        if |rest'| < header.valueSize then Panic
        else Ok(Record(header, key, rest'[..header.valueSize]))
  }

  /** When `Record::decode` panics, and what it returns otherwise: a
      well-formed record whose encoding is exactly the front of the buffer,
      so the key is bytes [16, 16 + key size) and the value the next value
      size bytes, whatever follows. */
  lemma RecordDecodeSpec(data: seq<uint8>)
    ensures RecordDecode(data).Panic? <==>
              |data| >= HEADER_SIZE
              && |data| < HEADER_SIZE + DeclaredSize(HeaderDecode(data[..HEADER_SIZE]))
    ensures RecordDecode(data).Ok? ==>
              var r := RecordDecode(data).value;
              && WellFormed(r)
              && |data| >= HEADER_SIZE + |r.key| + |r.value|
              && RecordEncode(r) == data[..HEADER_SIZE + |r.key| + |r.value|]
  {
    if RecordDecode(data).Ok? {
      var r := RecordDecode(data).value;
      HeaderDecodeInverse(data[..HEADER_SIZE]);
      var n := HEADER_SIZE + |r.key| + |r.value|;
      assert data[..n] == data[..HEADER_SIZE] + r.key + r.value;
    }
  }

  /** `Record::decode` as its error checks show it was meant to behave: a
      buffer too short for the declared key or value yields the matching
      typed error, with the bytes actually available, instead of a panic. */
  function RecordDecodeChecked(data: seq<uint8>): (r: Outcome<Record, FormatError>)
    ensures !r.Panic?
    ensures r.Err? && r.error.ShortKey? ==> r.error.len < r.error.expected
    ensures r.Err? && r.error.ShortValue? ==> r.error.len < r.error.expected
  {
    if |data| < HEADER_SIZE then Err(ShortHeader(|data|))
    else
      var header := HeaderDecode(data[..HEADER_SIZE]);
      var rest := data[HEADER_SIZE..];
      if |rest| < header.keySize then Err(ShortKey(|rest|, header.keySize))
      else
        var key := rest[..header.keySize];
        var rest' := rest[header.keySize..];
        if |rest'| < header.valueSize then Err(ShortValue(|rest'|, header.valueSize))
        else Ok(Record(header, key, rest'[..header.valueSize]))
  }

  /** The checked decoder agrees with `Record::decode` wherever that one
      does not panic, and reports a short key or value exactly where it
      does. */
  lemma CheckedDecodeAgrees(data: seq<uint8>)
    ensures !RecordDecode(data).Panic? ==> RecordDecodeChecked(data) == RecordDecode(data)
    ensures RecordDecode(data).Panic? <==>
              RecordDecodeChecked(data).Err?
              && (RecordDecodeChecked(data).error.ShortKey? || RecordDecodeChecked(data).error.ShortValue?)
  {
  }

  /** Decoding an encoded well-formed record, followed by any bytes at all,
      gives back the record. */
  lemma RecordRoundTrip(r: Record, trailing: seq<uint8>)
    requires WellFormed(r)
    ensures RecordDecode(RecordEncode(r) + trailing) == Ok(r)
    ensures RecordDecodeChecked(RecordEncode(r) + trailing) == Ok(r)
  {
    var data := RecordEncode(r) + trailing;
    RecordLayout(r);
    assert data[..HEADER_SIZE] == HeaderEncode(r.header);
    HeaderRoundTrip(r.header);
    var rest := data[HEADER_SIZE..];
    assert rest[..|r.key|] == r.key;
    assert rest[|r.key|..][..|r.value|] == r.value;
  }

  /** A record built by `Record::new` survives encoding and decoding, empty
      key and value included. */
  lemma NewRecordRoundTrip(timestamp: uint32, key: seq<uint8>, value: seq<uint8>)
    requires |key| < UINT32_LIMIT && |value| < UINT32_LIMIT
    ensures RecordDecode(RecordEncode(RecordNew(timestamp, key, value))) == Ok(RecordNew(timestamp, key, value))
  {
    var e := RecordEncode(RecordNew(timestamp, key, value));
    RecordRoundTrip(RecordNew(timestamp, key, value), []);
    assert e + [] == e;
  }

  /** A header announcing a one-byte key with nothing after it: as written,
      decoding panics; the checked decoder reports the short key. */
  lemma ShortKeyPanics()
    ensures RecordDecode(HeaderEncode(Header(0, 0, 1, 0))) == Panic
    ensures RecordDecodeChecked(HeaderEncode(Header(0, 0, 1, 0))) == Err(ShortKey(0, 1))
  {
    var b := HeaderEncode(Header(0, 0, 1, 0));
    HeaderRoundTrip(Header(0, 0, 1, 0));
    assert b[..HEADER_SIZE] == b;
  }
}
