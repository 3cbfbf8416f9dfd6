/**
 * The binary codec of one log record. On disk a record is
 *
 *   crc (4 bytes, little-endian) | type (1 byte) | key size (varint)
 *   | value size (varint) | key | value
 *
 * and the CRC-32 covers every byte after the crc field.
 */
module Codec {
  import opened Bytes
  import opened Wrappers
  import opened Varints
  import opened Crc32

  /** crc + type + two varints of at most five bytes each. */
  const LogRecordHeaderMaxSize: nat := 15

  /**
   * The two record kinds. Only their distinctness matters to the engine;
   * the values are those of the documented on-disk format.
   */
  const LogRecordNormal: byte := 1
  const LogRecordDelete: byte := 0

  datatype LogRecord = LogRecord(Key: seq<byte>, Value: seq<byte>, Type: byte)

  /**
   * What decoding can report besides a record:
   * - EOF: nothing left at the offset, or the key or value runs past the end
   *   of the file (the positioned read comes back short with `io.EOF`);
   * - Damaged: the checksum does not match ("the data file is damaged");
   * - Malformed: a header the code does not check (shorter than five bytes,
   *   a varint that does not parse, a negative length, an offset past the end).
   */
  datatype CodecError = EOF | Damaged | Malformed

  /** A decoded record and the number of bytes it occupied. */
  datatype Decoded = Decoded(record: LogRecord, size: nat)

  /** The fixed and variable header fields, and the header's length in bytes. */
  datatype Header = Header(crc: uint32, recordType: byte, keySize: nat, valueSize: nat, length: nat)

  /**
   * Encoding writes both varints into the ten header bytes after crc and
   * type; a record whose two length varints need more than that cannot be
   * encoded (the write would run off the header buffer).
   */
  predicate HeaderFits(r: LogRecord) {
    |PutVarint(|r.Key|)| + |PutVarint(|r.Value|)| <= LogRecordHeaderMaxSize - 5
  }

  /** The four little-endian bytes of `n`, lowest first. */
  function LittleEndianBytes(n: int): (b: seq<byte>)
    requires 0 <= n < TWO_TO_THE_32
    ensures |b| == 4
  {
    var m1 := n / 256;
    var m2 := m1 / 256;
    var m3 := m2 / 256;
    [n % 256, m1 % 256, m2 % 256, m3 % 256]
  }

  /** The number whose little-endian bytes start `b`. */
  function LittleEndianValue(b: seq<byte>): (n: int)
    requires |b| >= 4
    ensures 0 <= n < TWO_TO_THE_32
  {
    b[0] as int + 256 * (b[1] as int + 256 * (b[2] as int + 256 * (b[3] as int)))
  }

  lemma {:induction false} LittleEndianBytesRoundTrip(n: int, rest: seq<byte>)
    requires 0 <= n < TWO_TO_THE_32
    ensures LittleEndianValue(LittleEndianBytes(n) + rest) == n
  {
    var m1 := n / 256;
    var m2 := m1 / 256;
    var m3 := m2 / 256;
    assert n == n % 256 + 256 * m1;
    assert m1 == m1 % 256 + 256 * m2;
    assert m2 == m2 % 256 + 256 * m3;
    assert m3 < 256;
  }

  /** `binary.LittleEndian.PutUint32`. */
  function LittleEndian32(c: uint32): (b: seq<byte>)
    ensures |b| == 4
  {
    LittleEndianBytes(c)
  }

  /** `binary.LittleEndian.Uint32`: the first four bytes of `b`. */
  function Uint32LE(b: seq<byte>): uint32
    requires |b| >= 4
  {
    LittleEndianValue(b)
  }

  /** Reading back the four bytes `PutUint32` wrote gives the same word. */
  lemma LittleEndianRoundTrip(c: uint32, rest: seq<byte>)
    ensures Uint32LE(LittleEndian32(c) + rest) == c
  {
    LittleEndianBytesRoundTrip(c, rest);
  }

  /** Everything after the crc field. */
  function Body(r: LogRecord): seq<byte> {
    [r.Type] + PutVarint(|r.Key|) + PutVarint(|r.Value|) + r.Key + r.Value
  }

  /** `EncodeLogRecordSize`: the encoded length, without encoding. */
  function EncodeLogRecordSize(r: LogRecord): nat {
    5 + |PutVarint(|r.Key|)| + |PutVarint(|r.Value|)| + |r.Key| + |r.Value|
  }

  /** `EncodeLogRecord`: the bytes of one record; as long as `EncodeLogRecordSize` predicts. */
  function EncodeLogRecord(r: LogRecord): (bytes: seq<byte>)
    requires HeaderFits(r)
    ensures |bytes| == EncodeLogRecordSize(r)
  {
    var body := Body(r);
    LittleEndian32(ChecksumIEEE(body)) + body
  }

  /** The length of the header `EncodeLogRecord` writes for `r`. */
  function HeaderLength(r: LogRecord): nat {
    5 + |PutVarint(|r.Key|)| + |PutVarint(|r.Value|)|
  }

  /**
   * The record format, stated field by field: `e` holds `r` when bytes 0..3
   * are the little-endian CRC-32 of everything after them, byte 4 is the
   * type, then come the key-size and value-size varints, the key and the value.
   */
  predicate Encodes(e: seq<byte>, r: LogRecord) {
    var k := 5 + |PutVarint(|r.Key|)|;
    var v := HeaderLength(r);
    && HeaderFits(r)
    && |e| == v + |r.Key| + |r.Value|
    && Uint32LE(e) == ChecksumIEEE(e[4..])
    && e[4] == r.Type
    && e[5..k] == PutVarint(|r.Key|)
    && e[k..v] == PutVarint(|r.Value|)
    && e[v..v + |r.Key|] == r.Key
    && e[v + |r.Key|..] == r.Value
  }

  /** `EncodeLogRecord` lays a record out in the record format. */
  lemma EncodeLogRecordEncodes(r: LogRecord)
    requires HeaderFits(r)
    ensures Encodes(EncodeLogRecord(r), r)
  {
    EncodingChecksum(r);
    EncodingFields(r);
  }

  lemma EncodingChecksum(r: LogRecord)
    requires HeaderFits(r)
    ensures var e := EncodeLogRecord(r);
            Uint32LE(e) == ChecksumIEEE(e[4..])
  {
    var body := Body(r);
    LittleEndianRoundTrip(ChecksumIEEE(body), body);
    assert EncodeLogRecord(r)[4..] == body;
  }

  lemma EncodingFields(r: LogRecord)
    requires HeaderFits(r)
    ensures var e := EncodeLogRecord(r);
            var k := 5 + |PutVarint(|r.Key|)|;
            var v := HeaderLength(r);
            && e[4] == r.Type
            && e[5..k] == PutVarint(|r.Key|)
            && e[k..v] == PutVarint(|r.Value|)
            && e[v..v + |r.Key|] == r.Key
            && e[v + |r.Key|..] == r.Value
  {
    var e := EncodeLogRecord(r);
    var body := Body(r);
    var k := 5 + |PutVarint(|r.Key|)|;
    var v := HeaderLength(r);
    assert e[4..] == body;
    BodyFields(r);
    SliceAfterPrefix(e, 4, 5, k);
    SliceAfterPrefix(e, 4, k, v);
    SliceAfterPrefix(e, 4, v, v + |r.Key|);
    SliceAfterPrefix(e, 4, v + |r.Key|, |e|);
  }

  lemma BodyFields(r: LogRecord)
    ensures var b := Body(r);
            var k := 1 + |PutVarint(|r.Key|)|;
            var v := HeaderLength(r) - 4;
            && |b| == v + |r.Key| + |r.Value|
            && b[0] == r.Type
            && b[1..k] == PutVarint(|r.Key|)
            && b[k..v] == PutVarint(|r.Value|)
            && b[v..v + |r.Key|] == r.Key
            && b[v + |r.Key|..] == r.Value
  {
    FiveFields([r.Type], PutVarint(|r.Key|), PutVarint(|r.Value|), r.Key, r.Value);
  }

  /** The pieces of a five-part concatenation, recovered by slicing. */
  lemma FiveFields(a: seq<byte>, b: seq<byte>, c: seq<byte>, d: seq<byte>, e: seq<byte>)
    ensures var s := a + b + c + d + e;
            var i, j, k := |a|, |a| + |b|, |a| + |b| + |c|;
            && s[..i] == a && s[i..j] == b && s[j..k] == c
            && s[k..k + |d|] == d && s[k + |d|..] == e
  {
    var s := a + b + c + d + e;
    var abcd := a + b + c + d;
    assert s[..|abcd|] == abcd;
    var abc := a + b + c;
    assert abcd[..|abc|] == abc;
  }

  lemma SliceAfterPrefix(e: seq<byte>, p: nat, i: nat, j: nat)
    requires p <= i <= j <= |e|
    ensures e[i..j] == e[p..][i - p..j - p]
  {
  }

  /**
   * Parse crc, type and the two length varints out of the header bytes read
   * from the file.
   */
  function ParseHeader(header: seq<byte>): (r: Result<Header, CodecError>)
    requires |header| >= 5
    ensures r.Success? ==> 5 <= r.value.length <= |header|
  {
    match Varint(header[5..])
    case None => Failure(Malformed)
    case Some((keySize, n1)) =>
      if keySize < 0 then Failure(Malformed)
      else
        match Varint(header[5 + n1..])
        case None => Failure(Malformed)
        case Some((valueSize, n2)) =>
          if valueSize < 0 then Failure(Malformed)
          else Success(Header(Uint32LE(header), header[4], keySize, valueSize, 5 + n1 + n2))
  }

  /**
   * How many header bytes `DecodeLogRecord` reads at `off`: the maximum
   * header size, or fewer when the file ends sooner.
   */
  function HeaderWindow(file: seq<byte>, off: nat): (w: nat)
    requires off <= |file|
    ensures w <= LogRecordHeaderMaxSize && off + w <= |file|
  {
    if |file| - off < LogRecordHeaderMaxSize then |file| - off else LogRecordHeaderMaxSize
  }

  /** The header-reading half of `DecodeLogRecord`. */
  function ReadHeader(file: seq<byte>, off: nat): (r: Result<Header, CodecError>)
    ensures off == |file| ==> r == Failure(EOF)
    ensures off > |file| ==> r == Failure(Malformed)
    ensures r.Success? ==> 5 <= r.value.length <= LogRecordHeaderMaxSize
    ensures r.Success? ==> off + r.value.length <= |file|
  {
    if off > |file| then Failure(Malformed)
    else
      var window := HeaderWindow(file, off);
      if window == 0 then Failure(EOF)
      else if window < 5 then Failure(Malformed)
      else ParseHeader(file[off..off + window])
  }

  /**
   * `checkLogRecordCRC`: whether `crc` is the CRC-32 of the header bytes
   * after the crc field followed by the key and the value.
   */
  function CheckLogRecordCrc(header: seq<byte>, key: seq<byte>, value: seq<byte>, crc: uint32): bool
    requires |header| >= 4
  {
    ChecksumIEEE(header[4..] + key + value) == crc
  }

  /**
   * The stored code is checked by feeding header (without its crc field),
   * key and value to CRC-32 one after another; that incremental computation
   * accepts exactly when the one-shot checksum of the concatenation matches.
   */
  lemma IncrementalCrcCheck(header: seq<byte>, key: seq<byte>, value: seq<byte>, crc: uint32)
    requires |header| >= 4
    ensures CheckLogRecordCrc(header, key, value, crc)
            <==> UpdateIEEE(UpdateIEEE(ChecksumIEEE(header[4..]), key), value) == crc
  {
    ChecksumInPieces(header[4..], key, value);
  }

  /** `DecodeLogRecord`: the record stored at `off` and its size in bytes. */
  function DecodeLogRecord(file: seq<byte>, off: nat): (r: Result<Decoded, CodecError>)
    ensures off == |file| ==> r == Failure(EOF)
    ensures off > |file| ==> r == Failure(Malformed)
    ensures r.Success? ==> 5 <= r.value.size && off + r.value.size <= |file|
  {
    match ReadHeader(file, off)
    case Failure(e) => Failure(e)
    case Success(h) => ReadKeyValue(file, off, h)
  }

  /**
   * The second half of `DecodeLogRecord`: read key and value after the
   * header and check the crc over header, key and value.
   */
  function ReadKeyValue(file: seq<byte>, off: nat, h: Header): (r: Result<Decoded, CodecError>)
    requires 5 <= h.length && off + h.length <= |file|
    ensures r.Success? ==> 5 <= r.value.size && off + r.value.size <= |file|
  {
    var keyAt := off + h.length;
    var valueAt := keyAt + h.keySize;
    var end := valueAt + h.valueSize;
    if valueAt > |file| || end > |file| then Failure(EOF)
    else
      var key := file[keyAt..valueAt];
      var value := file[valueAt..end];
      if !CheckLogRecordCrc(file[off..keyAt], key, value, h.crc) then Failure(Damaged)
      else Success(Decoded(LogRecord(key, value, h.recordType), h.length + h.keySize + h.valueSize))
  }
}
