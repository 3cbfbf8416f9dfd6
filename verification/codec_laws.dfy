/** What the codec promises: sizes, the round trip, integrity checking, locality. */
module CodecLaws {
  import opened Bytes
  import opened Wrappers
  import opened Varints
  import opened Crc32
  import opened Codec

  /**
   * Keys and values shorter than 2^34 bytes have length varints of at most
   * five bytes each, so their record header fits in the fifteen reserved bytes.
   */
  lemma HeaderSizeBound(r: LogRecord)
    requires |r.Key| < 0x4_0000_0000 && |r.Value| < 0x4_0000_0000
    ensures |PutVarint(|r.Key|)| <= 5 && |PutVarint(|r.Value|)| <= 5
    ensures HeaderFits(r)
  {
    assert Pow128(5) == 0x8_0000_0000;
    PutUvarintLength(ZigZag(|r.Key|), 5);
    PutUvarintLength(ZigZag(|r.Value|), 5);
  }

  /**
   * 2^34 is not a limit: a short key leaves room for a six-byte value varint,
   * so values from 2^34 up to 2^41 bytes still fit the fifteen header bytes.
   */
  lemma LongValueFits(r: LogRecord)
    requires |r.Key| < 64 && 0x4_0000_0000 <= |r.Value| < 0x200_0000_0000
    ensures |PutVarint(|r.Key|)| == 1 && |PutVarint(|r.Value|)| == 6
    ensures HeaderFits(r)
  {
    assert Pow128(5) == 0x8_0000_0000;
    assert Pow128(6) == 0x400_0000_0000;
    PutUvarintLength(ZigZag(|r.Value|), 5);
    PutUvarintLength(ZigZag(|r.Value|), 6);
  }

  /**
   * A key and a value both of 2^34 bytes or more need at least six varint
   * bytes each, more than the ten the header leaves, so the record is not
   * writable.
   */
  lemma BothLongOverflow(r: LogRecord)
    requires |r.Key| >= 0x4_0000_0000 && |r.Value| >= 0x4_0000_0000
    ensures |PutVarint(|r.Key|)| >= 6 && |PutVarint(|r.Value|)| >= 6
    ensures !HeaderFits(r)
  {
    assert Pow128(5) == 0x8_0000_0000;
    PutUvarintLength(ZigZag(|r.Key|), 5);
    PutUvarintLength(ZigZag(|r.Value|), 5);
  }

  /** The size reported for "hello"/"world" is 17 bytes. */
  lemma HelloWorldSize()
    ensures var r := LogRecord(Ascii("hello"), Ascii("world"), LogRecordNormal);
            HeaderFits(r) && |EncodeLogRecord(r)| == 17
  {
    var r := LogRecord(Ascii("hello"), Ascii("world"), LogRecordNormal);
    assert PutVarint(5) == [10];
  }

  /** The two length varints of an encoded header read back as the key and value lengths. */
  lemma HeaderVarints(e: seq<byte>, r: LogRecord)
    requires Encodes(e, r)
    ensures var h := e[..HeaderLength(r)];
            var n1 := |PutVarint(|r.Key|)|;
            && Varint(h[5..]) == Some((|r.Key|, n1))
            && Varint(h[5 + n1..]) == Some((|r.Value|, |PutVarint(|r.Value|)|))
  {
    var h := e[..HeaderLength(r)];
    var kv := PutVarint(|r.Key|);
    var vv := PutVarint(|r.Value|);
    assert h[5..] == kv + vv;
    VarintRoundTrip(|r.Key|, vv);
    assert h[5 + |kv|..] == vv + [];
    VarintRoundTrip(|r.Value|, []);
  }

  /** The header bytes of an encoding parse back to the fields written. */
  lemma ParseHeaderOfEncoding(e: seq<byte>, r: LogRecord)
    requires Encodes(e, r)
    ensures ParseHeader(e[..HeaderLength(r)])
            == Success(Header(Uint32LE(e), r.Type, |r.Key|, |r.Value|, HeaderLength(r)))
  {
    var h := e[..HeaderLength(r)];
    HeaderVarints(e, r);
    assert Uint32LE(h) == Uint32LE(e);
    assert h[4] == r.Type;
  }

  /** A header that parses keeps parsing the same way when more bytes follow it. */
  lemma ParseHeaderExtend(h: seq<byte>, more: seq<byte>)
    requires |h| >= 5 && ParseHeader(h).Success?
    ensures ParseHeader(h + more) == ParseHeader(h)
  {
    var k := Varint(h[5..]).value;
    assert (h + more)[5..] == h[5..] + more;
    VarintExtend(h[5..], more);
    assert (h + more)[5 + k.1..] == h[5 + k.1..] + more;
    VarintExtend(h[5 + k.1..], more);
    assert Uint32LE(h + more) == Uint32LE(h);
  }

  /** With at least five bytes left, reading a header parses the window at `off`. */
  lemma ReadHeaderParsesWindow(file: seq<byte>, off: nat)
    requires off + 5 <= |file|
    ensures ReadHeader(file, off) == ParseHeader(file[off..off + HeaderWindow(file, off)])
  {
  }

  /** The header of an encoded record, followed by anything, reads back as written. */
  lemma ReadHeaderOfEncoding(pre: seq<byte>, e: seq<byte>, post: seq<byte>, r: LogRecord)
    requires Encodes(e, r)
    ensures ReadHeader(pre + e + post, |pre|)
            == Success(Header(Uint32LE(e), r.Type, |r.Key|, |r.Value|, HeaderLength(r)))
  {
    ParseHeaderOfEncoding(e, r);
    ReadHeaderOfPrefix(pre, e, post, HeaderLength(r));
  }

  /** A record whose first `hl` bytes parse as a header reads that header wherever it sits. */
  lemma ReadHeaderOfPrefix(pre: seq<byte>, e: seq<byte>, post: seq<byte>, hl: nat)
    requires 5 <= hl <= |e| && hl <= LogRecordHeaderMaxSize
    requires ParseHeader(e[..hl]).Success?
    ensures ReadHeader(pre + e + post, |pre|) == ParseHeader(e[..hl])
  {
    var file := pre + e + post;
    var off := |pre|;
    var window := HeaderWindow(file, off);
    WindowOfEncoding(pre, e, post, hl);
    ParseHeaderExtend(e[..hl], file[off + hl..off + window]);
    ReadHeaderParsesWindow(file, off);
  }

  /** The header window over an embedded record starts with the record's first `hl` bytes. */
  lemma WindowOfEncoding(pre: seq<byte>, e: seq<byte>, post: seq<byte>, hl: nat)
    requires 5 <= hl <= |e| && hl <= LogRecordHeaderMaxSize
    ensures var file := pre + e + post;
            var w := HeaderWindow(file, |pre|);
            && hl <= w
            && file[|pre|..|pre| + w] == e[..hl] + file[|pre| + hl..|pre| + w]
  {
    var file := pre + e + post;
    var off := |pre|;
    var w := HeaderWindow(file, off);
    assert file[off..off + hl] == e[..hl];
    SliceConcat(file, off, off + hl, off + w);
  }

  /** Key and value of an encoded record read back, and its checksum matches. */
  lemma ReadKeyValueOfEncoding(pre: seq<byte>, e: seq<byte>, post: seq<byte>, r: LogRecord, h: Header)
    requires 5 <= h.length && h == Header(h.crc, r.Type, |r.Key|, |r.Value|, h.length)
    requires |e| == h.length + |r.Key| + |r.Value| && h.crc == ChecksumIEEE(e[4..])
    requires e[h.length..h.length + |r.Key|] == r.Key && e[h.length + |r.Key|..] == r.Value
    ensures |pre| + h.length <= |pre + e + post|
    ensures ReadKeyValue(pre + e + post, |pre|, h) == Success(Decoded(r, |e|))
  {
    var file := pre + e + post;
    var off := |pre|;
    RecordSlices(pre, e, post, h.length, |r.Key|, |r.Value|);
    ReadKeyValueOfSlices(file, off, h, r.Key, r.Value);
  }

  /** Key and value read back when the file holds them after the header and the checksum matches. */
  lemma ReadKeyValueOfSlices(file: seq<byte>, off: nat, h: Header, key: seq<byte>, value: seq<byte>)
    requires 5 <= h.length && h.keySize == |key| && h.valueSize == |value|
    requires off + h.length + |key| + |value| <= |file|
    requires file[off + h.length..off + h.length + |key|] == key
    requires file[off + h.length + |key|..off + h.length + |key| + |value|] == value
    requires ChecksumIEEE(file[off..off + h.length][4..] + key + value) == h.crc
    ensures ReadKeyValue(file, off, h) == Success(Decoded(LogRecord(key, value, h.recordType), h.length + |key| + |value|))
  {
  }

  /** The slices `ReadKeyValue` takes of a file around an embedded record. */
  lemma RecordSlices(pre: seq<byte>, e: seq<byte>, post: seq<byte>, hl: nat, k: nat, v: nat)
    requires 4 <= hl && |e| == hl + k + v
    ensures var file := pre + e + post;
            var off := |pre|;
            && file[off + hl..off + hl + k] == e[hl..hl + k]
            && file[off + hl + k..off + hl + k + v] == e[hl + k..]
            && file[off..off + hl][4..] + e[hl..hl + k] + e[hl + k..] == e[4..]
  {
    var file := pre + e + post;
    var off := |pre|;
    assert file[off..off + |e|] == e;
  }

  /** Decoding at the start of an encoded record returns that record and its size. */
  lemma DecodeEncoded(pre: seq<byte>, e: seq<byte>, post: seq<byte>, r: LogRecord)
    requires Encodes(e, r)
    ensures DecodeLogRecord(pre + e + post, |pre|) == Success(Decoded(r, |e|))
  {
    ReadHeaderOfEncoding(pre, e, post, r);
    ReadKeyValueOfEncoding(pre, e, post, r, Header(Uint32LE(e), r.Type, |r.Key|, |r.Value|, HeaderLength(r)));
  }

  /**
   * Round trip: decoding a file `pre ++ Encode(r) ++ post` at offset `|pre|`
   * returns `r` and consumes exactly the encoded size. The empty value and a
   * record at the very end of the file (`post` empty) are included.
   */
  lemma DecodeEncode(pre: seq<byte>, r: LogRecord, post: seq<byte>)
    requires HeaderFits(r)
    ensures DecodeLogRecord(pre + EncodeLogRecord(r) + post, |pre|)
            == Success(Decoded(r, |EncodeLogRecord(r)|))
  {
    EncodeLogRecordEncodes(r);
    DecodeEncoded(pre, EncodeLogRecord(r), post, r);
  }

  /** An encoded record on its own decodes to itself. */
  lemma DecodeEncodeAlone(r: LogRecord)
    requires HeaderFits(r)
    ensures DecodeLogRecord(EncodeLogRecord(r), 0) == Success(Decoded(r, |EncodeLogRecord(r)|))
  {
    DecodeEncode([], r, []);
    assert [] + EncodeLogRecord(r) + [] == EncodeLogRecord(r);
  }

  lemma SliceConcat(s: seq<byte>, i: nat, j: nat, k: nat)
    requires i <= j <= k <= |s|
    ensures s[i..j] + s[j..k] == s[i..k]
  {
  }

  /** Once the header has been read, decoding is reading key and value. */
  lemma DecodeAfterHeader(file: seq<byte>, off: nat)
    requires ReadHeader(file, off).Success?
    ensures DecodeLogRecord(file, off) == ReadKeyValue(file, off, ReadHeader(file, off).value)
  {
  }

  /** With key and value inside the file, reading them fails only on a checksum mismatch. */
  lemma ReadKeyValueIntegrity(file: seq<byte>, off: nat, h: Header)
    requires 5 <= h.length && off + h.length + h.keySize + h.valueSize <= |file|
    ensures var end := off + h.length + h.keySize + h.valueSize;
            && (ReadKeyValue(file, off, h).Success? <==> h.crc == ChecksumIEEE(file[off + 4..end]))
            && (ReadKeyValue(file, off, h).Failure? ==> ReadKeyValue(file, off, h).error == Damaged)
  {
    var keyAt := off + h.length;
    var valueAt := keyAt + h.keySize;
    var end := valueAt + h.valueSize;
    CrcCoversRecord(file, off, keyAt, valueAt, end);
  }

  /** What the checksum of a record covers: the header after the crc field, the key and the value. */
  lemma CrcCoversRecord(file: seq<byte>, off: nat, keyAt: nat, valueAt: nat, end: nat)
    requires off + 4 <= keyAt <= valueAt <= end <= |file|
    ensures file[off..keyAt][4..] + file[keyAt..valueAt] + file[valueAt..end] == file[off + 4..end]
  {
    assert file[off..keyAt][4..] == file[off + 4..keyAt];
    SliceConcat(file, off + 4, keyAt, valueAt);
    SliceConcat(file, off + 4, valueAt, end);
  }

  /**
   * Integrity: once the header parses and key and value lie inside the file,
   * decoding succeeds exactly when the stored crc equals the CRC-32 of the
   * record's bytes after the crc field, and otherwise reports the data as damaged.
   */
  lemma DecodeChecksIntegrity(file: seq<byte>, off: nat)
    requires ReadHeader(file, off).Success?
    requires var h := ReadHeader(file, off).value;
             off + h.length + h.keySize + h.valueSize <= |file|
    ensures var h := ReadHeader(file, off).value;
            var end := off + h.length + h.keySize + h.valueSize;
            && (DecodeLogRecord(file, off).Success? <==> h.crc == ChecksumIEEE(file[off + 4..end]))
            && (DecodeLogRecord(file, off).Failure? ==> DecodeLogRecord(file, off).error == Damaged)
  {
    DecodeAfterHeader(file, off);
    ReadKeyValueIntegrity(file, off, ReadHeader(file, off).value);
  }

  /**
   * Appending to a file never changes what an earlier, complete record
   * decodes to: the reason reads of known positions are safe while the
   * active file keeps growing.
   */
  lemma DecodeExtend(file: seq<byte>, more: seq<byte>, off: nat)
    requires DecodeLogRecord(file, off).Success?
    ensures DecodeLogRecord(file + more, off) == DecodeLogRecord(file, off)
  {
    var h := ReadHeader(file, off).value;
    ReadHeaderExtend(file, more, off);
    DecodeAfterHeader(file, off);
    DecodeAfterHeader(file + more, off);
    ReadKeyValueExtend(file, more, off, h);
  }

  lemma ReadKeyValueExtend(file: seq<byte>, more: seq<byte>, off: nat, h: Header)
    requires 5 <= h.length && off + h.length <= |file|
    requires ReadKeyValue(file, off, h).Success?
    ensures ReadKeyValue(file + more, off, h) == ReadKeyValue(file, off, h)
  {
    var keyAt := off + h.length;
    var valueAt := keyAt + h.keySize;
    var end := valueAt + h.valueSize;
    var f2 := file + more;
    assert f2[off..keyAt] == file[off..keyAt];
    assert f2[keyAt..valueAt] == file[keyAt..valueAt];
    assert f2[valueAt..end] == file[valueAt..end];
  }

  /** A header that reads keeps reading the same way when the file grows. */
  lemma ReadHeaderExtend(file: seq<byte>, more: seq<byte>, off: nat)
    requires ReadHeader(file, off).Success?
    ensures ReadHeader(file + more, off) == ReadHeader(file, off)
  {
    assert off + 5 <= |file|;
    ReadHeaderParsesWindow(file, off);
    ReadHeaderParsesWindow(file + more, off);
    WindowParseGrows(file, more, off);
  }

  /** Parsing the header window of a grown file gives what the shorter one's window gives. */
  lemma WindowParseGrows(file: seq<byte>, more: seq<byte>, off: nat)
    requires off + 5 <= |file| && ParseHeader(file[off..off + HeaderWindow(file, off)]).Success?
    ensures var f2 := file + more;
            ParseHeader(f2[off..off + HeaderWindow(f2, off)]) == ParseHeader(file[off..off + HeaderWindow(file, off)])
  {
    var f2 := file + more;
    var w1 := HeaderWindow(file, off);
    var w2 := HeaderWindow(f2, off);
    WindowGrows(file, more, off);
    var h1, rest := file[off..off + w1], f2[off + w1..off + w2];
    assert f2[off..off + w2] == h1 + rest;
    ParseHeaderExtend(h1, rest);
  }

  /** The header window of a longer file starts with the window of the shorter one. */
  lemma WindowGrows(file: seq<byte>, more: seq<byte>, off: nat)
    requires off <= |file|
    ensures var f2 := file + more;
            var w1 := HeaderWindow(file, off);
            var w2 := HeaderWindow(f2, off);
            w1 <= w2 && f2[off..off + w2] == file[off..off + w1] + f2[off + w1..off + w2]
  {
    var f2 := file + more;
    var w1 := HeaderWindow(file, off);
    var w2 := HeaderWindow(f2, off);
    assert f2[off..off + w1] == file[off..off + w1];
    SliceConcat(f2, off, off + w1, off + w2);
  }


  /** At the end of the file decoding reports EOF, which is how replay stops. */
  lemma DecodeAtEnd(file: seq<byte>)
    ensures DecodeLogRecord(file, |file|) == Failure(EOF)
  {
  }
}
