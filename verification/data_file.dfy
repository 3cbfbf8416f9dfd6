/**
 * A data file: its id, the offset the engine will write at next, and its
 * bytes. Writing appends one encoded record; reading decodes at an offset.
 */
module DataFiles {
  import opened Bytes
  import opened Wrappers
  import opened Codec
  import opened CodecLaws

  /** Where a record lives: the id of its data file and its offset in that file. */
  datatype LogRecordPos = LogRecordPos(Fid: uint32, Offset: nat)

  datatype DataFile = DataFile(FileId: uint32, WriteOff: nat, bytes: seq<byte>)

  /** The name suffix of data files. */
  const DataFileSuffix: string := ".data"

  /** Opening a data file: its current contents, with the write offset at 0. */
  function OpenDataFile(fid: uint32, contents: seq<byte>): (f: DataFile)
    ensures f.FileId == fid && f.WriteOff == 0 && f.bytes == contents
  {
    DataFile(fid, 0, contents)
  }

  /** The write offset agrees with the length of the file. */
  predicate InSync(f: DataFile) {
    f.WriteOff == |f.bytes|
  }

  /**
   * Append the encoding of `r` to the file and advance the write offset by its
   * length; also returns that length.
   */
  function WriteLogRecord(f: DataFile, r: LogRecord): (res: (DataFile, nat))
    requires HeaderFits(r)
    ensures res.1 == EncodeLogRecordSize(r)
    ensures res.0.FileId == f.FileId
    ensures res.0.WriteOff == f.WriteOff + res.1
    ensures |res.0.bytes| == |f.bytes| + res.1
    ensures InSync(f) ==> InSync(res.0)
  {
    var e := EncodeLogRecord(r);
    (DataFile(f.FileId, f.WriteOff + |e|, f.bytes + e), |e|)
  }

  /** Read the record stored at `off` and its size. */
  function ReadLogRecord(f: DataFile, off: nat): (r: Result<Decoded, CodecError>)
    ensures off == |f.bytes| ==> r == Failure(EOF)
    ensures off > |f.bytes| ==> r == Failure(Malformed)
    ensures r.Success? ==> 5 <= r.value.size && off + r.value.size <= |f.bytes|
  {
    DecodeLogRecord(f.bytes, off)
  }

  /**
   * A record written to a file reads back at the offset where the file ended,
   * with the size the write reported.
   */
  lemma ReadAfterWrite(f: DataFile, r: LogRecord)
    requires HeaderFits(r)
    ensures var (f', n) := WriteLogRecord(f, r);
            ReadLogRecord(f', |f.bytes|) == Success(Decoded(r, n))
  {
    DecodeEncode(f.bytes, r, []);
    assert f.bytes + EncodeLogRecord(r) + [] == f.bytes + EncodeLogRecord(r);
  }

  /** A record encoded at `|pre|` in a file reads back there, whatever follows it. */
  lemma ReadAfterWriteAt(f: DataFile, pre: seq<byte>, r: LogRecord, post: seq<byte>)
    requires HeaderFits(r) && f.bytes == pre + EncodeLogRecord(r) + post
    ensures ReadLogRecord(f, |pre|) == Success(Decoded(r, EncodeLogRecordSize(r)))
  {
    DecodeEncode(pre, r, post);
  }

  /** Writing never changes what an earlier record reads as. */
  lemma ReadStableUnderWrite(f: DataFile, r: LogRecord, off: nat)
    requires HeaderFits(r)
    requires ReadLogRecord(f, off).Success?
    ensures ReadLogRecord(WriteLogRecord(f, r).0, off) == ReadLogRecord(f, off)
  {
    DecodeExtend(f.bytes, EncodeLogRecord(r), off);
  }
}
