/**
 * What the engine's write and read operations promise together: a value
 * written is read back, the latest write wins, a deleted key is gone, other
 * keys are untouched, and the first files are numbered as the source does.
 */
module EngineLaws {
  import opened Bytes
  import opened Wrappers
  import opened Codec
  import opened CodecLaws
  import opened DataFiles
  import opened Config
  import opened Engine

  /** The active file's write offset is its length, so positions point at what was written. */
  predicate Inv(db: DB) {
    db.active.Some? ==> InSync(db.active.value)
  }

  /**
   * Every old id is below the active id and the active id can still be
   * increased without wrapping, so a rotation never reuses an id.
   */
  predicate IdsOrdered(db: DB) {
    && (db.active.None? ==> db.older == map[])
    && (db.active.Some? ==>
          && db.active.value.FileId < TWO_TO_THE_32 - 1
          && forall id | id in db.older :: id < db.active.value.FileId)
  }

  /** The record at `pos` reads without error. */
  predicate Readable(db: DB, pos: LogRecordPos) {
    FileFor(db, pos.Fid).Some? && ReadLogRecord(FileFor(db, pos.Fid).value, pos.Offset).Success?
  }

  lemma AppendKeepsInv(db: DB, r: LogRecord)
    requires Inv(db) && HeaderFits(r)
    ensures Inv(AppendLogRecord(db, r).0)
  {
  }

  /** The position an append returns reads back as the record appended. */
  lemma AppendThenRead(db: DB, r: LogRecord)
    requires Inv(db) && HeaderFits(r)
    ensures var (db', pos) := AppendLogRecord(db, r);
            && FileFor(db', pos.Fid) == db'.active
            && ReadLogRecord(db'.active.value, pos.Offset) == Success(Decoded(r, EncodeLogRecordSize(r)))
  {
    var (db', pos) := AppendLogRecord(db, r);
    var a := ActiveBeforeAppend(db);
    if Rotates(db, r) {
      DecodeEncodeAlone(r);
    } else {
      assert pos.Offset == |a.bytes|;
      DecodeEncode(a.bytes, r, []);
      assert a.bytes + EncodeLogRecord(r) + [] == db'.active.value.bytes;
    }
  }

  /** Appending leaves every readable record where it was. */
  lemma AppendKeepsRecords(db: DB, r: LogRecord, pos: LogRecordPos)
    requires IdsOrdered(db) && HeaderFits(r) && Readable(db, pos)
    ensures var db' := AppendLogRecord(db, r).0;
            Readable(db', pos) && RecordAt(db', pos) == RecordAt(db, pos)
  {
    var db' := AppendLogRecord(db, r).0;
    var f := FileFor(db, pos.Fid).value;
    var f' := FileAfterAppend(db, r, pos.Fid);
    if f'.bytes != f.bytes {
      DecodeExtend(f.bytes, EncodeLogRecord(r), pos.Offset);
    }
    SameReadSameRecord(db, db', pos);
  }

  /**
   * Where a file that existed before an append is found afterwards: the same
   * file, except that the active one may have grown by the record.
   */
  lemma FileAfterAppend(db: DB, r: LogRecord, fid: uint32) returns (f': DataFile)
    requires IdsOrdered(db) && HeaderFits(r) && FileFor(db, fid).Some?
    ensures FileFor(AppendLogRecord(db, r).0, fid) == Some(f')
    ensures var f := FileFor(db, fid).value;
            f'.bytes == f.bytes || f'.bytes == f.bytes + EncodeLogRecord(r)
  {
    var db' := AppendLogRecord(db, r).0;
    var a := db.active.value;
    if fid == a.FileId {
      f' := if Rotates(db, r) then a else db'.active.value;
    } else {
      assert fid in db.older && fid < a.FileId;
      f' := db.older[fid];
    }
  }

  /** `RecordAt` depends on the file found only through what reading it gives. */
  lemma SameReadSameRecord(db: DB, db': DB, pos: LogRecordPos)
    requires FileFor(db, pos.Fid).Some? && FileFor(db', pos.Fid).Some?
    requires ReadLogRecord(FileFor(db', pos.Fid).value, pos.Offset) == ReadLogRecord(FileFor(db, pos.Fid).value, pos.Offset)
    ensures RecordAt(db', pos) == RecordAt(db, pos)
  {
  }

  /** `Get` depends on the state only through the key's index entry and the record there. */
  lemma SameEntrySameGet(db: DB, db': DB, key: seq<byte>)
    requires key != [] && (key in db'.index <==> key in db.index)
    requires key in db.index ==> db'.index[key] == db.index[key] && RecordAt(db', db.index[key]) == RecordAt(db, db.index[key])
    ensures Get(db', key) == Get(db, key)
  {
  }

  /** A value written by `Put` is what `Get` returns. */
  lemma GetAfterPut(db: DB, key: seq<byte>, value: seq<byte>)
    requires Inv(db) && key != [] && Writable(key, value, LogRecordNormal)
    ensures Get(Put(db, key, value).db, key) == Success(value)
  {
    AppendThenRead(db, LogRecord(key, value, LogRecordNormal));
  }

  lemma PutKeepsInv(db: DB, key: seq<byte>, value: seq<byte>)
    requires Inv(db) && (key != [] ==> Writable(key, value, LogRecordNormal))
    ensures Inv(Put(db, key, value).db)
  {
    if key != [] {
      AppendKeepsInv(db, LogRecord(key, value, LogRecordNormal));
    }
  }

  /** Of two writes to the same key, the later one is read. */
  lemma LatestPutWins(db: DB, key: seq<byte>, v1: seq<byte>, v2: seq<byte>)
    requires Inv(db) && key != [] && Writable(key, v1, LogRecordNormal) && Writable(key, v2, LogRecordNormal)
    ensures Get(Put(Put(db, key, v1).db, key, v2).db, key) == Success(v2)
  {
    PutKeepsInv(db, key, v1);
    GetAfterPut(Put(db, key, v1).db, key, v2);
  }

  /** `Put` does not change what any other key reads as. */
  lemma PutKeepsOthers(db: DB, key: seq<byte>, value: seq<byte>, other: seq<byte>)
    requires IdsOrdered(db) && (key != [] ==> Writable(key, value, LogRecordNormal))
    requires other != key && (other in db.index ==> Readable(db, db.index[other]))
    ensures Get(Put(db, key, value).db, other) == Get(db, other)
  {
    if key != [] && other != [] && other in db.index {
      AppendKeepsRecords(db, LogRecord(key, value, LogRecordNormal), db.index[other]);
      SameEntrySameGet(db, Put(db, key, value).db, other);
    }
  }

  /** After `Delete`, the key reads as not found. */
  lemma GetAfterDelete(db: DB, key: seq<byte>)
    requires key != [] && (key in db.index ==> Writable(key, [], LogRecordDelete))
    ensures Get(Delete(db, key).db, key) == Failure(ReadKeyNotFound)
  {
  }

  /**
   * Deleting a present key appends a tombstone (the key with an empty value)
   * at the end of the active file.
   */
  lemma DeleteWritesTombstone(db: DB, key: seq<byte>)
    requires Inv(db) && key != [] && key in db.index && Writable(key, [], LogRecordDelete)
    ensures var (db', pos) := AppendLogRecord(db, LogRecord(key, [], LogRecordDelete));
            && Delete(db, key).db.active == db'.active
            && ReadLogRecord(db'.active.value, pos.Offset) == Success(Decoded(LogRecord(key, [], LogRecordDelete), EncodeLogRecordSize(LogRecord(key, [], LogRecordDelete))))
  {
    AppendThenRead(db, LogRecord(key, [], LogRecordDelete));
  }

  /** `Delete` does not change what any other key reads as. */
  lemma DeleteKeepsOthers(db: DB, key: seq<byte>, other: seq<byte>)
    requires IdsOrdered(db) && (key != [] && key in db.index ==> Writable(key, [], LogRecordDelete))
    requires other != key && (other in db.index ==> Readable(db, db.index[other]))
    ensures Get(Delete(db, key).db, other) == Get(db, other)
  {
    if key != [] && key in db.index && other != [] && other in db.index {
      var pos := db.index[other];
      var db1 := AppendLogRecord(db, LogRecord(key, [], LogRecordDelete)).0;
      AppendKeepsRecords(db, LogRecord(key, [], LogRecordDelete), pos);
      var db' := Delete(db, key).db;
      assert db' == db1.(index := db.index - {key});
      assert FileFor(db', pos.Fid) == FileFor(db1, pos.Fid);
      SameReadSameRecord(db1, db', pos);
      SameEntrySameGet(db, db', other);
    }
  }

  /** Without an active file, the first append opens file 1 and writes at offset 0. */
  lemma FirstAppendOpensFileOne(db: DB, r: LogRecord)
    requires db.active.None? && HeaderFits(r) && EncodeLogRecordSize(r) < db.options.FileMaxSize
    ensures AppendLogRecord(db, r).1 == LogRecordPos(1, 0)
  {
  }

  /**
   * A record that alone reaches `FileMaxSize` still gets written: the first
   * such append opens file 1, retires it empty and writes to file 2, which
   * then holds more than the limit allows.
   */
  lemma OversizeRecordRotatesAnyway(db: DB, r: LogRecord)
    requires db.active.None? && HeaderFits(r) && EncodeLogRecordSize(r) > db.options.FileMaxSize
    ensures var (db', pos) := AppendLogRecord(db, r);
            && pos == LogRecordPos(2, 0)
            && db'.older == db.older[1 := OpenDataFile(1, [])]
            && |db'.active.value.bytes| > db.options.FileMaxSize
  {
  }
}
