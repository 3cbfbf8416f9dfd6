/**
 * What replay promises: reading a log of encoded records applies them to the
 * index in order, replaying a file after a write agrees with the write, and
 * the write offset of the active file is restored only for dense ids.
 */
module StartupLaws {
  import opened Bytes
  import opened Wrappers
  import opened Codec
  import opened CodecLaws
  import opened DataFiles
  import BTreeIndex
  import opened Utils
  import opened Config
  import opened Engine
  import opened EngineLaws
  import opened Startup

  /** Where a log of `rs` that starts at `off` ends. */
  function LogEnd(off: nat, rs: seq<LogRecord>): nat
    decreases |rs|
  {
    if rs == [] then off else LogEnd(off + EncodeLogRecordSize(rs[0]), rs[1..])
  }

  /** The index after applying `rs` in order, the first one stored at `off` of file `fid`. */
  function ApplyAll(idx: BTreeIndex.Index, fid: uint32, rs: seq<LogRecord>, off: nat): BTreeIndex.Index
    decreases |rs|
  {
    if rs == [] then idx
    else ApplyAll(ApplyRecord(idx, rs[0], LogRecordPos(fid, off)), fid, rs[1..], off + EncodeLogRecordSize(rs[0]))
  }

  /**
   * Reading with `read` from `off` on yields exactly the records `rs`, each
   * with its encoded size, and then the end of the file.
   */
  ghost predicate LogAt(read: Reader, off: nat, rs: seq<LogRecord>)
    decreases |rs|
  {
    if rs == [] then read(off) == Failure(EOF)
    else
      && read(off) == Success(Decoded(rs[0], EncodeLogRecordSize(rs[0])))
      && LogAt(read, off + EncodeLogRecordSize(rs[0]), rs[1..])
  }

  /** `g` reads every record `f` reads, at the same offset. */
  ghost predicate Extends(g: Reader, f: Reader) {
    forall o: nat :: f(o).Success? ==> g(o) == f(o)
  }

  /** A record read at `off` is applied and replay goes on after it. */
  lemma ReplayGoesOn(read: Reader, len: nat, fid: uint32, off: nat, idx: BTreeIndex.Index)
    requires ReaderOf(read, len) && read(off).Success?
    ensures var d := read(off).value;
            ReplayLog(read, len, fid, off, idx) == ReplayLog(read, len, fid, off + d.size, ApplyRecord(idx, d.record, LogRecordPos(fid, off)))
  {
  }

  /** Replay stops where a read reports the end of the file, with the index unchanged. */
  lemma ReplayStops(read: Reader, len: nat, fid: uint32, off: nat, idx: BTreeIndex.Index)
    requires ReaderOf(read, len) && read(off) == Failure(EOF)
    ensures ReplayLog(read, len, fid, off, idx) == Success((idx, off))
  {
  }

  /**
   * Replay over a log that reads as `rs` from `off` applies every record of
   * `rs`, in order and at its own offset, and stops where the log ends.
   */
  lemma {:induction false} ReplayOfRecords(read: Reader, len: nat, fid: uint32, off: nat, rs: seq<LogRecord>, idx: BTreeIndex.Index)
    requires ReaderOf(read, len) && LogAt(read, off, rs)
    ensures ReplayLog(read, len, fid, off, idx) == Success((ApplyAll(idx, fid, rs, off), LogEnd(off, rs)))
    decreases |rs|
  {
    if rs == [] {
      ReplayStops(read, len, fid, off, idx);
    } else {
      ReplayGoesOn(read, len, fid, off, idx);
      ReplayOfRecords(read, len, fid, off + EncodeLogRecordSize(rs[0]), rs[1..], ApplyRecord(idx, rs[0], LogRecordPos(fid, off)));
    }
  }

  /**
   * If replaying a log read by `f` from `off` reaches its end, replaying a
   * longer log `g` that reads the same records passes the same records and
   * continues from where `f` ended.
   */
  lemma {:induction false} ReplayExtend(f: Reader, lf: nat, g: Reader, lg: nat, fid: uint32, off: nat, idx: BTreeIndex.Index)
    requires ReaderOf(f, lf) && ReaderOf(g, lg) && Extends(g, f)
    requires ReplayLog(f, lf, fid, off, idx).Success? && ReplayLog(f, lf, fid, off, idx).value.1 == lf
    ensures ReplayLog(g, lg, fid, off, idx) == ReplayLog(g, lg, fid, lf, ReplayLog(f, lf, fid, off, idx).value.0)
    decreases lf - off
  {
    if f(off).Success? {
      var d := f(off).value;
      ReplayExtend(f, lf, g, lg, fid, off + d.size, ApplyRecord(idx, d.record, LogRecordPos(fid, off)));
    }
  }

  /** A grown file reads every record the file read before. */
  lemma FileGrows(f: DataFile, g: DataFile, more: seq<byte>)
    requires g.bytes == f.bytes + more
    ensures Extends(FileReader(g), FileReader(f))
  {
    forall o: nat | ReadLogRecord(f, o).Success?
      ensures ReadLogRecord(g, o) == ReadLogRecord(f, o)
    {
      DecodeExtend(f.bytes, more, o);
    }
  }

  /** A file that grew by the encoding of `r` reads as `[r]` from its old end. */
  lemma OneRecordLog(a: DataFile, a': DataFile, r: LogRecord)
    requires HeaderFits(r) && a'.bytes == a.bytes + EncodeLogRecord(r)
    ensures LogAt(FileReader(a'), |a.bytes|, [r])
    ensures LogEnd(|a.bytes|, [r]) == |a'.bytes|
  {
    assert a'.bytes == a.bytes + EncodeLogRecord(r) + [];
    ReadAfterWriteAt(a', a.bytes, r, []);
  }

  /**
   * Replaying a file that grew by the encoding of `r` gives what replaying
   * it before gave, with `r` applied at the old end of the file.
   */
  lemma ReplayAfterAppend(a: DataFile, a': DataFile, r: LogRecord, fid: uint32, idx0: BTreeIndex.Index, idx: BTreeIndex.Index)
    requires HeaderFits(r) && a'.bytes == a.bytes + EncodeLogRecord(r)
    requires ReplayFile(a, fid, 0, idx0) == Success((idx, |a.bytes|))
    ensures ReplayFile(a', fid, 0, idx0) == Success((ApplyRecord(idx, r, LogRecordPos(fid, |a.bytes|)), |a'.bytes|))
  {
    FileGrows(a, a', EncodeLogRecord(r));
    ReplayExtend(FileReader(a), |a.bytes|, FileReader(a'), |a'.bytes|, fid, 0, idx0);
    OneRecordLog(a, a', r);
    ReplayOfRecords(FileReader(a'), |a'.bytes|, fid, |a.bytes|, [r], idx);
  }

  /**
   * Replay agrees with `Put`: if replaying the active file gives the current
   * index, then after a `Put` that does not rotate, replaying the grown file
   * gives the index `Put` produced.
   */
  lemma ReplayAgreesWithPut(db: DB, key: seq<byte>, value: seq<byte>, idx0: BTreeIndex.Index)
    requires Inv(db) && db.active.Some? && key != [] && Writable(key, value, LogRecordNormal)
    requires !Rotates(db, LogRecord(key, value, LogRecordNormal))
    requires var a := db.active.value;
             ReplayFile(a, a.FileId, 0, idx0) == Success((db.index, |a.bytes|))
    ensures var a' := Put(db, key, value).db.active.value;
            ReplayFile(a', a'.FileId, 0, idx0) == Success((Put(db, key, value).db.index, |a'.bytes|))
  {
    var a := db.active.value;
    ReplayAfterAppend(a, Put(db, key, value).db.active.value, LogRecord(key, value, LogRecordNormal), a.FileId, idx0, db.index);
  }

  /** Replay agrees with `Delete` of a present key in the same way. */
  lemma ReplayAgreesWithDelete(db: DB, key: seq<byte>, idx0: BTreeIndex.Index)
    requires Inv(db) && db.active.Some? && key != [] && key in db.index && Writable(key, [], LogRecordDelete)
    requires !Rotates(db, LogRecord(key, [], LogRecordDelete))
    requires var a := db.active.value;
             ReplayFile(a, a.FileId, 0, idx0) == Success((db.index, |a.bytes|))
    ensures var a' := Delete(db, key).db.active.value;
            ReplayFile(a', a'.FileId, 0, idx0) == Success((Delete(db, key).db.index, |a'.bytes|))
  {
    var a := db.active.value;
    ReplayAfterAppend(a, Delete(db, key).db.active.value, LogRecord(key, [], LogRecordDelete), a.FileId, idx0, db.index);
  }

  /** The name of data file `n`: its number in decimal, then the suffix. */
  function DataFileName(n: nat): (name: string)
    ensures IsDataFileName(name)
  {
    DecimalDigits(n) + DataFileSuffix
  }

  lemma {:induction false} BeforeFirstDotOfDigits(s: string, t: string)
    requires AllDigits(s)
    ensures BeforeFirstDot(s + "." + t) == s
    decreases |s|
  {
    if s != [] {
      assert (s + "." + t)[1..] == s[1..] + "." + t;
      BeforeFirstDotOfDigits(s[1..], t);
    }
  }

  /** The name of data file `n` parses back to `n`. */
  lemma ParseDataFileName(n: nat)
    requires n <= MaxInt64
    ensures ParseFileIds([DataFileName(n)]) == Success([n as int])
  {
    var name := DataFileName(n);
    DataFileNumber(n);
    assert [name][1..] == [] && ParseFileIds([]) == Success([]);
    assert [n as int] + [] == [n as int];
    assert ParseFileIds([name]) == Success([n as int]);
  }

  /** The number in the name of data file `n` is `n`. */
  lemma DataFileNumber(n: nat)
    requires n <= MaxInt64
    ensures FileNumber(DataFileName(n)) == Some(n)
  {
    var digits := DecimalDigits(n);
    assert DataFileName(n) == digits + "." + "data";
    BeforeFirstDotOfDigits(digits, "data");
    AtoiOfDigits(n);
  }

  /** Replaying a file that holds exactly one record applies that record at offset 0. */
  lemma ReplayOneRecordFile(f: DataFile, fid: uint32, r: LogRecord)
    requires HeaderFits(r) && f.bytes == EncodeLogRecord(r)
    ensures ReplayFile(f, fid, 0, map[]) == Success((ApplyRecord(map[], r, LogRecordPos(fid, 0)), |f.bytes|))
  {
    var empty := DataFile(f.FileId, 0, []);
    ReplayStops(FileReader(empty), 0, fid, 0, map[]);
    assert f.bytes == empty.bytes + EncodeLogRecord(r);
    ReplayAfterAppend(empty, f, r, fid, map[], map[]);
  }

  /** The files `loadDataFiles` opens for a directory holding only data file `n`. */
  lemma LoadOneFile(options: Options, n: uint32, bytes: seq<byte>)
    ensures LoadDataFiles(options, [DataFileName(n as nat)], map[n := bytes])
            == Success(DB(Some(OpenDataFile(n, bytes)), map[], options, map[], [n as int]))
  {
    ParseDataFileName(n as nat);
    assert SortInts([n as int]) == InsertInt(n as int, []) == [n as int];
    assert OldIds([n as int]) == {};
  }

  /**
   * Opening a directory that holds only data file `n`, one record long: the
   * file becomes the active one and the index points the record's key at
   * offset 0. The write offset is restored to the file's length only when
   * `n` is 1, the number of data files; otherwise it stays 0.
   */
  lemma StartWithOneFile(options: Options, n: uint32, r: LogRecord)
    requires CheckOptions(options).None? && HeaderFits(r)
    ensures var res := Start(options, [DataFileName(n as nat)], map[n := EncodeLogRecord(r)]);
            && res.Success?
            && res.value.fids == [n as int]
            && res.value.older == map[]
            && res.value.index == ApplyRecord(map[], r, LogRecordPos(n, 0))
            && res.value.active == Some(DataFile(n, if n == 1 then EncodeLogRecordSize(r) else 0, EncodeLogRecord(r)))
  {
    var f := OpenDataFile(n, EncodeLogRecord(r));
    var db0 := DB(Some(f), map[], options, map[], [n as int]);
    LoadOneFile(options, n, EncodeLogRecord(r));
    ReplayOneRecordFile(f, n, r);
    var db1 := SetWriteOff(db0.(index := ApplyRecord(map[], r, LogRecordPos(n, 0))), 0, |f.bytes|);
    assert ReplayFrom(db0, 0) == ReplayFrom(db1, 1);
  }

  /**
   * The stale write offset misplaces later writes: after opening a directory
   * whose only data file is `n` >= 2, a `Put` is indexed at offset 0 of the
   * active file, where the record found at start-up lies, so `Get` returns
   * that record's value rather than the one just written.
   */
  lemma StaleWriteOffShadowsPut(options: Options, n: uint32, r: LogRecord, key: seq<byte>, value: seq<byte>)
    requires CheckOptions(options).None? && 2 <= n && HeaderFits(r) && r.Type == LogRecordNormal
    requires key != [] && Writable(key, value, LogRecordNormal)
    requires EncodeLogRecordSize(LogRecord(key, value, LogRecordNormal)) < options.FileMaxSize
    ensures var res := Start(options, [DataFileName(n as nat)], map[n := EncodeLogRecord(r)]);
            && res.Success?
            && Get(Put(res.value, key, value).db, key) == Success(r.Value)
  {
    StartWithOneFile(options, n, r);
    PutOverStaleOffset(Start(options, [DataFileName(n as nat)], map[n := EncodeLogRecord(r)]).value, r, key, value);
  }

  /**
   * A `Put` into an active file whose write offset is 0 while it already
   * holds record `r` is indexed at offset 0, so `Get` finds `r` there.
   */
  lemma PutOverStaleOffset(db: DB, r: LogRecord, key: seq<byte>, value: seq<byte>)
    requires HeaderFits(r) && r.Type == LogRecordNormal
    requires db.active.Some? && db.active.value.WriteOff == 0 && db.active.value.bytes == EncodeLogRecord(r)
    requires key != [] && Writable(key, value, LogRecordNormal)
    requires EncodeLogRecordSize(LogRecord(key, value, LogRecordNormal)) < db.options.FileMaxSize
    ensures Get(Put(db, key, value).db, key) == Success(r.Value)
  {
    var rec := LogRecord(key, value, LogRecordNormal);
    var db' := Put(db, key, value).db;
    assert !Rotates(db, rec);
    assert db'.index[key] == LogRecordPos(db.active.value.FileId, 0);
    assert db'.active.value.bytes == EncodeLogRecord(r) + EncodeLogRecord(rec);
    DecodeEncodeAlone(r);
    DecodeExtend(EncodeLogRecord(r), EncodeLogRecord(rec), 0);
  }

  /**
   * Reading with `read` from `off` on yields the records `rs`, each with its
   * encoded size; what follows them is left open.
   */
  ghost predicate RecordsAt(read: Reader, off: nat, rs: seq<LogRecord>)
    decreases |rs|
  {
    rs == [] ||
    (&& read(off) == Success(Decoded(rs[0], EncodeLogRecordSize(rs[0])))
     && RecordsAt(read, off + EncodeLogRecordSize(rs[0]), rs[1..]))
  }

  /**
   * Replay reports damage: over a log that reads as `rs` from `off` and then
   * gives an error other than end of file, replay fails with that error.
   */
  lemma {:induction false} ReplayReportsDamage(read: Reader, len: nat, fid: uint32, off: nat, rs: seq<LogRecord>, idx: BTreeIndex.Index)
    requires ReaderOf(read, len) && RecordsAt(read, off, rs)
    requires read(LogEnd(off, rs)).Failure? && read(LogEnd(off, rs)).error != EOF
    ensures ReplayLog(read, len, fid, off, idx) == Failure(Decode(read(LogEnd(off, rs)).error))
    decreases |rs|
  {
    if rs != [] {
      ReplayGoesOn(read, len, fid, off, idx);
      ReplayReportsDamage(read, len, fid, off + EncodeLogRecordSize(rs[0]), rs[1..], ApplyRecord(idx, rs[0], LogRecordPos(fid, off)));
    }
  }

  /** Two readers that agree everywhere read the same log. */
  lemma {:induction false} LogAtSameReads(f: Reader, g: Reader, off: nat, rs: seq<LogRecord>)
    requires (forall o: nat :: g(o) == f(o)) && LogAt(f, off, rs)
    ensures LogAt(g, off, rs)
    decreases |rs|
  {
    if rs != [] {
      LogAtSameReads(f, g, off + EncodeLogRecordSize(rs[0]), rs[1..]);
    }
  }

  /** Two files with the same bytes read alike, whatever their ids and write offsets. */
  lemma SameBytesSameReads(f: DataFile, g: DataFile)
    requires f.bytes == g.bytes
    ensures forall o: nat :: FileReader(g)(o) == FileReader(f)(o)
  {
    forall o: nat
      ensures FileReader(g)(o) == FileReader(f)(o)
    {
      assert ReadLogRecord(g, o) == DecodeLogRecord(g.bytes, o);
      assert ReadLogRecord(f, o) == DecodeLogRecord(f.bytes, o);
    }
  }

  /** From the `i`-th id on, the file replayed for id `j` reads from offset 0 as exactly `rss[j]`. */
  ghost predicate FilesReadAs(db: DB, i: nat, rss: seq<seq<LogRecord>>)
    requires Loaded(db)
  {
    && |rss| == |db.fids|
    && forall j | i <= j < |db.fids| :: LogAt(FileReader(FileToReplay(db, j)), 0, rss[j])
  }

  /**
   * The index after replaying, from the `i`-th id on and in that order, the
   * files that read as `rss`, each from offset 0 under its id's low 32 bits.
   */
  function ApplyFiles(idx: BTreeIndex.Index, fids: seq<int>, rss: seq<seq<LogRecord>>, i: nat): BTreeIndex.Index
    requires |rss| == |fids|
    decreases |fids| - i
  {
    if i >= |fids| then idx
    else ApplyFiles(ApplyAll(idx, Trunc32(fids[i]), rss[i], 0), fids, rss, i + 1)
  }

  /** One step of the outer replay loop over a file that reads as `rs`. */
  lemma ReplayFromStep(db: DB, i: nat, rs: seq<LogRecord>)
    requires Loaded(db) && i < |db.fids| && LogAt(FileReader(FileToReplay(db, i)), 0, rs)
    ensures var fid := Trunc32(db.fids[i]);
            ReplayFrom(db, i) == ReplayFrom(SetWriteOff(db.(index := ApplyAll(db.index, fid, rs, 0)), i, LogEnd(0, rs)), i + 1)
  {
    var f := FileToReplay(db, i);
    ReplayOfRecords(FileReader(f), |f.bytes|, Trunc32(db.fids[i]), 0, rs, db.index);
  }

  /** Setting a write offset keeps every file's bytes, so the files read as they did. */
  lemma FilesStillReadAs(db: DB, i: nat, offset: nat, k: nat, rss: seq<seq<LogRecord>>)
    requires Loaded(db) && i < |db.fids| && FilesReadAs(db, k, rss)
    ensures FilesReadAs(SetWriteOff(db, i, offset), k, rss)
  {
    var db' := SetWriteOff(db, i, offset);
    forall j | k <= j < |db.fids|
      ensures LogAt(FileReader(FileToReplay(db', j)), 0, rss[j])
    {
      SameBytesSameReads(FileToReplay(db, j), FileToReplay(db', j));
      LogAtSameReads(FileReader(FileToReplay(db, j)), FileReader(FileToReplay(db', j)), 0, rss[j]);
    }
  }

  /**
   * Start-up replays every file from offset 0 to its end, in ascending order
   * of id position, into one index: when the files from the `i`-th id on read
   * as `rss`, replay succeeds with the index those records give in that order.
   */
  lemma {:induction false} ReplayFromOfLogs(db: DB, i: nat, rss: seq<seq<LogRecord>>)
    requires Loaded(db) && i <= |db.fids| && FilesReadAs(db, i, rss)
    ensures ReplayFrom(db, i).Success?
    ensures ReplayFrom(db, i).value.index == ApplyFiles(db.index, db.fids, rss, i)
    decreases |db.fids| - i
  {
    if i < |db.fids| {
      var fid := Trunc32(db.fids[i]);
      var db0 := db.(index := ApplyAll(db.index, fid, rss[i], 0));
      ReplayFromStep(db, i, rss[i]);
      IndexOnlyStep(db, db0, i + 1, rss);
      FilesStillReadAs(db0, i, LogEnd(0, rss[i]), i + 1, rss);
      ReplayFromOfLogs(SetWriteOff(db0, i, LogEnd(0, rss[i])), i + 1, rss);
    }
  }

  /**
   * One step of the outer replay loop when it succeeds: the file replays to
   * some index and offset, and the loop goes on from the next id.
   */
  lemma ReplayFromGoesOn(db: DB, k: nat) returns (idx: BTreeIndex.Index, off: nat)
    requires Loaded(db) && k < |db.fids| && ReplayFrom(db, k).Success?
    ensures ReplayFile(FileToReplay(db, k), Trunc32(db.fids[k]), 0, db.index) == Success((idx, off))
    ensures ReplayFrom(db, k) == ReplayFrom(SetWriteOff(db.(index := idx), k, off), k + 1)
  {
    var step := ReplayFile(FileToReplay(db, k), Trunc32(db.fids[k]), 0, db.index);
    idx, off := step.value.0, step.value.1;
  }

  /** Replay from the `k`-th id on leaves alone every file that no later id names. */
  lemma {:induction false} ReplayFromKeepsFile(db: DB, k: nat, j: nat)
    requires Loaded(db) && k <= |db.fids| && j < |db.fids|
    requires forall m | k <= m < |db.fids| :: !SameFile(db.fids, j, m)
    requires ReplayFrom(db, k).Success?
    ensures FileToReplay(ReplayFrom(db, k).value, j) == FileToReplay(db, j)
    decreases |db.fids| - k
  {
    if k < |db.fids| {
      var idx, off := ReplayFromGoesOn(db, k);
      assert !SameFile(db.fids, j, k);
      SetWriteOffKeepsOther(db, idx, k, off, j);
      ReplayFromKeepsFile(SetWriteOff(db.(index := idx), k, off), k + 1, j);
    }
  }

  /** Setting the `k`-th file's write offset leaves every file that id `k` does not name. */
  lemma SetWriteOffKeepsOther(db: DB, idx: BTreeIndex.Index, k: nat, off: nat, j: nat)
    requires Loaded(db) && k < |db.fids| && j < |db.fids| && !SameFile(db.fids, j, k)
    ensures var db1 := SetWriteOff(db.(index := idx), k, off);
            db1.fids == db.fids && FileToReplay(db1, j) == FileToReplay(db, j)
  {
    assert !SameFile(db.fids, k, j);
    assert FileToReplay(db.(index := idx), j) == FileToReplay(db, j);
  }

  /**
   * The write offset replay leaves on the file of the `j`-th id, when that
   * file reads as `rss[j]`: where its records end if the id equals the number
   * of data files, and the offset it was opened with otherwise.
   */
  function RestoredWriteOff(db: DB, rss: seq<seq<LogRecord>>, j: nat): nat
    requires Loaded(db) && |rss| == |db.fids| && j < |db.fids|
  {
    if db.fids[j] == |db.fids| then LogEnd(0, rss[j]) else FileToReplay(db, j).WriteOff
  }

  /**
   * The write offset replay leaves on each file, for ids that name distinct
   * files: see `RestoredWriteOff`.
   */
  lemma {:induction false} ReplayFromRestoresWriteOff(db: DB, i: nat, rss: seq<seq<LogRecord>>)
    requires Loaded(db) && i <= |db.fids| && FilesReadAs(db, i, rss)
    requires forall j, k | i <= j < k < |db.fids| :: !SameFile(db.fids, j, k)
    ensures ReplayFrom(db, i).Success?
    ensures forall j | i <= j < |db.fids| ::
              FileToReplay(ReplayFrom(db, i).value, j) == FileToReplay(db, j).(WriteOff := RestoredWriteOff(db, rss, j))
    decreases |db.fids| - i
  {
    if i < |db.fids| {
      var fid := Trunc32(db.fids[i]);
      var db0 := db.(index := ApplyAll(db.index, fid, rss[i], 0));
      var db1 := SetWriteOff(db0, i, LogEnd(0, rss[i]));
      ReplayFromStep(db, i, rss[i]);
      IndexOnlyStep(db, db0, i + 1, rss);
      FilesStillReadAs(db0, i, LogEnd(0, rss[i]), i + 1, rss);
      ReplayFromRestoresWriteOff(db1, i + 1, rss);
      assert forall m | i + 1 <= m < |db1.fids| :: !SameFile(db1.fids, i, m);
      ReplayFromKeepsFile(db1, i + 1, i);
      WriteOffAfterStep(db, db0, db1, ReplayFrom(db1, i + 1).value, i, rss);
    }
  }

  /**
   * The inductive step of `ReplayFromRestoresWriteOff`: the `i`-th file got
   * its offset from `SetWriteOff` and keeps it, and every later file got
   * its offset from the rest of the loop.
   */
  lemma WriteOffAfterStep(db: DB, db0: DB, db1: DB, r: DB, i: nat, rss: seq<seq<LogRecord>>)
    requires Loaded(db) && i < |db.fids| && |rss| == |db.fids| && db0 == db.(index := db0.index)
    requires db1 == SetWriteOff(db0, i, LogEnd(0, rss[i]))
    requires forall j, k | i <= j < k < |db.fids| :: !SameFile(db.fids, j, k)
    requires Loaded(r) && r.fids == db.fids && FileToReplay(r, i) == FileToReplay(db1, i)
    requires forall j | i + 1 <= j < |db.fids| :: FileToReplay(r, j) == FileToReplay(db1, j).(WriteOff := RestoredWriteOff(db1, rss, j))
    ensures forall j | i <= j < |db.fids| :: FileToReplay(r, j) == FileToReplay(db, j).(WriteOff := RestoredWriteOff(db, rss, j))
  {
    forall j | i <= j < |db.fids|
      ensures FileToReplay(r, j) == FileToReplay(db, j).(WriteOff := RestoredWriteOff(db, rss, j))
    {
      assert FileToReplay(db0, j) == FileToReplay(db, j);
      if j > i {
        assert !SameFile(db.fids, i, j);
        assert FileToReplay(db1, j) == FileToReplay(db0, j);
      }
    }
  }

  /** Changing only the index keeps every file, so the files read as they did. */
  lemma IndexOnlyStep(db: DB, db0: DB, k: nat, rss: seq<seq<LogRecord>>)
    requires Loaded(db) && FilesReadAs(db, k, rss) && db0 == db.(index := db0.index)
    ensures Loaded(db0) && FilesReadAs(db0, k, rss)
    ensures forall j | 0 <= j < |db.fids| :: FileToReplay(db0, j) == FileToReplay(db, j)
  {
  }

  /** Once the options pass and the names parse, start-up is the replay of the loaded files. */
  lemma StartIsReplay(options: Options, names: seq<string>, contents: map<uint32, seq<byte>>)
    requires CheckOptions(options).None? && ParseFileIds(names).Success?
    ensures LoadDataFiles(options, names, contents).Success?
    ensures Start(options, names, contents) == ReplayFrom(LoadDataFiles(options, names, contents).value, 0)
  {
  }

  /**
   * Rebuilding the index of freshly loaded files that read as `rss`: it
   * succeeds with every file's records applied in ascending id order to the
   * empty index. When the ids name distinct files, the file whose id equals
   * the number of data files gets the offset where its records end as its
   * write offset, and every other file keeps write offset 0.
   */
  lemma {:induction false} LoadIndexReplaysFiles(db: DB, rss: seq<seq<LogRecord>>)
    requires Loaded(db) && db.index == map[] && FilesReadAs(db, 0, rss)
    requires forall j | 0 <= j < |db.fids| :: FileToReplay(db, j).WriteOff == 0
    ensures LoadIndexFromDataFiles(db).Success?
    ensures LoadIndexFromDataFiles(db).value.index == ApplyFiles(map[], db.fids, rss, 0)
    ensures (forall j, k | 0 <= j < k < |db.fids| :: !SameFile(db.fids, j, k)) ==>
              forall j | 0 <= j < |db.fids| ::
                FileToReplay(LoadIndexFromDataFiles(db).value, j)
                == FileToReplay(db, j).(WriteOff := if db.fids[j] == |db.fids| then LogEnd(0, rss[j]) else 0)
  {
    ReplayFromOfLogs(db, 0, rss);
    if forall j, k | 0 <= j < k < |db.fids| :: !SameFile(db.fids, j, k) {
      ReplayFromRestoresWriteOff(db, 0, rss);
    }
  }

  /**
   * Start-up over files that read as `rss`: it succeeds, and its index is
   * every file's records applied in ascending id order, starting from the
   * empty index. When the ids name distinct files, the file whose id equals
   * the number of data files gets the offset where its records end as its
   * write offset, and every other file keeps write offset 0.
   */
  lemma StartReplaysFiles(options: Options, names: seq<string>, contents: map<uint32, seq<byte>>, rss: seq<seq<LogRecord>>)
    requires CheckOptions(options).None? && ParseFileIds(names).Success?
    requires FilesReadAs(LoadDataFiles(options, names, contents).value, 0, rss)
    ensures var db := LoadDataFiles(options, names, contents).value;
            && Start(options, names, contents).Success?
            && Start(options, names, contents).value.index == ApplyFiles(map[], db.fids, rss, 0)
            && ((forall j, k | 0 <= j < k < |db.fids| :: !SameFile(db.fids, j, k)) ==>
                forall j | 0 <= j < |db.fids| ::
                  FileToReplay(Start(options, names, contents).value, j)
                  == FileToReplay(db, j).(WriteOff := if db.fids[j] == |db.fids| then LogEnd(0, rss[j]) else 0))
  {
    var db := LoadDataFiles(options, names, contents).value;
    StartIsReplay(options, names, contents);
    LoadedFilesStartAtZero(db, options, names, contents);
    LoadIndexReplaysFiles(db, rss);
  }

  /** Every file `loadDataFiles` opens starts at write offset 0. */
  lemma LoadedFilesStartAtZero(db: DB, options: Options, names: seq<string>, contents: map<uint32, seq<byte>>)
    requires LoadDataFiles(options, names, contents) == Success(db)
    ensures Loaded(db) && db.index == map[]
    ensures forall j | 0 <= j < |db.fids| :: FileToReplay(db, j).WriteOff == 0
  {
  }
}
