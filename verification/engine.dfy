/**
 * The storage engine: an optional active data file that receives appends,
 * the old read-only files by id, the index from key to record position,
 * the options and the sorted ids found at start-up.
 */
module Engine {
  import opened Bytes
  import opened Wrappers
  import opened Codec
  import opened DataFiles
  import opened BTreeIndex
  import opened BTreeIterators
  import opened KeyOrder
  import opened Utils
  import opened Config

  datatype DB = DB(
    active: Option<DataFile>,
    older: map<uint32, DataFile>,
    options: Options,
    index: Index,
    fids: seq<int>)

  /** The state after a write operation and the error it returned, if any. */
  datatype Outcome = Outcome(db: DB, err: Option<Error>)

  /** `FileId + 1` on a `uint32`. */
  function NextFid(fid: uint32): uint32 {
    (fid + 1) % TWO_TO_THE_32
  }

  /**
   * `setActivityDataFile`: open the next data file, id 1 when there is no
   * active file yet and the active id plus one otherwise. The file opened
   * is new, so it is empty.
   */
  function SetActiveDataFile(db: DB): (r: DB)
    ensures r.active.Some? && r.active.value.WriteOff == 0 && r.active.value.bytes == []
    ensures r.active.value.FileId == if db.active.None? then 1 else NextFid(db.active.value.FileId)
    ensures r.older == db.older && r.index == db.index && r.options == db.options && r.fids == db.fids
  {
    var fid: uint32 := if db.active.None? then 1 else NextFid(db.active.value.FileId);
    db.(active := Some(OpenDataFile(fid, [])))
  }

  /** The active file an append of `r` starts from: the existing one or file 1. */
  function ActiveBeforeAppend(db: DB): (f: DataFile)
  {
    if db.active.Some? then db.active.value else OpenDataFile(1, [])
  }

  /** Whether appending `r` first rotates to a new active file. */
  predicate Rotates(db: DB, r: LogRecord) {
    ActiveBeforeAppend(db).WriteOff + EncodeLogRecordSize(r) >= db.options.FileMaxSize
  }

  /**
   * `appendLogRecord`: open file 1 if there is no active file; if the
   * record would take the active file to `FileMaxSize` or beyond, keep the
   * active file among the old ones under its id and open the next one (the
   * record goes there even when it alone exceeds the limit); then write the
   * record and return its position.
   */
  function AppendLogRecord(db: DB, r: LogRecord): (res: (DB, LogRecordPos))
    requires HeaderFits(r)
    ensures var (db', pos) := res;
            var a := ActiveBeforeAppend(db);
            && db'.active.Some?
            && db'.index == db.index && db'.options == db.options && db'.fids == db.fids
            && pos.Fid == db'.active.value.FileId
            && db'.active.value.WriteOff == pos.Offset + EncodeLogRecordSize(r)
            && (if Rotates(db, r) then
                  && pos.Fid == NextFid(a.FileId)
                  && pos.Offset == 0
                  && db'.older == db.older[a.FileId := a]
                  && db'.active.value.bytes == EncodeLogRecord(r)
                else
                  && pos.Fid == a.FileId
                  && pos.Offset == a.WriteOff
                  && db'.older == db.older
                  && db'.active.value.bytes == a.bytes + EncodeLogRecord(r))
  {
    var db1 := if db.active.None? then SetActiveDataFile(db) else db;
    var a := db1.active.value;
    var size := EncodeLogRecordSize(r);
    var db2 := if a.WriteOff + size >= db.options.FileMaxSize
               then SetActiveDataFile(db1.(older := db1.older[a.FileId := a]))
               else db1;
    var (f, n) := WriteLogRecord(db2.active.value, r);
    (db2.(active := Some(f)), LogRecordPos(f.FileId, f.WriteOff - n))
  }

  /** A record of the given type that the engine's writes can encode. */
  predicate Writable(key: seq<byte>, value: seq<byte>, recordType: byte) {
    HeaderFits(LogRecord(key, value, recordType))
  }

  /**
   * `Put`: reject an empty key, append a Normal record and point the index at
   * it. The index update cannot fail, so `DBAppendFailed` is never returned.
   */
  function Put(db: DB, key: seq<byte>, value: seq<byte>): (o: Outcome)
    requires key != [] ==> Writable(key, value, LogRecordNormal)
    ensures key == [] ==> o == Outcome(db, Some(KeyIsNilOrEmpty))
    ensures key != [] ==>
              var (db1, pos) := AppendLogRecord(db, LogRecord(key, value, LogRecordNormal));
              o == Outcome(db1.(index := db.index[key := pos]), None)
  {
    if !IsValidKey(key) then Outcome(db, Some(KeyIsNilOrEmpty))
    else
      var (db1, pos) := AppendLogRecord(db, LogRecord(key, value, LogRecordNormal));
      var (idx, ok) := BTreeIndex.Put(db1.index, key, pos);
      if !ok then Outcome(db1.(index := idx), Some(DBAppendFailed))
      else Outcome(db1.(index := idx), None)
  }

  /** The file that holds records with id `fid`: the active one first, then the old ones. */
  function FileFor(db: DB, fid: uint32): (f: Option<DataFile>)
    ensures f.Some? <==> (db.active.Some? && db.active.value.FileId == fid) || fid in db.older
  {
    if db.active.Some? && db.active.value.FileId == fid then db.active
    else if fid in db.older then Some(db.older[fid])
    else None
  }

  /**
   * `getLogRecordByPosition`: the record at `pos`; a missing file, a read
   * error and a tombstone are errors.
   */
  function RecordAt(db: DB, pos: LogRecordPos): (r: Result<LogRecord, Error>)
    ensures FileFor(db, pos.Fid).None? ==> r == Failure(DataFileNotFound)
    ensures FileFor(db, pos.Fid).Some? ==>
              var read := ReadLogRecord(FileFor(db, pos.Fid).value, pos.Offset);
              && (read.Failure? ==> r == Failure(Decode(read.error)))
              && (read.Success? && read.value.record.Type == LogRecordDelete ==> r == Failure(ReadKeyNotFound))
              && (read.Success? && read.value.record.Type != LogRecordDelete ==> r == Success(read.value.record))
  {
    match FileFor(db, pos.Fid)
    case None => Failure(DataFileNotFound)
    case Some(f) =>
      match ReadLogRecord(f, pos.Offset)
      case Failure(e) => Failure(Decode(e))
      case Success(d) =>
        if d.record.Type == LogRecordDelete then Failure(ReadKeyNotFound)
        else Success(d.record)
  }

  /** `getValueByPosition`. */
  function ValueAt(db: DB, pos: LogRecordPos): (r: Result<seq<byte>, Error>)
    ensures r.Success? <==> RecordAt(db, pos).Success?
    ensures r.Success? ==> r.value == RecordAt(db, pos).value.Value
    ensures RecordAt(db, pos).Failure? ==> r == Failure(RecordAt(db, pos).error)
  {
    match RecordAt(db, pos)
    case Failure(e) => Failure(e)
    case Success(rec) => Success(rec.Value)
  }

  /** `Get`: the value stored under `key`. */
  function Get(db: DB, key: seq<byte>): (r: Result<seq<byte>, Error>)
    ensures key == [] ==> r == Failure(KeyIsNilOrEmpty)
    ensures key != [] && key !in db.index ==> r == Failure(ReadKeyNotFound)
    ensures key != [] && key in db.index ==> r == ValueAt(db, db.index[key])
  {
    if !IsValidKey(key) then Failure(KeyIsNilOrEmpty)
    else match BTreeIndex.Get(db.index, key)
      case None => Failure(ReadKeyNotFound)
      case Some(pos) => ValueAt(db, pos)
  }

  /**
   * `Delete`: reject an empty key; an absent key is not an error and writes
   * nothing; otherwise append a tombstone (empty value) and drop the key.
   */
  function Delete(db: DB, key: seq<byte>): (o: Outcome)
    requires key != [] && key in db.index ==> Writable(key, [], LogRecordDelete)
    ensures key == [] ==> o == Outcome(db, Some(KeyIsNilOrEmpty))
    ensures key != [] && key !in db.index ==> o == Outcome(db, None)
    ensures key != [] && key in db.index ==>
              && o.err.None?
              && o.db.index == db.index - {key}
              && o.db == AppendLogRecord(db, LogRecord(key, [], LogRecordDelete)).0.(index := db.index - {key})
  {
    if !IsValidKey(key) then Outcome(db, Some(KeyIsNilOrEmpty))
    else if BTreeIndex.Get(db.index, key).None? then Outcome(db, None)
    else
      var (db1, _) := AppendLogRecord(db, LogRecord(key, [], LogRecordDelete));
      var (idx, ok) := BTreeIndex.Delete(db1.index, key);
      if !ok then Outcome(db1.(index := idx), Some(IndexUpdateFailed))
      else Outcome(db1.(index := idx), None)
  }

  /** The keys of `items`, in order. */
  function KeysOf(items: seq<Item>): (keys: seq<seq<byte>>)
    ensures |keys| == |items| && forall i | 0 <= i < |items| :: keys[i] == items[i].Key
  {
    seq(|items|, i requires 0 <= i < |items| => items[i].Key)
  }

  /** Every key of the index, in strictly ascending order. */
  predicate AllKeysAscending(keys: seq<seq<byte>>, idx: Index) {
    && (forall i, j | 0 <= i < j < |keys| :: Less(keys[i], keys[j]))
    && (forall k | k in keys :: k in idx)
    && (forall k | k in idx :: k in keys)
  }

  /** `fn` returned true on the first `n` pairs. */
  predicate AllKept(fn: (seq<byte>, seq<byte>) -> bool, pairs: seq<(seq<byte>, seq<byte>)>, n: int)
    requires n <= |pairs|
  {
    forall i | 0 <= i < n :: fn(pairs[i].0, pairs[i].1)
  }

  /** `fn` returned true on the last pair, if any: the walk did not stop early there. */
  predicate LastKept(fn: (seq<byte>, seq<byte>) -> bool, pairs: seq<(seq<byte>, seq<byte>)>) {
    |pairs| == 0 || fn(pairs[|pairs| - 1].0, pairs[|pairs| - 1].1)
  }

  /**
   * `Fold`: walk the keys in ascending order (`keys`), hand each key and its
   * value to `fn`, stop after the first `false` without an error, and stop
   * with the first error met while reading a value. Returns the pairs handed
   * to `fn`.
   */
  method Fold(db: DB, fn: (seq<byte>, seq<byte>) -> bool)
    returns (visited: seq<(seq<byte>, seq<byte>)>, err: Option<Error>, ghost keys: seq<seq<byte>>)
    ensures AllKeysAscending(keys, db.index)
    ensures |visited| <= |keys|
    ensures forall i | 0 <= i < |visited| ::
              visited[i].0 == keys[i] && ValueAt(db, db.index[keys[i]]) == Success(visited[i].1)
    ensures AllKept(fn, visited, |visited| - 1)
    ensures err.Some? ==>
              && |visited| < |keys|
              && ValueAt(db, db.index[keys[|visited|]]) == Failure(err.value)
              && LastKept(fn, visited)
    ensures err.None? && LastKept(fn, visited) ==>
              |visited| == |keys|
  {
    var it := NewBTreeIterator(db.index, false);
    var items := it.items;
    it := Rewind(it);
    var read := (pos: LogRecordPos) => ValueAt(db, pos);
    keys := KeysOf(items);
    SnapshotKeys(items, db.index);
    visited, err := FoldItems(it, read, fn);
    ReadsAlongKeys(items, db.index, read, visited, err);
  }

  /** What the loop of `Fold` read for the snapshot's items, stated for the index's keys. */
  lemma ReadsAlongKeys(items: seq<Item>, idx: Index, read: LogRecordPos -> Result<seq<byte>, Error>,
                       visited: seq<(seq<byte>, seq<byte>)>, err: Option<Error>)
    requires forall i | 0 <= i < |items| :: items[i].Key in idx && idx[items[i].Key] == items[i].Pos
    requires |visited| <= |items|
    requires forall i | 0 <= i < |visited| :: visited[i].0 == items[i].Key && read(items[i].Pos) == Success(visited[i].1)
    requires err.Some? ==> |visited| < |items| && read(items[|visited|].Pos) == Failure(err.value)
    ensures forall i | 0 <= i < |visited| ::
              visited[i].0 == KeysOf(items)[i] && read(idx[KeysOf(items)[i]]) == Success(visited[i].1)
    ensures err.Some? ==> read(idx[KeysOf(items)[|visited|]]) == Failure(err.value)
  {
  }

  /**
   * The loop of `Fold` over a rewound iterator, with the value lookup as a
   * parameter: the pairs handed to `fn` are the first items of the snapshot
   * with the values `read` gave for them.
   */
  method FoldItems(it: BTreeIterator, read: LogRecordPos -> Result<seq<byte>, Error>, fn: (seq<byte>, seq<byte>) -> bool)
    returns (visited: seq<(seq<byte>, seq<byte>)>, err: Option<Error>)
    requires it.index == 0
    ensures |visited| <= |it.items|
    ensures forall i | 0 <= i < |visited| :: visited[i].0 == it.items[i].Key && read(it.items[i].Pos) == Success(visited[i].1)
    ensures AllKept(fn, visited, |visited| - 1)
    ensures err.Some? ==>
              && |visited| < |it.items|
              && read(it.items[|visited|].Pos) == Failure(err.value)
              && LastKept(fn, visited)
    ensures err.None? && LastKept(fn, visited) ==>
              |visited| == |it.items|
  {
    var cur := it;
    visited := [];
    err := None;
    while Valid(cur)
      invariant cur.items == it.items && cur.index <= |it.items| && |visited| == cur.index
      invariant forall i | 0 <= i < |visited| :: visited[i].0 == it.items[i].Key && read(it.items[i].Pos) == Success(visited[i].1)
      invariant AllKept(fn, visited, |visited|)
      decreases |it.items| - cur.index
    {
      var v := read(Value(cur));
      if v.Failure? {
        err := Some(v.error);
        return;
      }
      visited := visited + [(Key(cur), v.value)];
      if !fn(Key(cur), v.value) {
        return;
      }
      cur := Next(cur);
    }
  }

  /** The keys of an ascending snapshot list the index's keys in ascending order. */
  lemma SnapshotKeys(items: seq<Item>, idx: Index)
    requires SnapshotOf(items, idx) && Ascending(items)
    ensures AllKeysAscending(KeysOf(items), idx)
    ensures forall i | 0 <= i < |items| :: items[i].Key in idx && idx[items[i].Key] == items[i].Pos
  {
    var keys := KeysOf(items);
    forall i | 0 <= i < |items|
      ensures items[i].Key in idx && idx[items[i].Key] == items[i].Pos
    {
      assert items[i] in items;
    }
    forall k | k in idx
      ensures k in keys
    {
      var m :| 0 <= m < |items| && items[m] == Item(k, idx[k]);
      assert keys[m] == k;
    }
  }

  /** `ListKeys`: every key of the index, in ascending order. */
  method ListKeys(db: DB) returns (keys: seq<seq<byte>>)
    ensures |keys| == |db.index|
    ensures AllKeysAscending(keys, db.index)
  {
    var it := NewBTreeIterator(db.index, false);
    var items := it.items;
    it := Rewind(it);
    keys := [];
    while Valid(it)
      invariant it.items == items && it.index <= |items| && |keys| == it.index
      invariant forall i | 0 <= i < |keys| :: keys[i] == items[i].Key
      decreases |items| - it.index
    {
      keys := keys + [Key(it)];
      it := Next(it);
    }
    assert keys == KeysOf(items);
    SnapshotKeys(items, db.index);
  }
}
