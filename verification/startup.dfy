/**
 * Opening a database: check the options, find the data files among the
 * directory's entries, open them in id order (the largest id becomes the
 * active file) and rebuild the index by replaying every file from its start.
 */
module Startup {
  import opened Bytes
  import opened Wrappers
  import opened Codec
  import opened DataFiles
  import opened BTreeIndex
  import opened Utils
  import opened Config
  import opened Engine

  /** Go's `uint32(fid)` on an `int`: the low 32 bits, two's complement. */
  function Trunc32(x: int): (r: uint32)
    ensures 0 <= x < TWO_TO_THE_32 ==> r == x
  {
    x % TWO_TO_THE_32
  }

  predicate IsDataFileName(name: string) {
    HasSuffix(name, DataFileSuffix)
  }

  /** The entries of `names` that are data files, in order. */
  function DataFileNames(names: seq<string>): (r: seq<string>)
    ensures forall n | n in r :: IsDataFileName(n)
    ensures forall n | n in names && IsDataFileName(n) :: n in r
    ensures forall n | n in r :: n in names
  {
    if names == [] then []
    else if IsDataFileName(names[0]) then [names[0]] + DataFileNames(names[1..])
    else DataFileNames(names[1..])
  }

  /** The number a data file's name carries: its text before the first dot. */
  function FileNumber(name: string): Option<nat> {
    Atoi(BeforeFirstDot(name))
  }

  /**
   * The first loop of `loadDataFiles`: the numbers of the data files in
   * directory order; a data file whose number does not parse is reported as
   * damaged.
   */
  function ParseFileIds(names: seq<string>): (r: Result<seq<int>, Error>)
    ensures r.Failure? ==> r.error == DataFileDamaged
    ensures r.Success? <==> forall n | n in names && IsDataFileName(n) :: FileNumber(n).Some?
    ensures r.Success? ==>
              && |r.value| == |DataFileNames(names)|
              && forall i | 0 <= i < |r.value| :: FileNumber(DataFileNames(names)[i]) == Some(r.value[i])
  {
    if names == [] then Success([])
    else
      var rest := ParseFileIds(names[1..]);
      assert forall n | n in names[1..] :: n in names;
      if !IsDataFileName(names[0]) then rest
      else match FileNumber(names[0])
        case None => Failure(DataFileDamaged)
        case Some(id) =>
          if rest.Failure? then rest
          else
            NumbersOfNames(names[0], id, DataFileNames(names[1..]), rest.value);
            Success([id as int] + rest.value)
  }

  /** Numbering one more name in front keeps names and numbers paired. */
  lemma NumbersOfNames(name: string, id: int, names: seq<string>, ids: seq<int>)
    requires FileNumber(name) == Some(id)
    requires |ids| == |names| && forall i | 0 <= i < |ids| :: FileNumber(names[i]) == Some(ids[i])
    ensures forall i | 0 <= i < |ids| + 1 :: FileNumber(([name] + names)[i]) == Some(([id] + ids)[i])
  {
  }

  predicate SortedInts(xs: seq<int>) {
    forall i, j | 0 <= i < j < |xs| :: xs[i] <= xs[j]
  }

  /** Insert `x` into a sorted sequence. */
  function InsertInt(x: int, xs: seq<int>): (r: seq<int>)
    requires SortedInts(xs)
    ensures SortedInts(r) && multiset(r) == multiset(xs) + multiset{x}
    ensures r[0] == x || r[0] == xs[0]
  {
    if xs == [] || x <= xs[0] then
      PrependSorted(x, xs);
      [x] + xs
    else
      var rest := InsertInt(x, xs[1..]);
      InsertStep(x, xs, rest);
      [xs[0]] + rest
  }

  lemma PrependSorted(a: int, xs: seq<int>)
    requires SortedInts(xs) && (xs != [] ==> a <= xs[0])
    ensures SortedInts([a] + xs)
  {
  }

  /** Putting back the smaller head in front of `x` inserted into the tail. */
  lemma InsertStep(x: int, xs: seq<int>, rest: seq<int>)
    requires SortedInts(xs) && xs != [] && xs[0] < x
    requires SortedInts(rest) && multiset(rest) == multiset(xs[1..]) + multiset{x}
    requires |rest| > 0 && (rest[0] == x || (|xs| > 1 && rest[0] == xs[1]))
    ensures SortedInts([xs[0]] + rest) && multiset([xs[0]] + rest) == multiset(xs) + multiset{x}
  {
    assert xs == [xs[0]] + xs[1..];
    PrependSorted(xs[0], rest);
  }

  /** `sort.Ints`: the same numbers in ascending order. */
  function SortInts(xs: seq<int>): (r: seq<int>)
    ensures SortedInts(r) && multiset(r) == multiset(xs)
  {
    if xs == [] then []
    else
      assert xs == [xs[0]] + xs[1..];
      InsertInt(xs[0], SortInts(xs[1..]))
  }

  /** What a data file holds on disk; one that does not exist is created empty. */
  function Contents(contents: map<uint32, seq<byte>>, fid: uint32): seq<byte> {
    if fid in contents then contents[fid] else []
  }

  /** The ids of every file but the last in `fids`. */
  function OldIds(fids: seq<int>): set<uint32> {
    set i | 0 <= i < |fids| - 1 :: Trunc32(fids[i])
  }

  /** What `loadIndexFromDataFiles` relies on: a file for every id it visits. */
  predicate Loaded(db: DB) {
    && (|db.fids| > 0 ==> db.active.Some?)
    && forall i | 0 <= i < |db.fids| - 1 :: Trunc32(db.fids[i]) in db.older
  }

  /** The active file for sorted ids: the one with the largest id, if any. */
  function ActiveFile(fids: seq<int>, contents: map<uint32, seq<byte>>): (f: Option<DataFile>)
    ensures f.None? <==> |fids| == 0
    ensures f.Some? ==>
              var last := Trunc32(fids[|fids| - 1]);
              f.value == OpenDataFile(last, Contents(contents, last))
  {
    if |fids| == 0 then None
    else
      var last := Trunc32(fids[|fids| - 1]);
      Some(OpenDataFile(last, Contents(contents, last)))
  }

  /** The old files for sorted ids: every one but the last, by id. */
  function OldFiles(fids: seq<int>, contents: map<uint32, seq<byte>>): (older: map<uint32, DataFile>)
    ensures older.Keys == OldIds(fids)
    ensures forall i | 0 <= i < |fids| - 1 :: Trunc32(fids[i]) in older
    ensures forall fid | fid in older :: older[fid] == OpenDataFile(fid, Contents(contents, fid))
  {
    assert forall i | 0 <= i < |fids| - 1 :: Trunc32(fids[i]) in OldIds(fids);
    map fid | fid in OldIds(fids) :: OpenDataFile(fid, Contents(contents, fid))
  }

  /**
   * `loadDataFiles`: parse the ids, sort them, open the file with the largest
   * id as the active one and the others as old files.
   */
  function LoadDataFiles(options: Options, names: seq<string>, contents: map<uint32, seq<byte>>): (r: Result<DB, Error>)
    ensures r.Failure? <==> ParseFileIds(names).Failure?
    ensures r.Failure? ==> r.error == DataFileDamaged
    ensures r.Success? ==>
              && Loaded(r.value)
              && r.value.options == options && r.value.index == map[]
              && SortedInts(r.value.fids) && multiset(r.value.fids) == multiset(ParseFileIds(names).value)
              && r.value.active == ActiveFile(r.value.fids, contents)
              && r.value.older == OldFiles(r.value.fids, contents)
  {
    match ParseFileIds(names)
    case Failure(e) => Failure(e)
    case Success(ids) =>
      var fids := SortInts(ids);
      Success(DB(ActiveFile(fids, contents), OldFiles(fids, contents), options, map[], fids))
  }

  /** The index after one record read back at `pos`: a Normal record is put, a tombstone deleted. */
  function ApplyRecord(idx: Index, r: LogRecord, pos: LogRecordPos): (idx': Index)
    ensures r.Type == LogRecordNormal ==> idx' == idx[r.Key := pos]
    ensures r.Type == LogRecordDelete ==> idx' == idx - {r.Key}
    ensures r.Type != LogRecordNormal && r.Type != LogRecordDelete ==> idx' == idx
  {
    if r.Type == LogRecordNormal then BTreeIndex.Put(idx, r.Key, pos).0
    else if r.Type == LogRecordDelete then BTreeIndex.Delete(idx, r.Key).0
    else idx
  }

  /** What reading a log at each offset gives. */
  type Reader = nat -> Result<Decoded, CodecError>

  /**
   * `read` behaves as the reads of a file of `len` bytes: a record read at
   * `o` is not empty and ends within the file, and end of file is reported
   * only at offsets up to `len`.
   */
  ghost predicate ReaderOf(read: Reader, len: nat) {
    forall o: nat ::
      && (read(o).Success? ==> 0 < read(o).value.size && o + read(o).value.size <= len)
      && (read(o) == Failure(EOF) ==> o <= len)
  }

  /** The positioned reads of data file `f`. */
  function FileReader(f: DataFile): (read: Reader)
    ensures ReaderOf(read, |f.bytes|)
    ensures forall o: nat :: read(o) == ReadLogRecord(f, o)
  {
    (o: nat) => ReadLogRecord(f, o)
  }

  /**
   * The inner loop of `loadIndexFromDataFiles` over a log read by `read`:
   * read records from `offset` on, applying each to the index, until a read
   * reports end of file; any other read error ends the start-up. Returns the
   * index and the offset where reading stopped.
   */
  function ReplayLog(read: Reader, len: nat, fid: uint32, offset: nat, idx: Index): (r: Result<(Index, nat), Error>)
    requires ReaderOf(read, len)
    ensures r.Success? ==> offset <= r.value.1 <= len
    ensures r.Failure? ==> r.error.Decode? && r.error.cause != EOF
    ensures read(offset) == Failure(EOF) ==> r == Success((idx, offset))
    ensures read(offset).Failure? && read(offset).error != EOF ==> r == Failure(Decode(read(offset).error))
    decreases len - offset
  {
    match read(offset)
    case Failure(e) => if e == EOF then Success((idx, offset)) else Failure(Decode(e))
    case Success(d) => ReplayLog(read, len, fid, offset + d.size, ApplyRecord(idx, d.record, LogRecordPos(fid, offset)))
  }

  /** Replay of data file `f`, whose records are filed under id `fid`, from `offset`. */
  function ReplayFile(f: DataFile, fid: uint32, offset: nat, idx: Index): (r: Result<(Index, nat), Error>)
    ensures r.Success? ==> offset <= r.value.1 <= |f.bytes|
    ensures r.Failure? ==> r.error.Decode? && r.error.cause != EOF
    ensures offset == |f.bytes| ==> r == Success((idx, offset))
    ensures ReadLogRecord(f, offset).Failure? && ReadLogRecord(f, offset).error != EOF ==>
              r == Failure(Decode(ReadLogRecord(f, offset).error))
  {
    ReplayLog(FileReader(f), |f.bytes|, fid, offset, idx)
  }

  /** The file `loadIndexFromDataFiles` reads for the `i`-th id. */
  function FileToReplay(db: DB, i: nat): DataFile
    requires Loaded(db) && i < |db.fids|
  {
    if i != |db.fids| - 1 then db.older[Trunc32(db.fids[i])] else db.active.value
  }

  /**
   * Positions `i` and `j` of `fids` name the same file: the last id names the
   * active file, every other id the old file stored under its low 32 bits.
   */
  predicate SameFile(fids: seq<int>, i: nat, j: nat)
    requires i < |fids| && j < |fids|
  {
    i == j || (i != |fids| - 1 && j != |fids| - 1 && Trunc32(fids[i]) == Trunc32(fids[j]))
  }

  /**
   * Record where reading the `i`-th file stopped as its write offset; the
   * source does so only when the id equals the number of data files.
   */
  function SetWriteOff(db: DB, i: nat, offset: nat): (r: DB)
    requires Loaded(db) && i < |db.fids|
    ensures Loaded(r) && r.fids == db.fids && r.index == db.index && r.options == db.options
    ensures r.older.Keys == db.older.Keys
    ensures db.fids[i] != |db.fids| ==> r == db
    ensures db.fids[i] == |db.fids| ==> FileToReplay(r, i) == FileToReplay(db, i).(WriteOff := offset)
    ensures forall j | 0 <= j < |db.fids| && !SameFile(db.fids, i, j) :: FileToReplay(r, j) == FileToReplay(db, j)
    ensures forall j | 0 <= j < |db.fids| ::
              FileToReplay(r, j) == FileToReplay(db, j).(WriteOff := FileToReplay(r, j).WriteOff)
  {
    if db.fids[i] != |db.fids| then db
    else if i != |db.fids| - 1 then
      var fid := Trunc32(db.fids[i]);
      db.(older := db.older[fid := db.older[fid].(WriteOff := offset)])
    else db.(active := Some(db.active.value.(WriteOff := offset)))
  }

  /** The outer loop of `loadIndexFromDataFiles`, from the `i`-th id on. */
  function ReplayFrom(db: DB, i: nat): (r: Result<DB, Error>)
    requires Loaded(db) && i <= |db.fids|
    ensures r.Success? ==> Loaded(r.value) && r.value.fids == db.fids && r.value.options == db.options
    ensures r.Failure? ==> r.error.Decode? && r.error.cause != EOF
    decreases |db.fids| - i
  {
    if i == |db.fids| then Success(db)
    else
      var f := FileToReplay(db, i);
      match ReplayFile(f, Trunc32(db.fids[i]), 0, db.index)
      case Failure(e) => Failure(e)
      case Success((idx, offset)) =>
        ReplayFrom(SetWriteOff(db.(index := idx), i, offset), i + 1)
  }

  /** `loadIndexFromDataFiles`. */
  function LoadIndexFromDataFiles(db: DB): (r: Result<DB, Error>)
    requires Loaded(db)
    ensures r.Success? ==> Loaded(r.value) && r.value.fids == db.fids && r.value.options == db.options
  {
    ReplayFrom(db, 0)
  }

  /**
   * `Start`: the options' check, then the data files named in `names` (the
   * directory listing, in its order) with the bytes in `contents`, then the
   * index.
   */
  function Start(options: Options, names: seq<string>, contents: map<uint32, seq<byte>>): (r: Result<DB, Error>)
    ensures CheckOptions(options).Some? ==> r == Failure(CheckOptions(options).value)
    ensures CheckOptions(options).None? && ParseFileIds(names).Failure? ==> r == Failure(DataFileDamaged)
    ensures r.Success? ==> Loaded(r.value) && r.value.options == options
  {
    match CheckOptions(options)
    case Some(e) => Failure(e)
    case None =>
      match LoadDataFiles(options, names, contents)
      case Failure(e) => Failure(e)
      case Success(db) => LoadIndexFromDataFiles(db)
  }
}
