# bitcask-go storage engine, modelled in Dafny

This project models the storage engine of bitcask-go, a Bitcask key-value store.
Data files are byte sequences. The in-memory B-tree index is a map from keys to
record positions. The database state is an immutable record. It holds:

- an optional active data file;
- the older data files by id;
- the options;
- the index;
- the sorted data-file ids.

The model has five parts:

- **The log-record codec** (`codec.dfy`, `varint.dfy`, `crc32.dfy`). A record is
  laid out as: crc (4 bytes, little-endian), type byte, ZigZag varint of the
  key length, ZigZag varint of the value length, key, value. The checksum is
  CRC-32 with the reflected IEEE polynomial `0xEDB88320`. It is defined as
  Go's byte-wise table update with pre- and post-inversion, and it covers
  every byte after the crc field. Decoding reads a header window of at most
  15 bytes. It checks the checksum in three pieces: header, key, value.
  `codec_laws.dfy` proves the round trip, the integrity check and stability
  under appends.
- **Data files** (`data_file.dfy`). A data file is `{FileId, WriteOff, bytes}`.
  Writing appends the encoding and advances `WriteOff`. Reading decodes at an
  offset.
- **The index and its iterator** (`key_order.dfy`, `btree_index.dfy`,
  `btree_iterator.dfy`). Keys are ordered byte-lexicographically, as
  `bytes.Compare` orders them. The iterator is a sorted snapshot plus a
  position. `Seek` is modelled as written: it lands on the last matching item.
- **The engine** (`engine.dfy`, `engine_laws.dfy`, `config.dfy`). This part
  covers:
  - `Put`, `Get` and `Delete`;
  - append with rotation at `FileMaxSize`;
  - file lookup by id;
  - `Fold` and `ListKeys` over an ascending snapshot;
  - the option check.
- **Start-up** (`startup.dfy`, `startup_laws.dfy`). It takes the directory
  listing, parses and sorts the data-file ids, opens the files, and replays
  each file from offset 0 to end of file to rebuild the index.
  - Replay is defined over a *reader*: a function from offsets to what reading
    a record there gives. `FileReader` is the reader of a data file. The replay
    laws are proved for any reader that behaves like a file of a given length,
    then applied to data files.
  - The write offset is restored only for the file whose id equals the number
    of data files. `StartWithOneFile` and `StaleWriteOffShadowsPut` show what
    that means for a directory whose only data file is not file 1.

Errors use one datatype, `Config.Error`, with the values from `errors.go`.
`Decode` wraps what reading a record reported:

- `EOF`: end of file, or a key or value that runs past it;
- `Damaged`: a checksum mismatch;
- `Malformed`: a header the Go code does not check.

## Model

| member | source | states |
|---|---|---|
| Varints.ZigZagRoundTrip | data/binary_codec.go:44-45 | The ZigZag mapping that `binary.PutVarint` applies to a signed length is undone by the decoder's inverse mapping. |
| Varints.PutVarint | data/binary_codec.go:44-45 | The bytes written form a varint chain: every byte but the last has the high bit set. The chain is a single byte exactly for values -64 to 63. |
| Varints.Varint | data/binary_codec.go:111-115 | A varint that decodes consumes at least one byte and no more than it was given. |
| Varints.PutUvarintLength | data/binary_codec.go:33-45 | An unsigned varint takes at most `k` bytes exactly when the value is below 128^k. |
| Varints.VarintRoundTrip | data/binary_codec.go:110-115 | `binary.Varint` reads back what `binary.PutVarint` wrote, whatever follows it, and reports the number of bytes it wrote. |
| Varints.VarintExtend | data/binary_codec.go:110-115 | A varint that decodes keeps decoding to the same value and length when bytes are appended after it. |
| Crc32.UpdateChain | data/binary_codec.go:143-147 | Updating a CRC with `a` and then with `b` equals updating it once with `a ++ b`. |
| Crc32.ChecksumInPieces | data/binary_codec.go:143-147 | Checksumming the header tail and then updating with the key and then the value gives the checksum of all three concatenated. This is the chunked check at decode agreeing with the single checksum at encode. |
| Crc32.CheckValue | data/binary_codec.go:56 | The checksum of the ASCII digits "123456789" is 0xCBF43926, the standard check value of CRC-32/IEEE. |
| Codec.LittleEndianRoundTrip | data/binary_codec.go:106 | `binary.LittleEndian.Uint32` reads back the four bytes `PutUint32` wrote, whatever follows. |
| Codec.EncodeLogRecord | data/binary_codec.go:69-81 | The encoding is exactly `EncodeLogRecordSize(r)` bytes long. The size is computed separately, from the varint lengths and the key and value lengths. |
| Codec.EncodeLogRecordEncodes | data/binary_codec.go:37-57 | The encoding satisfies the full layout: checksum, type, both varints, key and value, each at its place. |
| Codec.EncodingChecksum | data/binary_codec.go:55-57 | Bytes 0..3 of an encoding are the little-endian CRC-32 of every byte from index 4 on. |
| Codec.EncodingFields | data/binary_codec.go:38-53 | Byte 4 is the type, followed by varint(len key), varint(len value), then the key and the value. |
| Codec.HeaderWindow | data/binary_codec.go:91-95 | Decoding never reads more header than 15 bytes and never past the end of the file. |
| Codec.ParseHeader | data/binary_codec.go:106-115 | A header that parses is at least 5 bytes and lies within the bytes read. |
| Codec.ReadHeader | data/binary_codec.go:91-99 | At the end of the file the header read reports EOF; a header read lies within the file and is 5 to 15 bytes long. |
| Codec.IncrementalCrcCheck | data/binary_codec.go:143-148 | `checkLogRecordCRC` holds exactly when updating the header-tail checksum with the key and then the value gives the stored crc. |
| Codec.DecodeLogRecord | data/binary_codec.go:84-140 | Decoding at the end of the file reports EOF. A decoded record is at least 5 bytes and ends within the file. |
| Codec.ReadKeyValue | data/binary_codec.go:117-139 | A key and value that read end within the file, and the record spans at least the 5 bytes of the minimum header. |
| CodecLaws.HeaderSizeBound | data/binary_codec.go:15-16 | If key and value lengths are below 2^34, each varint is at most 5 bytes and the header fits in `LogRecordHeaderMaxSize` = 15. |
| CodecLaws.LongValueFits | data/binary_codec.go:38-45 | A key shorter than 64 bytes and a value of 2^34 to 2^41 bytes take one and six varint bytes, so the header still fits in 15 bytes. |
| CodecLaws.BothLongOverflow | data/binary_codec.go:38-45 | A key and a value both of 2^34 bytes or more take at least six varint bytes each, so the header does not fit in 15 bytes. |
| CodecLaws.HelloWorldSize | data/data_file_test.go:40-43 | Key "hello", value "world", type Normal encodes to 17 bytes. |
| CodecLaws.ParseHeaderOfEncoding | data/binary_codec.go:106-115 | Parsing the header of an encoding gives the stored crc, the type, both lengths and the header length. |
| CodecLaws.ReadHeaderOfEncoding | data/binary_codec.go:91-115 | Reading the header of a record encoded at `|pre|` in `pre ++ e ++ post` gives that header, whatever surrounds it. |
| CodecLaws.DecodeEncoded | data/binary_codec.go:84-139 | Any byte string with the record layout decodes at its offset to the record, with size equal to its length. |
| CodecLaws.DecodeEncode | data/binary_codec.go:84-139 | Round trip: decoding `pre ++ Encode(r) ++ post` at `|pre|` returns `r` (type, key and value) with consumed size `|Encode(r)|`. This covers an empty value and a record at the end of the file. |
| CodecLaws.DecodeEncodeAlone | data/binary_codec.go:91-139 | A file holding exactly one encoded record decodes at offset 0 to that record, with size equal to the file's length. |
| CodecLaws.DecodeAfterHeader | data/binary_codec.go:117-139 | Once the header reads, decoding is reading the key and the value at the offsets the header gives. |
| CodecLaws.ReadKeyValueIntegrity | data/binary_codec.go:117-139 | Key and value lie within the file. Reading them succeeds exactly when the stored crc equals the CRC-32 of the record's bytes after the crc field; otherwise it reports `Damaged`. |
| CodecLaws.DecodeChecksIntegrity | data/binary_codec.go:136-138 | A header reads and the record lies within the file. Decoding succeeds exactly when the stored crc matches the recomputed one; otherwise it reports the data as damaged. |
| CodecLaws.ReadHeaderExtend | data/binary_codec.go:91-115 | A header that reads keeps reading the same when the file grows. |
| CodecLaws.DecodeExtend | data/binary_codec.go:84-139 | A record that decodes keeps decoding the same when bytes are appended to the file. |
| CodecLaws.DecodeAtEnd | data/binary_codec.go:97-99 | Decoding at offset == file size reports EOF. |
| DataFiles.WriteLogRecord | db.go:121-124 | Writing returns `EncodeLogRecordSize(r)`. `WriteOff` and the file length grow by exactly that. The id is kept. |
| DataFiles.ReadLogRecord | data/codec.go:12 | Reading at the end of a file reports EOF and reading past it reports a malformed read. A record read is at least 5 bytes and ends within the file. |
| DataFiles.ReadAfterWrite | data/codec.go:8-13 | The record just written reads back at the old end of the file, with the size the write reported. |
| DataFiles.ReadAfterWriteAt | data/codec.go:8-13 | A record encoded at `|pre|` in a file reads back there, whatever follows it. |
| DataFiles.ReadStableUnderWrite | db.go:121-124 | Writing never changes what a readable offset of the file reads. |
| KeyOrder.CompareZero | index/item.go:14-16 | `bytes.Compare` gives 0 exactly when the keys are equal. |
| KeyOrder.CompareFlip | index/item.go:14-16 | Swapping the arguments of `bytes.Compare` negates the result. |
| KeyOrder.LessIsLexLess | index/item.go:14-16 | `Less(a, b)` holds exactly when `a` is a proper prefix of `b` or differs first at a smaller unsigned byte. |
| KeyOrder.LessIrreflexive | index/item.go:14-16 | No key is less than itself. |
| KeyOrder.LessAsymmetric | index/item.go:14-16 | `Less(a, b)` and `Less(b, a)` never both hold. |
| KeyOrder.LessTotal | index/item.go:14-16 | For distinct keys exactly one of `Less(a, b)` and `Less(b, a)` holds. |
| KeyOrder.LessTransitive | index/item.go:14-16 | `Less` is transitive. |
| KeyOrder.PrefixLess | index/item.go:14-16 | A proper prefix is less than its extension. |
| KeyOrder.EmptyKeyFirst | index/btree_test.go:12 | The empty key (nil and empty are the same key) is less than exactly the non-empty keys. |
| BTreeIndex.Put | index/btree.go:21-30 | `Put` always reports true. It maps the key to the new position, replacing any earlier one, and leaves every other key as it was. |
| BTreeIndex.Get | index/btree.go:32-41 | `Get` returns nothing exactly when the key is absent, and otherwise the stored position. |
| BTreeIndex.Delete | index/btree.go:43-53 | `Delete` reports true exactly when the key was present. Afterwards the key is absent and the other entries are unchanged. |
| BTreeIndex.IsExist | index/btree.go:56-61 | `IsExist` is `Get(k) != nil`. |
| BTreeIndex.GetAfterPut | index/btree.go:21-41 | After `Put(k, p)`, `Get(k)` is `p` and `Get` of every other key is unchanged. |
| BTreeIndex.GetAfterDelete | index/btree.go:32-53 | After `Delete(k)`, `Get(k)` is nil and `Get` of every other key is unchanged. |
| BTreeIterators.Insert | index/btree.go:85-91 | Inserting a new key into a strictly ascending item list keeps it strictly ascending and adds exactly that item. |
| BTreeIterators.Reverse | index/btree.go:92-94 | The descending walk lists the items in reverse order. |
| BTreeIterators.ReverseSnapshot | index/btree.go:90-94 | The reversed snapshot holds the same pairs and is strictly descending. |
| BTreeIterators.NewBTreeIterator | index/btree.go:78-96 | The snapshot holds every (key, position) pair of the index exactly once. It is strictly ascending for `reverse = false` and strictly descending for `reverse = true`, and the position starts at 0. |
| BTreeIterators.Rewind | index/btree.go:98-100 | `Rewind` sets the position to 0 and keeps the snapshot. |
| BTreeIterators.Next | index/btree.go:118-120 | `Next` advances the position by one and keeps the snapshot. |
| BTreeIterators.Close | index/btree.go:134-136 | After `Close` the iterator is not valid. |
| BTreeIterators.WalkVisitsInOrder | index/btree.go:118-132 | After `n` calls of `Next` from a rewound iterator, `Valid` holds exactly when `n < len(items)`. `Key` and `Value` are then those of item `n`. |
| BTreeIterators.WalkYieldsIndex | index/btree.go:122-132 | While the iterator over an index's snapshot is valid, `Key` is a key of the index and `Value` is its position. |
| BTreeIterators.WalkReachesIndex | index/btree.go:118-132 | Every key of the index is reached by some number of `Next` calls, with `Value` giving its position. |
| BTreeIterators.Seek | index/btree.go:102-116 | If some item matches (ascending: key >= k; reverse: key < k), the position becomes the largest matching index. Otherwise it is unchanged. |
| BTreeIterators.SeekMatchesAreSuffix | index/btree.go:102-116 | On a sorted snapshot the matching items form a suffix, so a match anywhere means the last item matches and `Seek` lands on the last item. |
| BTreeIterators.SeekLandsOnLastNotFirst | index/btree.go:102-108 | With items [1] and [2] and key [1], both items match ascending, so `Seek` does not stop at the first match. |
| Config.CheckOptions | db.go:215-225 | An empty directory path is rejected with `ErrDBDirEmpty`, a zero `FileMaxSize` with `ErrDBFileMaxSize`, and everything else is accepted. |
| Engine.SetActiveDataFile | db.go:142-154 | The first active file has id 1. A new active file has the old id + 1, is empty and starts at offset 0; nothing else changes. |
| Engine.AppendLogRecord | db.go:90-138 | The position returned is the active id and the offset before the write, and `WriteOff` grows by exactly the encoded size. If `WriteOff + size >= FileMaxSize`, the old active file is stored under its own id, the next id is opened, and the record goes there at offset 0. At most one rotation happens. |
| Engine.Put | db.go:61-87 | An empty key returns `ErrKeyIsNilOrEmpty` and changes nothing. Otherwise the record is appended, the key is indexed at the returned position, and no error is returned. The index update cannot fail, so the `ErrDBAppendFailed` branch is unreachable. Write errors are not modelled (see Left out). |
| Engine.FileFor | db.go:183-191 | A file is found exactly when the id is the active one or among the old files. |
| Engine.RecordAt | db.go:178-204 | A missing file gives `ErrDataFileNotFound`, a read error is passed on, a tombstone gives `ErrReadKeyNotFound`, and otherwise the record is returned. |
| Engine.ValueAt | db.go:206-212 | Resolving a position succeeds exactly when reading the record there does, and then gives that record's value. Otherwise it returns the same error as the read. |
| Engine.Get | db.go:157-174 | An empty key gives `ErrKeyIsNilOrEmpty`, a key missing from the index gives `ErrReadKeyNotFound`, and otherwise the result is the value at the indexed position. |
| Engine.Delete | db.go:313-340 | An empty key gives `ErrKeyIsNilOrEmpty`. An absent key returns nil and appends nothing. A present key gets a tombstone appended and is removed from the index. |
| Engine.FoldItems | db.go:368-377 | The loop hands `fn` the first items of the snapshot with their values. It stops after the first `false`, or at the first read error, which it returns. |
| Engine.Fold | db.go:365-379 | `Fold` visits the index's keys in ascending order with their values. It stops without error when `fn` returns false, returns the first resolution error, and otherwise visits every key. |
| Engine.ListKeys | db.go:382-388 | `ListKeys` returns every index key once, in strictly ascending order. |
| EngineLaws.AppendKeepsInv | db.go:121-136 | Appending keeps the active file's `WriteOff` equal to its length. |
| EngineLaws.AppendThenRead | db.go:121-136 | If the active file's `WriteOff` equals its length, the position an append returns reads back, in the active file, as the record appended. |
| EngineLaws.AppendKeepsRecords | db.go:104-124 | Appending, with or without rotation, leaves every readable record readable and unchanged. |
| EngineLaws.GetAfterPut | db.go:61-87 | If the active file's `WriteOff` equals its length, then after `Put(k, v)` with a non-empty key, `Get(k)` returns `v`. |
| EngineLaws.PutKeepsInv | db.go:61-87 | If the active file's `WriteOff` equals its length before `Put`, it still does afterwards. |
| EngineLaws.LatestPutWins | db.go:61-87 | If the active file's `WriteOff` equals its length, then of two `Put`s to the same non-empty key, `Get` returns the later value. |
| EngineLaws.PutKeepsOthers | db.go:61-87 | `Put` does not change what another key reads as, provided that key's indexed record is readable and the old ids are below the active one. |
| EngineLaws.GetAfterDelete | db.go:313-340 | After `Delete(k)` for a non-empty key, `Get(k)` gives `ErrReadKeyNotFound`. |
| EngineLaws.DeleteWritesTombstone | db.go:324-333 | If the active file's `WriteOff` equals its length, deleting a present key appends a Delete-type record with the key and an empty value, which reads back at its position. |
| EngineLaws.DeleteKeepsOthers | db.go:313-340 | `Delete` does not change what another key reads as, provided that key's indexed record is readable and the old ids are below the active one. |
| EngineLaws.FirstAppendOpensFileOne | db.go:95-99 | Without an active file, the first append opens file 1 and writes at offset 0. |
| EngineLaws.OversizeRecordRotatesAnyway | db.go:104-122 | A record larger than `FileMaxSize` is still written. File 1 is retired empty and the record goes into file 2, which then exceeds the limit. |
| Utils.IsValidKey | utils/util.go:14-19 | A key is valid exactly when it is not nil or empty. |
| Utils.DecimalRoundTrip | utils/util.go:21-23 | The decimal digits of `n` denote `n`. |
| Utils.GetTestKey | utils/util.go:21-23 | For 0 <= i < 10^9, the key is "bitcask-go-" followed by nine digits denoting `i`, 20 bytes in all. |
| Utils.TestKeyOne | utils/util_test.go:10 | `GetTestKey(1)` is "bitcask-go-000000001". |
| Utils.TestKeyFortyNine | utils/util_test.go:13 | `GetTestKey(49)` is "bitcask-go-000000049". |
| Utils.Atoi | db.go:239 | `strconv.Atoi` succeeds only on a non-empty digit string whose value fits in an `int`, and returns that value. |
| Utils.AtoiOfDigits | db.go:239 | Every number up to the largest `int` parses back from its digits. |
| Utils.BeforeFirstDot | db.go:239 | `strings.Split(s, ".")[0]` is the longest dot-free prefix of `s`. |
| Startup.Trunc32 | db.go:254 | `uint32(fid)` keeps an id that fits in 32 bits. |
| Startup.DataFileNames | db.go:236-238 | The names kept are exactly the directory entries with the data-file suffix. |
| Startup.ParseFileIds | db.go:234-246 | Parsing fails with `ErrDataFileDamaged` exactly when some data-file name has an unparsable number. Otherwise it returns one id per data file, in directory order. |
| Startup.SortInts | db.go:249 | `sort.Ints` returns the same ids (as a multiset) in ascending order. |
| Startup.ActiveFile | db.go:253-260 | The file with the largest id becomes the active file; there is none when there are no ids. |
| Startup.OldFiles | db.go:253-263 | Every other id is opened as an old file under its own id. |
| Startup.LoadDataFiles | db.go:228-265 | An unparsable name gives `ErrDataFileDamaged`. Otherwise the ids are the parsed ones, sorted; the largest is active and the rest are old files. |
| Startup.ApplyRecord | db.go:294-299 | A Normal record puts its key at the position, a Delete record removes its key, and any other type leaves the index alone. |
| Startup.FileReader | db.go:280 | Reading a data file behaves as a log of its length: a record read is non-empty and ends within the file. |
| Startup.ReplayLog | db.go:278-303 | Replay stops at an offset within the log. Reading end of file at the start offset returns the index unchanged at that offset. Any other read error at the start offset is returned, and replay fails only with such an error. |
| Startup.ReplayFile | db.go:278-303 | Replaying a data file from its end returns the index unchanged. Reading a record that fails other than by end of file returns that error. Success stops within the file. |
| Startup.SetWriteOff | db.go:304-307 | The write offset of the file replayed is set to the offset reached exactly when its id equals the number of data files. Files that are not the same file are unchanged, and no file changes in anything but its write offset. |
| Startup.ReplayFrom | db.go:270-309 | Replay keeps the files loaded and the ids and options unchanged. It fails only with a read error other than end of file. |
| Startup.LoadIndexFromDataFiles | db.go:268-310 | Rebuilding the index keeps the loaded files, the ids and the options. |
| Startup.Start | db.go:26-58 | Bad options are reported first. Then an unparsable data-file name gives `ErrDataFileDamaged`. A successful start keeps the options. |
| StartupLaws.ReplayReportsDamage | db.go:279-287 | If a log reads as records and then gives an error other than end of file, replay fails with that error. |
| StartupLaws.ReplayFromOfLogs | db.go:270-303 | If every file from the `i`-th id on reads as a record list, the outer replay succeeds. The index is the records applied file by file in ascending id order, each file under its id's low 32 bits. |
| StartupLaws.ReplayFromKeepsFile | db.go:270-309 | Replaying the ids from `k` on leaves a file unchanged when none of those ids names the same file. |
| StartupLaws.ReplayFromRestoresWriteOff | db.go:304-307 | For ids naming distinct files, replay sets each file's write offset to the end of its records when its id equals the number of data files. Every other file keeps its write offset. |
| StartupLaws.LoadedFilesStartAtZero | db.go:249-263 | Loading the files gives an empty index, and every file starts at write offset 0. |
| StartupLaws.LoadIndexReplaysFiles | db.go:268-310 | Starting from an empty index and offsets 0, rebuilding gives every file's records applied in ascending id order. For distinct files, the file whose id equals the number of data files ends at the end of its records and the others stay at 0. |
| StartupLaws.StartIsReplay | db.go:26-58 | With valid options and parsable names, `Start` loads the files and then replays them from the first id. |
| StartupLaws.StartReplaysFiles | db.go:26-58 | With valid options, parsable names and files that read as record lists, `Start` succeeds. Its index is every file's records applied in ascending id order, and the write offsets are restored as in `LoadIndexReplaysFiles`. |
| StartupLaws.ReplayOfRecords | db.go:279-303 | Over a log that reads as records `rs` from `off`, replay applies every record in order, each at its own offset: a Normal one puts, a Delete one removes. Each step advances the offset by the record's size, and replay stops at the end of the log. |
| StartupLaws.ReplayExtend | db.go:279-303 | If replay of a log reaches its end, replay of any longer log with the same records passes them identically and continues from that end. |
| StartupLaws.FileGrows | db.go:121-124 | A grown file reads every record the shorter file read, at the same offset. |
| StartupLaws.OneRecordLog | db.go:121-124 | A file grown by one encoded record reads, from its old end, as exactly that record and then end of file. |
| StartupLaws.ReplayAfterAppend | db.go:279-303 | Replaying a file grown by one record gives the earlier replay with that record applied at the old end of the file. |
| StartupLaws.ReplayAgreesWithPut | db.go:289-296 | If the active file's `WriteOff` equals its length, then after a `Put` that does not rotate, replaying the grown active file gives the index `Put` produced, if the file replayed to the index before. |
| StartupLaws.ReplayAgreesWithDelete | db.go:297-299 | If the active file's `WriteOff` equals its length, the same holds for `Delete` of a present key: replaying the tombstone removes the key as `Delete` did. |
| StartupLaws.ParseDataFileName | db.go:236-246 | The name `<n>.data` of a lone data file parses to the id list `[n]`. |
| StartupLaws.DataFileNumber | db.go:239 | The number in the name `<n>.data` is `n`. |
| StartupLaws.ReplayOneRecordFile | db.go:278-303 | Replaying a file holding one record applies it at offset 0 and stops at the file's end. |
| StartupLaws.LoadOneFile | db.go:249-263 | A directory holding only data file `n` loads it as the active file with no old files and ids `[n]`. |
| StartupLaws.StartWithOneFile | db.go:304-307 | With only data file `n` holding one record, start-up indexes the record at offset 0. The active `WriteOff` is the file's length when `n` is 1, and stays 0 otherwise. |
| StartupLaws.PutOverStaleOffset | db.go:133-136 | If the active file holds a record but `WriteOff` is 0, the next `Put` is indexed at offset 0, where `Get` finds the old record. |
| StartupLaws.StaleWriteOffShadowsPut | db.go:304-307 | After starting on a directory whose only data file is `n >= 2`, a `Put` followed by `Get` of the same key returns the value of the record found at start-up, not the value just written. |

## Left out

- File I/O is not modelled: `os.Stat`, `MkdirAll`, `ioutil.ReadDir`, the `fio` package, `Sync` and `Close`. The directory listing is a parameter of `Start` (a list of names), and file contents are a map from id to bytes. An id missing from the map is a new, empty file.
- Locking (`sync.RWMutex`) is not modelled; the model is sequential.
- `utils.RandomValue` depends on a global random source, and `example/` is a demo program.
- `index/btree/` is a stale, ill-typed duplicate of `index/btree.go`. `data/log_record.go` and `index/index.go` disagree with how `db.go` and the codec use their types. The model follows `db.go` and `data/binary_codec.go`.
- `data/data_file.go` holds stubs only. `DataFiles.WriteLogRecord` and `DataFiles.ReadLogRecord` follow the codec interface in `data/codec.go` instead. `OpenDataFile` takes the file's bytes as a parameter.
- The numeric values of `LogRecordNormal` (1) and `LogRecordDelete` (0), and the data-file suffix `".data"`, are not in the source files this model follows. The proofs use only the fact that the two types differ.
- Headers the Go code does not check decode to `Malformed` instead of panicking or reading garbage. These are a header shorter than 5 bytes, a varint error, a negative length, and an offset past the end. `Put`, `Delete` and the append require `HeaderFits`: the two length varints together take at most 10 bytes. These are the records for which Go's `PutVarint` into the 15-byte header stays in bounds. Go would panic on the others. Lengths below 2^34 always fit (`CodecLaws.HeaderSizeBound`). A longer value still fits next to a short key (`CodecLaws.LongValueFits`), but a key and a value that both reach 2^34 do not (`CodecLaws.BothLongOverflow`).
- `DataFiles.WriteLogRecord`: `WriteOff` is an unbounded `nat`, so the 64-bit wrap of `WriteOff + size` and of the offset arithmetic in replay is not modelled. A wrap would need a file of 2^64 bytes.
- `Utils.Atoi` accepts unsigned digit strings only. A sign, which `strconv.Atoi` would accept, makes the name unparsable here.
- `Engine.AppendLogRecord`: the error returns of `appendLogRecord` (db.go:96-98, 108-110, 116-118, 122-124, 128-130) are not modelled: opening a data file, `Sync` and the write cannot fail here. As a result `Put` and `Delete` never report an I/O error. The file a rotation opens is taken to be new and empty; reopening an existing file of that id is not modelled.
- `EngineLaws.AppendKeepsRecords`, `EngineLaws.PutKeepsOthers`, `EngineLaws.DeleteKeepsOthers`: these assume every old id is below the active id (`IdsOrdered`). Id wrap-around at 2^32 could otherwise overwrite an old file in the map.
- `Crc32.CheckValue` is a check of the CRC definition against the published CRC-32/IEEE check value, not a statement of the source.
- `Startup.ReplayFile`: replay from an offset past the end of the file reports `Malformed`, where Go's behaviour depends on the file layer.
- `StartupLaws.ReplayFromRestoresWriteOff`, `StartupLaws.LoadIndexReplaysFiles`, `StartupLaws.StartReplaysFiles`: the write-offset clause is stated only for ids that name distinct files. Two names with the same number (`1.data` and `01.data`) or ids equal modulo 2^32 share a file, and the write offset then depends on which replay wrote last.
- `StartupLaws.ReplayFromOfLogs`, `StartupLaws.StartReplaysFiles`: these assume every file reads as a list of records up to end of file. A file with a damaged record fails replay instead (`StartupLaws.ReplayReportsDamage`).
- `StartupLaws.ReplayOfRecords` states multi-record replay over a reader that reads as the record list. The link from file bytes to a reader is made one record at a time (`StartupLaws.OneRecordLog`, `StartupLaws.ReplayAfterAppend`). A lemma that a concatenation of encodings reads as its record list is not included.
- Rotation for `StartupLaws.ReplayAgreesWithPut` and `StartupLaws.ReplayAgreesWithDelete` is excluded by a precondition. After a rotation the record goes into a new file, which replays on its own.
