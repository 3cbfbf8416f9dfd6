/** The engine's errors and its configuration. */
module Config {
  import opened Wrappers
  import opened Codec

  /**
   * The error values of the engine. `Decode` carries what reading a record
   * reported: end of file, a checksum mismatch (the codec's own "data file is
   * damaged" error, a value distinct from `DataFileDamaged`) or a malformed header.
   */
  datatype Error =
    | KeyIsNilOrEmpty
    | DBAppendFailed
    | IndexUpdateFailed
    | ReadKeyNotFound
    | DataFileNotFound
    | DBDirEmpty
    | DBFileMaxSize
    | DataFileDamaged
    | Decode(cause: CodecError)

  /** When to flush: after every write is the only policy. */
  datatype SyncPolicy = Always

  /** The index kinds; the B-tree is the only one. */
  datatype IndexType = BTree

  datatype Options = Options(DBFileDir: string, FileMaxSize: nat, DBSync: SyncPolicy, DBIndex: IndexType)

  /**
   * `checkOptions`: an empty directory path is reported first, then a
   * maximum file size of zero; otherwise the options are accepted.
   */
  function CheckOptions(o: Options): (err: Option<Error>)
    ensures err.None? <==> o.DBFileDir != "" && o.FileMaxSize > 0
    ensures err == Some(DBDirEmpty) <==> o.DBFileDir == ""
    ensures err == Some(DBFileMaxSize) <==> o.DBFileDir != "" && o.FileMaxSize == 0
  {
    if o.DBFileDir == "" then Some(DBDirEmpty)
    else if o.FileMaxSize <= 0 then Some(DBFileMaxSize)
    else None
  }
}
