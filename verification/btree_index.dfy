/**
 * The in-memory index: a B-tree of items ordered by key. As a value it is a
 * finite map from key to record position; the tree's balancing is not
 * observable through its operations.
 */
module BTreeIndex {
  import opened Bytes
  import opened Wrappers
  import opened DataFiles

  type Index = map<seq<byte>, LogRecordPos>

  /** `Btree.Put`: insert or replace; always reports success. */
  function Put(idx: Index, key: seq<byte>, pos: LogRecordPos): (res: (Index, bool))
    ensures res.1
    ensures key in res.0 && res.0[key] == pos
    ensures res.0.Keys == idx.Keys + {key}
    ensures forall k | k in idx && k != key :: res.0[k] == idx[k]
  {
    (idx[key := pos], true)
  }

  /** `Btree.Get`: the position stored under `key`, or nothing. */
  function Get(idx: Index, key: seq<byte>): (r: Option<LogRecordPos>)
    ensures r.None? <==> key !in idx
    ensures r.Some? ==> key in idx && idx[key] == r.value
  {
    if key in idx then Some(idx[key]) else None
  }

  /** `Btree.Delete`: remove `key`; reports whether it was there. */
  function Delete(idx: Index, key: seq<byte>): (res: (Index, bool))
    ensures res.1 <==> key in idx
    ensures res.0.Keys == idx.Keys - {key}
    ensures forall k | k in res.0 :: res.0[k] == idx[k]
  {
    (idx - {key}, key in idx)
  }

  /** `Btree.IsExist`. */
  function IsExist(idx: Index, key: seq<byte>): (b: bool)
    ensures b <==> Get(idx, key).Some?
  {
    key in idx
  }

  /** After `Put(k, p)`, `Get(k)` is `p` and every other key reads as before. */
  lemma GetAfterPut(idx: Index, key: seq<byte>, pos: LogRecordPos, other: seq<byte>)
    ensures Get(Put(idx, key, pos).0, key) == Some(pos)
    ensures other != key ==> Get(Put(idx, key, pos).0, other) == Get(idx, other)
  {
  }

  /** After `Delete(k)`, `Get(k)` is nothing and every other key reads as before. */
  lemma GetAfterDelete(idx: Index, key: seq<byte>, other: seq<byte>)
    ensures Get(Delete(idx, key).0, key) == None
    ensures other != key ==> Get(Delete(idx, key).0, other) == Get(idx, other)
  {
  }
}
