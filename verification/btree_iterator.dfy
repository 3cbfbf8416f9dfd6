/**
 * The index iterator: a snapshot of the items taken in key order (or in
 * reverse key order) when the iterator is created, and a cursor into it.
 */
module BTreeIterators {
  import opened Bytes
  import opened Wrappers
  import opened DataFiles
  import opened KeyOrder
  import opened BTreeIndex

  datatype Item = Item(Key: seq<byte>, Pos: LogRecordPos)

  datatype BTreeIterator = BTreeIterator(reverse: bool, index: nat, items: seq<Item>)

  /** Keys strictly increase along the sequence. */
  predicate Ascending(items: seq<Item>) {
    forall i, j | 0 <= i < j < |items| :: Less(items[i].Key, items[j].Key)
  }

  /** Keys strictly decrease along the sequence. */
  predicate Descending(items: seq<Item>) {
    forall i, j | 0 <= i < j < |items| :: Less(items[j].Key, items[i].Key)
  }

  /** The items are exactly the index's entries. */
  predicate SnapshotOf(items: seq<Item>, idx: Index) {
    && (forall it | it in items :: it.Key in idx && idx[it.Key] == it.Pos)
    && (forall k | k in idx :: Item(k, idx[k]) in items)
  }

  /** An item that is below the first item of an ascending sequence is below all of them. */
  lemma BelowFirst(x: Item, items: seq<Item>)
    requires Ascending(items) && |items| > 0 && Less(x.Key, items[0].Key)
    ensures forall j | 0 <= j < |items| :: Less(x.Key, items[j].Key)
  {
    forall j | 0 < j < |items|
      ensures Less(x.Key, items[j].Key)
    {
      LessTransitive(x.Key, items[0].Key, items[j].Key);
    }
  }

  /** Insert an item with a new key into an ascending sequence, keeping it ascending. */
  function Insert(items: seq<Item>, x: Item): (r: seq<Item>)
    requires Ascending(items)
    requires forall y | y in items :: y.Key != x.Key
    ensures Ascending(r)
    ensures |r| == |items| + 1
    ensures forall y :: y in r <==> y in items || y == x
  {
    if |items| == 0 then [x]
    else if Less(x.Key, items[0].Key) then
      BelowFirst(x, items);
      [x] + items
    else
      LessTotal(x.Key, items[0].Key);
      var rest := Insert(items[1..], x);
      assert forall y | y in rest :: Less(items[0].Key, y.Key) by {
        forall y | y in rest
          ensures Less(items[0].Key, y.Key)
        {
          if y != x {
            var j :| 1 <= j < |items| && items[j] == y;
          }
        }
      }
      [items[0]] + rest
  }

  /** The sequence backwards. */
  function Reverse(items: seq<Item>): (r: seq<Item>)
    ensures |r| == |items|
    ensures forall i | 0 <= i < |items| :: r[i] == items[|items| - 1 - i]
  {
    if |items| == 0 then [] else [items[|items| - 1]] + Reverse(items[..|items| - 1])
  }

  /**
   * `newBTreeIterator`: the snapshot of the index, ascending or (for a reverse
   * iterator) descending by key, with the cursor at 0.
   */
  method NewBTreeIterator(idx: Index, reverse: bool) returns (it: BTreeIterator)
    ensures it.reverse == reverse && it.index == 0
    ensures SnapshotOf(it.items, idx)
    ensures |it.items| == |idx|
    ensures if reverse then Descending(it.items) else Ascending(it.items)
  {
    var items: seq<Item> := [];
    var rest := idx.Keys;
    while rest != {}
      invariant rest <= idx.Keys
      invariant Ascending(items)
      invariant |items| + |rest| == |idx|
      invariant forall y | y in items :: y.Key in idx && y.Key !in rest && idx[y.Key] == y.Pos
      invariant forall k | k in idx && k !in rest :: Item(k, idx[k]) in items
      decreases rest
    {
      var k :| k in rest;
      items := Insert(items, Item(k, idx[k]));
      rest := rest - {k};
    }
    if reverse {
      ReverseSnapshot(items, idx);
      it := BTreeIterator(reverse, 0, Reverse(items));
    } else {
      it := BTreeIterator(reverse, 0, items);
    }
  }

  /** Reversing an ascending snapshot gives a descending snapshot of the same index. */
  lemma ReverseSnapshot(items: seq<Item>, idx: Index)
    requires SnapshotOf(items, idx) && Ascending(items)
    ensures SnapshotOf(Reverse(items), idx) && Descending(Reverse(items))
  {
    ReverseMembers(items);
    ReverseDescending(items);
  }

  lemma ReverseMembers(items: seq<Item>)
    ensures forall y :: y in Reverse(items) <==> y in items
  {
    var r := Reverse(items);
    var n := |items|;
    forall y | y in r
      ensures y in items
    {
      var i :| 0 <= i < |r| && r[i] == y;
      assert y == items[n - 1 - i];
    }
    forall y | y in items
      ensures y in r
    {
      var i :| 0 <= i < n && items[i] == y;
      assert y == r[n - 1 - i];
    }
  }

  lemma ReverseDescending(items: seq<Item>)
    requires Ascending(items)
    ensures Descending(Reverse(items))
  {
    var r := Reverse(items);
    var n := |items|;
    forall i, j | 0 <= i < j < n
      ensures Less(r[j].Key, r[i].Key)
    {
      assert r[j] == items[n - 1 - j] && r[i] == items[n - 1 - i];
    }
  }

  /** `Rewind`: back to the first item. */
  function Rewind(it: BTreeIterator): (r: BTreeIterator)
    ensures r.index == 0 && r.items == it.items && r.reverse == it.reverse
  {
    it.(index := 0)
  }

  /** `Next`: one item further. */
  function Next(it: BTreeIterator): (r: BTreeIterator)
    ensures r.index == it.index + 1 && r.items == it.items && r.reverse == it.reverse
  {
    it.(index := it.index + 1)
  }

  /** `Valid`: the cursor is on an item. */
  predicate Valid(it: BTreeIterator) {
    it.index < |it.items|
  }

  /** `Key`: the key under the cursor (the source indexes without a check). */
  function Key(it: BTreeIterator): seq<byte>
    requires Valid(it)
  {
    it.items[it.index].Key
  }

  /** `Value`: the position under the cursor. */
  function Value(it: BTreeIterator): LogRecordPos
    requires Valid(it)
  {
    it.items[it.index].Pos
  }

  /** `Close`: drop the snapshot. */
  function Close(it: BTreeIterator): (r: BTreeIterator)
    ensures !Valid(r)
  {
    it.(items := [])
  }

  /** `n` steps of `Next` after `Rewind`. */
  function Walk(it: BTreeIterator, n: nat): (r: BTreeIterator)
    ensures r.items == it.items
  {
    if n == 0 then Rewind(it) else Next(Walk(it, n - 1))
  }

  /**
   * Rewinding and stepping visits the snapshot in order: step `n` is valid
   * exactly while `n` is below the snapshot's length and is then on item `n`.
   */
  lemma {:induction false} WalkVisitsInOrder(it: BTreeIterator, n: nat)
    ensures Walk(it, n).index == n
    ensures Valid(Walk(it, n)) <==> n < |it.items|
    ensures n < |it.items| ==> Key(Walk(it, n)) == it.items[n].Key && Value(Walk(it, n)) == it.items[n].Pos
  {
    if n > 0 {
      WalkVisitsInOrder(it, n - 1);
    }
  }

  /**
   * Walking a snapshot of `idx` yields index entries only: `Key` and `Value`
   * under a valid cursor are a key and the position the index stores for it.
   */
  lemma WalkYieldsIndex(it: BTreeIterator, idx: Index, n: nat)
    requires SnapshotOf(it.items, idx) && Valid(Walk(it, n))
    ensures Key(Walk(it, n)) in idx && idx[Key(Walk(it, n))] == Value(Walk(it, n))
  {
    WalkVisitsInOrder(it, n);
    assert it.items[n] in it.items;
  }

  /** Walking a snapshot of `idx` reaches every entry of `idx`, at the step it returns. */
  lemma WalkReachesIndex(it: BTreeIterator, idx: Index, k: seq<byte>) returns (m: nat)
    requires SnapshotOf(it.items, idx) && k in idx
    ensures m < |it.items| && Valid(Walk(it, m)) && Key(Walk(it, m)) == k && Value(Walk(it, m)) == idx[k]
  {
    assert Item(k, idx[k]) in it.items;
    m :| 0 <= m < |it.items| && it.items[m] == Item(k, idx[k]);
    WalkVisitsInOrder(it, m);
  }

  /** Whether the item at `i` satisfies the test `Seek` applies. */
  predicate SeekMatch(it: BTreeIterator, key: seq<byte>, i: nat)
    requires i < |it.items|
  {
    if !it.reverse then !Less(it.items[i].Key, key) else Less(it.items[i].Key, key)
  }

  /**
   * `Seek` as written: scan every item and move the cursor to each one that
   * passes the test, so the cursor ends on the LAST passing item; it stays
   * where it was when none passes.
   */
  method Seek(it: BTreeIterator, key: seq<byte>) returns (r: BTreeIterator)
    ensures r.items == it.items && r.reverse == it.reverse
    ensures (exists i | 0 <= i < |it.items| :: SeekMatch(it, key, i)) ==>
              && r.index < |it.items|
              && SeekMatch(it, key, r.index)
              && forall j | r.index < j < |it.items| :: !SeekMatch(it, key, j)
    ensures (forall i | 0 <= i < |it.items| :: !SeekMatch(it, key, i)) ==> r.index == it.index
  {
    r := it;
    var found := false;
    for i := 0 to |it.items|
      invariant r.items == it.items && r.reverse == it.reverse
      invariant found <==> exists j | 0 <= j < i :: SeekMatch(it, key, j)
      invariant found ==> r.index < i && SeekMatch(it, key, r.index)
      invariant found ==> forall j | r.index < j < i :: !SeekMatch(it, key, j)
      invariant !found ==> r.index == it.index
    {
      if SeekMatch(it, key, i) {
        r := r.(index := i);
        found := true;
      }
    }
  }

  /**
   * On a snapshot the passing items form a suffix (keys at or above `key`
   * going up, keys below `key` going down), so `Seek` lands on the last item
   * whenever any item passes.
   */
  lemma SeekMatchesAreSuffix(it: BTreeIterator, key: seq<byte>, i: nat, j: nat)
    requires if it.reverse then Descending(it.items) else Ascending(it.items)
    requires i <= j < |it.items| && SeekMatch(it, key, i)
    ensures SeekMatch(it, key, j) && SeekMatch(it, key, |it.items| - 1)
  {
    var n := |it.items|;
    forall m | m == j || m == n - 1
      ensures SeekMatch(it, key, m)
    {
      if i < m {
        var a, b := it.items[i].Key, it.items[m].Key;
        if !it.reverse {
          assert Less(a, b);
          if Less(b, key) {
            LessTransitive(a, b, key);
          }
        } else {
          assert Less(b, a);
          LessTransitive(b, a, key);
        }
      }
    }
  }

  /**
   * The documentation of `Seek` promises the first item at or above the key;
   * the code lands elsewhere: with keys [1] and [2] ascending and key [1],
   * the first passing item is 0 but the last, where `Seek` stops, is 1.
   */
  lemma SeekLandsOnLastNotFirst(p: LogRecordPos)
    ensures var it := BTreeIterator(false, 0, [Item([1], p), Item([2], p)]);
            && SeekMatch(it, [1], 0)
            && SeekMatch(it, [1], 1)
  {
    var it := BTreeIterator(false, 0, [Item([1], p), Item([2], p)]);
    LessIrreflexive([1]);
    assert Compare([2], [1]) == 1;
  }
}
