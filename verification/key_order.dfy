/**
 * The order of keys in the index: `Item.Less` is `bytes.Compare(a, b) == -1`,
 * the lexicographic order of unsigned bytes in which a proper prefix comes
 * first. A nil key and an empty key are the same value here.
 */
module KeyOrder {
  import opened Bytes

  /** `bytes.Compare`: -1, 0 or 1 as `a` is smaller than, equal to or larger than `b`. */
  function Compare(a: seq<byte>, b: seq<byte>): (c: int)
    ensures -1 <= c <= 1
  {
    if |a| == 0 && |b| == 0 then 0
    else if |a| == 0 then -1
    else if |b| == 0 then 1
    else if a[0] < b[0] then -1
    else if a[0] > b[0] then 1
    else Compare(a[1..], b[1..])
  }

  /** `Item.Less`. */
  predicate Less(a: seq<byte>, b: seq<byte>) {
    Compare(a, b) == -1
  }

  /**
   * Reference definition of the order: `a` is a proper prefix of `b`, or the
   * two first differ at a position where `a` holds the smaller byte.
   */
  predicate LexLess(a: seq<byte>, b: seq<byte>) {
    || (|a| < |b| && a == b[..|a|])
    || exists i | 0 <= i < |a| && i < |b| :: a[..i] == b[..i] && a[i] < b[i]
  }

  /** `Compare` reports equality exactly for equal keys. */
  lemma {:induction false} CompareZero(a: seq<byte>, b: seq<byte>)
    ensures Compare(a, b) == 0 <==> a == b
    decreases |a|
  {
    if |a| > 0 && |b| > 0 && a[0] == b[0] {
      CompareZero(a[1..], b[1..]);
      assert a == [a[0]] + a[1..];
      assert b == [b[0]] + b[1..];
    }
  }

  /** Swapping the arguments negates the comparison. */
  lemma {:induction false} CompareFlip(a: seq<byte>, b: seq<byte>)
    ensures Compare(b, a) == -Compare(a, b)
    decreases |a|
  {
    if |a| > 0 && |b| > 0 && a[0] == b[0] {
      CompareFlip(a[1..], b[1..]);
    }
  }

  /** `Less` is the lexicographic order: both directions. */
  lemma {:induction false} LessIsLexLess(a: seq<byte>, b: seq<byte>)
    ensures Less(a, b) <==> LexLess(a, b)
    decreases |a|
  {
    if |a| == 0 {
      assert |b| > 0 ==> a == b[..0];
    } else if |b| == 0 {
    } else if a[0] < b[0] {
      assert a[..0] == b[..0];
    } else if a[0] > b[0] {
    } else {
      var a', b' := a[1..], b[1..];
      LessIsLexLess(a', b');
      if LexLess(a', b') {
        if |a'| < |b'| && a' == b'[..|a'|] {
          assert a == [a[0]] + a';
          assert b[..|a|] == [b[0]] + b'[..|a'|];
        } else {
          var i :| 0 <= i < |a'| && i < |b'| && a'[..i] == b'[..i] && a'[i] < b'[i];
          assert a[..i + 1] == [a[0]] + a'[..i];
          assert b[..i + 1] == [b[0]] + b'[..i];
          assert a[i + 1] == a'[i] && b[i + 1] == b'[i];
        }
      }
      if LexLess(a, b) {
        if |a| < |b| && a == b[..|a|] {
          assert a' == b'[..|a'|];
        } else {
          var i :| 0 <= i < |a| && i < |b| && a[..i] == b[..i] && a[i] < b[i];
          assert i > 0;
          assert a'[..i - 1] == a[..i][1..] == b[..i][1..] == b'[..i - 1];
          assert a'[i - 1] == a[i] && b'[i - 1] == b[i];
        }
      }
    }
  }

  /** No key is less than itself. */
  lemma LessIrreflexive(a: seq<byte>)
    ensures !Less(a, a)
  {
    CompareZero(a, a);
  }

  /** At most one of `Less(a, b)` and `Less(b, a)` holds. */
  lemma LessAsymmetric(a: seq<byte>, b: seq<byte>)
    ensures Less(a, b) ==> !Less(b, a)
  {
    CompareFlip(a, b);
  }

  /** Distinct keys are always ordered one way or the other. */
  lemma LessTotal(a: seq<byte>, b: seq<byte>)
    requires a != b
    ensures Less(a, b) != Less(b, a)
  {
    CompareZero(a, b);
    CompareFlip(a, b);
  }

  /** The order is transitive. */
  lemma {:induction false} LessTransitive(a: seq<byte>, b: seq<byte>, c: seq<byte>)
    requires Less(a, b) && Less(b, c)
    ensures Less(a, c)
    decreases |a|
  {
    if |a| > 0 && |b| > 0 && |c| > 0 && a[0] == b[0] && b[0] == c[0] {
      LessTransitive(a[1..], b[1..], c[1..]);
    }
  }

  /** A proper prefix comes before its extensions. */
  lemma PrefixLess(a: seq<byte>, b: seq<byte>)
    requires |a| < |b| && a == b[..|a|]
    ensures Less(a, b)
  {
    LessIsLexLess(a, b);
  }

  /** The empty key is below every other key and not below itself. */
  lemma EmptyKeyFirst(b: seq<byte>)
    ensures Less([], b) <==> b != []
  {
  }
}
