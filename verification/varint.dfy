/**
 * Go's `encoding/binary` variable-length integers: a signed value is mapped
 * to an unsigned one by ZigZag (0, -1, 1, -2, ... become 0, 1, 2, 3, ...)
 * and the unsigned value is written as unsigned LEB128, seven bits per byte,
 * least significant group first, with the high bit set on every byte but the
 * last (section 7.6 of the DWARF 4 standard).
 */
module Varints {
  import opened Bytes
  import opened Wrappers

  /** `binary.MaxVarintLen64`: no 64-bit value needs more bytes. */
  const MaxVarintLen64: nat := 10

  function Pow128(n: nat): (p: nat)
    ensures p >= 1
  {
    if n == 0 then 1 else 128 * Pow128(n - 1)
  }

  /** ZigZag as `binary.PutVarint` computes it for an `int64`. */
  function ZigZag(x: int): nat {
    if x >= 0 then 2 * x else -2 * x - 1
  }

  /** The inverse mapping applied by `binary.Varint`. */
  function UnZigZag(u: nat): int {
    if u % 2 == 0 then u / 2 else -(u / 2) - 1
  }

  lemma ZigZagRoundTrip(x: int)
    ensures UnZigZag(ZigZag(x)) == x
  {
  }

  /**
   * The shape of an unsigned LEB128 number: bytes with the high bit set,
   * ended by one byte with the high bit clear.
   */
  predicate Continued(bs: seq<byte>)
    decreases |bs|
  {
    bs != [] && if |bs| == 1 then bs[0] < 128 else bs[0] >= 128 && Continued(bs[1..])
  }

  /** `binary.PutUvarint`: the bytes written for `u`. */
  function PutUvarint(u: nat): (bs: seq<byte>)
    ensures Continued(bs) && (|bs| == 1 <==> u < 128)
    decreases u
  {
    if u < 128 then [u] else [u % 128 + 128] + PutUvarint(u / 128)
  }

  /**
   * `binary.PutVarint`: the varint of the ZigZag image, continuation bytes
   * ended by one byte below 128; exactly -64 to 63 take a single byte.
   */
  function PutVarint(x: int): (bs: seq<byte>)
    ensures Continued(bs) && (|bs| == 1 <==> -64 <= x < 64)
  {
    PutUvarint(ZigZag(x))
  }

  /**
   * `binary.Uvarint` reading `buf`, whose first byte is byte number `i` of
   * the varint. `None` stands for both of Go's failure answers: the buffer
   * ended first (n == 0) or the value overflows 64 bits (n < 0).
   * On success the answer is the value and the number of bytes read.
   */
  function UvarintAt(buf: seq<byte>, i: nat): (r: Option<(nat, nat)>)
    ensures r.Some? ==> 1 <= r.value.1 <= |buf|
    decreases |buf|
  {
    if |buf| == 0 then None
    else if i == MaxVarintLen64 then None
    else if buf[0] < 128 then
      if i == MaxVarintLen64 - 1 && buf[0] > 1 then None else Some((buf[0], 1))
    else
      match UvarintAt(buf[1..], i + 1)
      case None => None
      case Some((v, n)) => Some((buf[0] - 128 + 128 * v, n + 1))
  }

  /**
   * A varint that reads consists of continuation bytes (high bit set) ended by
   * one byte with the high bit clear, and it never needs more than
   * `MaxVarintLen64` bytes.
   */
  lemma {:induction false} UvarintShape(buf: seq<byte>, i: nat)
    requires i <= MaxVarintLen64 && UvarintAt(buf, i).Some?
    ensures var n := UvarintAt(buf, i).value.1;
            && i + n <= MaxVarintLen64
            && buf[n - 1] < 128
            && forall j | 0 <= j < n - 1 :: buf[j] >= 128
    decreases |buf|
  {
    if buf[0] >= 128 {
      var tail := buf[1..];
      UvarintShape(tail, i + 1);
      var m := UvarintAt(tail, i + 1).value.1;
      assert UvarintAt(buf, i).value.1 == m + 1;
      assert buf[m] == tail[m - 1];
      forall j | 0 <= j < m
        ensures buf[j] >= 128
      {
        if j > 0 {
          assert buf[j] == tail[j - 1];
        }
      }
    }
  }

  function Uvarint(buf: seq<byte>): Option<(nat, nat)> {
    UvarintAt(buf, 0)
  }

  /** `binary.Varint`. */
  function Varint(buf: seq<byte>): (r: Option<(int, nat)>)
    ensures r.Some? ==> 1 <= r.value.1 <= |buf|
  {
    match Uvarint(buf)
    case None => None
    case Some((u, n)) => Some((UnZigZag(u), n))
  }

  /** The varint of `u` fits in `k` bytes exactly when `u < 128^k`. */
  lemma {:induction false} PutUvarintLength(u: nat, k: nat)
    requires k >= 1
    ensures |PutUvarint(u)| <= k <==> u < Pow128(k)
    decreases u
  {
    if u >= 128 {
      if k == 1 {
        assert Pow128(1) == 128;
      } else {
        PutUvarintLength(u / 128, k - 1);
      }
    }
  }

  /**
   * Reading back what `PutUvarint` wrote yields the value and its length,
   * whatever follows it, as long as the value is below 2^63 (nine bytes).
   */
  lemma {:induction false} UvarintRoundTrip(u: nat, rest: seq<byte>, i: nat)
    requires i <= 8 && u < Pow128(9 - i)
    ensures UvarintAt(PutUvarint(u) + rest, i) == Some((u, |PutUvarint(u)|))
    decreases u
  {
    var buf := PutUvarint(u) + rest;
    if u >= 128 {
      assert Pow128(1) == 128;
      assert 9 - i >= 2;
      assert buf[1..] == PutUvarint(u / 128) + rest;
      UvarintRoundTrip(u / 128, rest, i + 1);
    }
  }

  /** `Varint` reads back `PutVarint` for every value whose ZigZag image fits in nine bytes. */
  lemma VarintRoundTrip(x: int, rest: seq<byte>)
    requires |PutVarint(x)| <= 9
    ensures Varint(PutVarint(x) + rest) == Some((x, |PutVarint(x)|))
  {
    PutUvarintLength(ZigZag(x), 9);
    UvarintRoundTrip(ZigZag(x), rest, 0);
    ZigZagRoundTrip(x);
  }

  /** A successful read does not depend on what follows the bytes it consumed. */
  lemma {:induction false} UvarintExtend(buf: seq<byte>, more: seq<byte>, i: nat)
    requires UvarintAt(buf, i).Some?
    ensures UvarintAt(buf + more, i) == UvarintAt(buf, i)
    decreases |buf|
  {
    if buf[0] >= 128 {
      assert (buf + more)[1..] == buf[1..] + more;
      UvarintExtend(buf[1..], more, i + 1);
    }
  }

  lemma VarintExtend(buf: seq<byte>, more: seq<byte>)
    requires Varint(buf).Some?
    ensures Varint(buf + more) == Varint(buf)
  {
    UvarintExtend(buf, more, 0);
  }
}
