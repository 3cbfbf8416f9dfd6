/**
 * Key validation, the test-key format (`fmt.Sprintf("bitcask-go-%09d", i)`)
 * and the decimal conversions behind it and behind data-file names
 * (`strconv.Atoi`).
 */
module Utils {
  import opened Bytes
  import opened Wrappers

  /** `IsValidKey`: a key must hold at least one byte (nil and empty are the same here). */
  function IsValidKey(key: seq<byte>): (ok: bool)
    ensures ok <==> key != []
  {
    |key| != 0
  }

  predicate IsDigit(c: char) {
    '0' <= c <= '9'
  }

  predicate AllDigits(s: string) {
    forall i | 0 <= i < |s| :: IsDigit(s[i])
  }

  function Pow10(k: nat): (p: nat)
    ensures p >= 1
  {
    if k == 0 then 1 else 10 * Pow10(k - 1)
  }

  /** The decimal digits of `n`, most significant first, without leading zeros. */
  function DecimalDigits(n: nat): (s: string)
    ensures |s| >= 1 && AllDigits(s)
    ensures |s| > 1 ==> s[0] != '0'
  {
    if n < 10 then [('0' as int + n) as char]
    else DecimalDigits(n / 10) + [('0' as int + n % 10) as char]
  }

  /** The number a string of decimal digits denotes. */
  function DecimalValue(s: string): nat
    requires AllDigits(s)
  {
    if |s| == 0 then 0
    else 10 * DecimalValue(s[..|s| - 1]) + (s[|s| - 1] as int - '0' as int)
  }

  /** Reading back the digits of `n` gives `n`. */
  lemma {:induction false} DecimalRoundTrip(n: nat)
    ensures DecimalValue(DecimalDigits(n)) == n
  {
    if n >= 10 {
      DecimalRoundTrip(n / 10);
      var s := DecimalDigits(n);
      assert s[..|s| - 1] == DecimalDigits(n / 10);
    }
  }

  /** `n` needs at most `k` digits exactly when it is below 10^k. */
  lemma {:induction false} DecimalLength(n: nat, k: nat)
    requires k >= 1
    ensures |DecimalDigits(n)| <= k <==> n < Pow10(k)
  {
    if n >= 10 {
      if k == 1 {
        assert |DecimalDigits(n)| >= 2;
      } else {
        DecimalLength(n / 10, k - 1);
      }
    }
  }

  function Zeros(m: nat): (s: string)
    ensures |s| == m && AllDigits(s)
    ensures forall i | 0 <= i < m :: s[i] == '0'
  {
    if m == 0 then [] else ['0'] + Zeros(m - 1)
  }

  /** Leading zeros do not change the value. */
  lemma {:induction false} ZerosValue(m: nat, s: string)
    requires AllDigits(s)
    ensures AllDigits(Zeros(m) + s) && DecimalValue(Zeros(m) + s) == DecimalValue(s)
    decreases |s|
  {
    var z := Zeros(m) + s;
    if |s| == 0 {
      assert z == Zeros(m);
      ZerosValueAlone(m);
    } else {
      assert z[..|z| - 1] == Zeros(m) + s[..|s| - 1];
      ZerosValue(m, s[..|s| - 1]);
    }
  }

  lemma {:induction false} ZerosValueAlone(m: nat)
    ensures DecimalValue(Zeros(m)) == 0
  {
    if m > 0 {
      assert Zeros(m)[..m - 1] == Zeros(m - 1);
      ZerosValueAlone(m - 1);
    }
  }

  /** Pad `s` with zeros on the left to `width` characters. */
  function ZeroPad(s: string, width: nat): (r: string)
    ensures |r| == if |s| < width then width else |s|
  {
    if |s| < width then Zeros(width - |s|) + s else s
  }

  /** `fmt.Sprintf("%09d", i)`: the sign, then digits zero-padded to a width of nine. */
  function FormatZeroPadded9(i: int): string {
    if i < 0 then "-" + ZeroPad(DecimalDigits(-i), 8) else ZeroPad(DecimalDigits(i), 9)
  }

  const TestKeyPrefix: string := "bitcask-go-"

  /** The text of a test key. */
  function TestKeyString(i: int): (s: string)
    ensures forall j | 0 <= j < |s| :: s[j] as int < 256
  {
    assert AllDigits(DecimalDigits(if i < 0 then -i else i));
    TestKeyPrefix + FormatZeroPadded9(i)
  }

  /**
   * `GetTestKey`: the bytes of the test key's text. For 0 <= i < 10^9 that
   * is the prefix followed by nine decimal digits that denote `i`, so the key
   * is 20 bytes long.
   */
  function GetTestKey(i: int): (key: seq<byte>)
    ensures 0 <= i < 1000000000 ==>
              var digits := FormatZeroPadded9(i);
              && |digits| == 9 && AllDigits(digits) && DecimalValue(digits) == i
              && |key| == 20 && key[..11] == Ascii(TestKeyPrefix) && key[11..] == Ascii(digits)
  {
    if 0 <= i < 1000000000 then TestKeyBytes(i); Ascii(TestKeyString(i))
    else Ascii(TestKeyString(i))
  }

  /** The shape of a test key's bytes for 0 <= i < 10^9. */
  lemma TestKeyBytes(i: int)
    requires 0 <= i < 1000000000
    ensures var key, digits := Ascii(TestKeyString(i)), FormatZeroPadded9(i);
            && |digits| == 9 && AllDigits(digits) && DecimalValue(digits) == i
            && |key| == 20 && key[..11] == Ascii(TestKeyPrefix) && key[11..] == Ascii(digits)
  {
    PaddedDigits(i);
    assert AllDigits(DecimalDigits(i));
    AsciiAppend(TestKeyPrefix, FormatZeroPadded9(i));
  }

  lemma AsciiAppend(a: string, b: string)
    requires forall j | 0 <= j < |a| :: a[j] as int < 256
    requires forall j | 0 <= j < |b| :: b[j] as int < 256
    ensures Ascii(a + b) == Ascii(a) + Ascii(b)
  {
  }

  /** For 0 <= i < 10^9 the digits after the prefix are nine and denote `i`. */
  lemma PaddedDigits(i: int)
    requires 0 <= i < 1000000000
    ensures var digits := FormatZeroPadded9(i);
            |digits| == 9 && AllDigits(digits) && DecimalValue(digits) == i
  {
    assert Pow10(9) == 1000000000;
    DecimalLength(i, 9);
    var d := DecimalDigits(i);
    DecimalRoundTrip(i);
    ZerosValue(9 - |d|, d);
  }

  /** The key `TestGetTestKey` in utils/util_test.go expects for 1. */
  lemma TestKeyOne()
    ensures GetTestKey(1) == Ascii("bitcask-go-000000001")
  {
    assert FormatZeroPadded9(1) == "000000001";
    assert TestKeyString(1) == "bitcask-go-000000001";
  }

  /** The key `TestGetTestKey` in utils/util_test.go expects for 49. */
  lemma TestKeyFortyNine()
    ensures GetTestKey(49) == Ascii("bitcask-go-000000049")
  {
    assert DecimalDigits(49) == "49";
    assert FormatZeroPadded9(49) == "000000049";
    assert TestKeyString(49) == "bitcask-go-000000049";
  }

  const MaxInt64: nat := 0x7FFF_FFFF_FFFF_FFFF

  /**
   * `strconv.Atoi` on an unsigned decimal string: fails on an empty string,
   * on any non-digit and on a value that does not fit in an `int`.
   */
  function Atoi(s: string): (r: Option<nat>)
    ensures r.Some? ==> s != [] && AllDigits(s) && r.value == DecimalValue(s) <= MaxInt64
  {
    if s == [] || !AllDigits(s) then None
    else if DecimalValue(s) > MaxInt64 then None
    else Some(DecimalValue(s))
  }

  /** Every number in range parses back from its digits. */
  lemma AtoiOfDigits(n: nat)
    requires n <= MaxInt64
    ensures Atoi(DecimalDigits(n)) == Some(n)
  {
    DecimalRoundTrip(n);
  }

  /** `strings.HasSuffix`. */
  predicate HasSuffix(s: string, suffix: string) {
    |suffix| <= |s| && s[|s| - |suffix|..] == suffix
  }

  /** `strings.Split(s, ".")[0]`: everything before the first dot. */
  function BeforeFirstDot(s: string): (r: string)
    ensures |r| <= |s| && r == s[..|r|] && '.' !in r
    ensures |r| < |s| ==> s[|r|] == '.'
  {
    if s == [] || s[0] == '.' then []
    else
      var rest := BeforeFirstDot(s[1..]);
      assert [s[0]] + rest == s[..|rest| + 1];
      [s[0]] + rest
  }
}
