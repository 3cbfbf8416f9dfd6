/**
 * CRC-32 with the reflected IEEE 802.3 / ITU-T V.42 polynomial, computed the
 * way Go's `hash/crc32` package does for the IEEE table: a 256-entry table
 * built by eight rounds of the shift register, a byte-wise table-driven fold,
 * and inversion of the register before and after the fold.
 */
module Crc32 {
  import opened Bytes

  /** The reversed generator polynomial 0x04C11DB7. */
  const IEEE: bv32 := 0xEDB88320

  /** One round of the reflected shift register. */
  function ShiftBit(c: bv32): bv32 {
    if c & 1 == 1 then (c >> 1) ^ IEEE else c >> 1
  }

  function ShiftBits(c: bv32, n: nat): bv32
    decreases n
  {
    if n == 0 then c else ShiftBits(ShiftBit(c), n - 1)
  }

  /** Entry `i` of the lookup table: eight register rounds started from `i`. */
  function Table(i: bv32): bv32 {
    ShiftBits(i, 8)
  }

  /** Feed one byte into the (already inverted) register. */
  function Step(crc: bv32, v: byte): bv32 {
    Table((crc ^ (v as bv32)) & 0xFF) ^ (crc >> 8)
  }

  /** The table-driven fold over `p`, without the inversions. */
  function Raw(crc: bv32, p: seq<byte>): bv32
    decreases |p|
  {
    if |p| == 0 then crc else Raw(Step(crc, p[0]), p[1..])
  }

  /** The register-level form of `crc32.Update`: invert, fold, invert. */
  function Update(crc: bv32, p: seq<byte>): bv32 {
    !Raw(!crc, p)
  }

  function Checksum(p: seq<byte>): bv32 {
    Update(0, p)
  }

  /** `crc32.Update(crc, crc32.IEEETable, p)` on `uint32` values. */
  function UpdateIEEE(crc: uint32, p: seq<byte>): uint32 {
    Update(crc as bv32, p) as int
  }

  /** `crc32.ChecksumIEEE(p)`. */
  function ChecksumIEEE(p: seq<byte>): (c: uint32)
    ensures p == [] ==> c == 0
  {
    Checksum(p) as int
  }

  /** Folding over a concatenation folds over each part in turn. */
  lemma {:induction false} RawAppend(c: bv32, a: seq<byte>, b: seq<byte>)
    ensures Raw(c, a + b) == Raw(Raw(c, a), b)
    decreases |a|
  {
    if |a| == 0 {
      assert a + b == b;
    } else {
      assert (a + b)[0] == a[0];
      assert (a + b)[1..] == a[1..] + b;
      RawAppend(Step(c, a[0]), a[1..], b);
    }
  }

  lemma DoubleNegation(x: bv32)
    ensures !!x == x
  {
  }

  lemma WordAsInt(x: bv32)
    ensures (x as int) as bv32 == x
  {
  }

  /**
   * Continuing a checksum is the checksum of the concatenation: the property
   * that lets a reader check a record in pieces while the writer checksums it
   * in one piece.
   */
  lemma UpdateChain(c: bv32, a: seq<byte>, b: seq<byte>)
    ensures Update(Update(c, a), b) == Update(c, a + b)
  {
    var x := Raw(!c, a);
    assert !Update(c, a) == x by {
      DoubleNegation(x);
    }
    RawAppend(!c, a, b);
  }

  /** The three-piece form used when a record is read back, on `uint32` values. */
  lemma ChecksumInPieces(a: seq<byte>, b: seq<byte>, d: seq<byte>)
    ensures UpdateIEEE(UpdateIEEE(ChecksumIEEE(a), b), d) == ChecksumIEEE(a + b + d)
  {
    WordAsInt(Checksum(a));
    UpdateChain(0, a, b);
    WordAsInt(Update(Checksum(a), b));
    UpdateChain(0, a + b, d);
  }

  /** Step 1 of the check string, one shift-register round at a time. */
  lemma CheckStepOne()
    ensures Step(0xFFFFFFFF, 0x31) == 0x7C231048
  {
    assert (0xFFFFFFFF ^ (0x31 as bv32)) & 0xFF == 0xCE;
    assert ShiftBits(0x000000CE, 8) == ShiftBits(0x00000067, 7);
    assert ShiftBits(0x00000067, 7) == ShiftBits(0xEDB88313, 6);
    assert ShiftBits(0xEDB88313, 6) == ShiftBits(0x9B64C2A9, 5);
    assert ShiftBits(0x9B64C2A9, 5) == ShiftBits(0xA00AE274, 4);
    assert ShiftBits(0xA00AE274, 4) == ShiftBits(0x5005713A, 3);
    assert ShiftBits(0x5005713A, 3) == ShiftBits(0x2802B89D, 2);
    assert ShiftBits(0x2802B89D, 2) == ShiftBits(0xF9B9DF6E, 1);
    assert ShiftBits(0xF9B9DF6E, 1) == ShiftBits(0x7CDCEFB7, 0);
  }

  /** Step 2 of the check string, one shift-register round at a time. */
  lemma CheckStepTwo()
    ensures Step(0x7C231048, 0x32) == 0xB0ACBB32
  {
    assert (0x7C231048 ^ (0x32 as bv32)) & 0xFF == 0x7A;
    assert ShiftBits(0x0000007A, 8) == ShiftBits(0x0000003D, 7);
    assert ShiftBits(0x0000003D, 7) == ShiftBits(0xEDB8833E, 6);
    assert ShiftBits(0xEDB8833E, 6) == ShiftBits(0x76DC419F, 5);
    assert ShiftBits(0x76DC419F, 5) == ShiftBits(0xD6D6A3EF, 4);
    assert ShiftBits(0xD6D6A3EF, 4) == ShiftBits(0x86D3D2D7, 3);
    assert ShiftBits(0x86D3D2D7, 3) == ShiftBits(0xAED16A4B, 2);
    assert ShiftBits(0xAED16A4B, 2) == ShiftBits(0xBAD03605, 1);
    assert ShiftBits(0xBAD03605, 1) == ShiftBits(0xB0D09822, 0);
  }

  /** Step 3 of the check string, one shift-register round at a time. */
  lemma CheckStepThree()
    ensures Step(0xB0ACBB32, 0x33) == 0x77B79C2D
  {
    assert (0xB0ACBB32 ^ (0x33 as bv32)) & 0xFF == 0x01;
    assert ShiftBits(0x00000001, 8) == ShiftBits(0xEDB88320, 7);
    assert ShiftBits(0xEDB88320, 7) == ShiftBits(0x76DC4190, 6);
    assert ShiftBits(0x76DC4190, 6) == ShiftBits(0x3B6E20C8, 5);
    assert ShiftBits(0x3B6E20C8, 5) == ShiftBits(0x1DB71064, 4);
    assert ShiftBits(0x1DB71064, 4) == ShiftBits(0x0EDB8832, 3);
    assert ShiftBits(0x0EDB8832, 3) == ShiftBits(0x076DC419, 2);
    assert ShiftBits(0x076DC419, 2) == ShiftBits(0xEE0E612C, 1);
    assert ShiftBits(0xEE0E612C, 1) == ShiftBits(0x77073096, 0);
  }

  /** Step 4 of the check string, one shift-register round at a time. */
  lemma CheckStepFour()
    ensures Step(0x77B79C2D, 0x34) == 0x641C1F5C
  {
    assert (0x77B79C2D ^ (0x34 as bv32)) & 0xFF == 0x19;
    assert ShiftBits(0x00000019, 8) == ShiftBits(0xEDB8832C, 7);
    assert ShiftBits(0xEDB8832C, 7) == ShiftBits(0x76DC4196, 6);
    assert ShiftBits(0x76DC4196, 6) == ShiftBits(0x3B6E20CB, 5);
    assert ShiftBits(0x3B6E20CB, 5) == ShiftBits(0xF00F9345, 4);
    assert ShiftBits(0xF00F9345, 4) == ShiftBits(0x95BF4A82, 3);
    assert ShiftBits(0x95BF4A82, 3) == ShiftBits(0x4ADFA541, 2);
    assert ShiftBits(0x4ADFA541, 2) == ShiftBits(0xC8D75180, 1);
    assert ShiftBits(0xC8D75180, 1) == ShiftBits(0x646BA8C0, 0);
  }

  /** Step 5 of the check string, one shift-register round at a time. */
  lemma CheckStepFive()
    ensures Step(0x641C1F5C, 0x35) == 0x340AC5E3
  {
    assert (0x641C1F5C ^ (0x35 as bv32)) & 0xFF == 0x69;
    assert ShiftBits(0x00000069, 8) == ShiftBits(0xEDB88314, 7);
    assert ShiftBits(0xEDB88314, 7) == ShiftBits(0x76DC418A, 6);
    assert ShiftBits(0x76DC418A, 6) == ShiftBits(0x3B6E20C5, 5);
    assert ShiftBits(0x3B6E20C5, 5) == ShiftBits(0xF00F9342, 4);
    assert ShiftBits(0xF00F9342, 4) == ShiftBits(0x7807C9A1, 3);
    assert ShiftBits(0x7807C9A1, 3) == ShiftBits(0xD1BB67F0, 2);
    assert ShiftBits(0xD1BB67F0, 2) == ShiftBits(0x68DDB3F8, 1);
    assert ShiftBits(0x68DDB3F8, 1) == ShiftBits(0x346ED9FC, 0);
  }

  /** Step 6 of the check string, one shift-register round at a time. */
  lemma CheckStepSix()
    ensures Step(0x340AC5E3, 0x36) == 0xF68D2C9E
  {
    assert (0x340AC5E3 ^ (0x36 as bv32)) & 0xFF == 0xD5;
    assert ShiftBits(0x000000D5, 8) == ShiftBits(0xEDB8834A, 7);
    assert ShiftBits(0xEDB8834A, 7) == ShiftBits(0x76DC41A5, 6);
    assert ShiftBits(0x76DC41A5, 6) == ShiftBits(0xD6D6A3F2, 5);
    assert ShiftBits(0xD6D6A3F2, 5) == ShiftBits(0x6B6B51F9, 4);
    assert ShiftBits(0x6B6B51F9, 4) == ShiftBits(0xD80D2BDC, 3);
    assert ShiftBits(0xD80D2BDC, 3) == ShiftBits(0x6C0695EE, 2);
    assert ShiftBits(0x6C0695EE, 2) == ShiftBits(0x36034AF7, 1);
    assert ShiftBits(0x36034AF7, 1) == ShiftBits(0xF6B9265B, 0);
  }

  /** Step 7 of the check string, one shift-register round at a time. */
  lemma CheckStepSeven()
    ensures Step(0xF68D2C9E, 0x37) == 0xAFFC9660
  {
    assert (0xF68D2C9E ^ (0x37 as bv32)) & 0xFF == 0xA9;
    assert ShiftBits(0x000000A9, 8) == ShiftBits(0xEDB88374, 7);
    assert ShiftBits(0xEDB88374, 7) == ShiftBits(0x76DC41BA, 6);
    assert ShiftBits(0x76DC41BA, 6) == ShiftBits(0x3B6E20DD, 5);
    assert ShiftBits(0x3B6E20DD, 5) == ShiftBits(0xF00F934E, 4);
    assert ShiftBits(0xF00F934E, 4) == ShiftBits(0x7807C9A7, 3);
    assert ShiftBits(0x7807C9A7, 3) == ShiftBits(0xD1BB67F3, 2);
    assert ShiftBits(0xD1BB67F3, 2) == ShiftBits(0x856530D9, 1);
    assert ShiftBits(0x856530D9, 1) == ShiftBits(0xAF0A1B4C, 0);
  }

  /** Step 8 of the check string, one shift-register round at a time. */
  lemma CheckStepEight()
    ensures Step(0xAFFC9660, 0x38) == 0x651F2550
  {
    assert (0xAFFC9660 ^ (0x38 as bv32)) & 0xFF == 0x58;
    assert ShiftBits(0x00000058, 8) == ShiftBits(0x0000002C, 7);
    assert ShiftBits(0x0000002C, 7) == ShiftBits(0x00000016, 6);
    assert ShiftBits(0x00000016, 6) == ShiftBits(0x0000000B, 5);
    assert ShiftBits(0x0000000B, 5) == ShiftBits(0xEDB88325, 4);
    assert ShiftBits(0xEDB88325, 4) == ShiftBits(0x9B64C2B2, 3);
    assert ShiftBits(0x9B64C2B2, 3) == ShiftBits(0x4DB26159, 2);
    assert ShiftBits(0x4DB26159, 2) == ShiftBits(0xCB61B38C, 1);
    assert ShiftBits(0xCB61B38C, 1) == ShiftBits(0x65B0D9C6, 0);
  }

  /** Step 9 of the check string, one shift-register round at a time. */
  lemma CheckStepNine()
    ensures Step(0x651F2550, 0x39) == 0x340BC6D9
  {
    assert (0x651F2550 ^ (0x39 as bv32)) & 0xFF == 0x69;
    assert ShiftBits(0x00000069, 8) == ShiftBits(0xEDB88314, 7);
    assert ShiftBits(0xEDB88314, 7) == ShiftBits(0x76DC418A, 6);
    assert ShiftBits(0x76DC418A, 6) == ShiftBits(0x3B6E20C5, 5);
    assert ShiftBits(0x3B6E20C5, 5) == ShiftBits(0xF00F9342, 4);
    assert ShiftBits(0xF00F9342, 4) == ShiftBits(0x7807C9A1, 3);
    assert ShiftBits(0x7807C9A1, 3) == ShiftBits(0xD1BB67F0, 2);
    assert ShiftBits(0xD1BB67F0, 2) == ShiftBits(0x68DDB3F8, 1);
    assert ShiftBits(0x68DDB3F8, 1) == ShiftBits(0x346ED9FC, 0);
  }

  /** Bytes 1 to 3 of the check string. */
  lemma CheckPartOne()
    ensures Raw(0xFFFFFFFF, [0x31, 0x32, 0x33]) == 0x77B79C2D
  {
    CheckStepOne();
    CheckStepTwo();
    CheckStepThree();
  }

  /** Bytes 4 to 6 of the check string. */
  lemma CheckPartTwo()
    ensures Raw(0x77B79C2D, [0x34, 0x35, 0x36]) == 0xF68D2C9E
  {
    CheckStepFour();
    CheckStepFive();
    CheckStepSix();
  }

  /** Bytes 7 to 9 of the check string. */
  lemma CheckPartThree()
    ensures Raw(0xF68D2C9E, [0x37, 0x38, 0x39]) == 0x340BC6D9
  {
    CheckStepSeven();
    CheckStepEight();
    CheckStepNine();
  }

  /** The standard CRC-32 check value: the checksum of the ASCII digits "123456789". */
  lemma CheckValue(p: seq<byte>)
    requires p == [0x31, 0x32, 0x33, 0x34, 0x35, 0x36, 0x37, 0x38, 0x39]
    ensures Checksum(p) == 0xCBF43926
  {
    var a: seq<byte>, b: seq<byte>, d: seq<byte> := [0x31, 0x32, 0x33], [0x34, 0x35, 0x36], [0x37, 0x38, 0x39];
    assert p == a + b + d;
    CheckPartOne();
    CheckPartTwo();
    CheckPartThree();
    RawAppend(0xFFFFFFFF, a + b, d);
    RawAppend(0xFFFFFFFF, a, b);
    assert Raw(0xFFFFFFFF, p) == 0x340BC6D9;
  }
}
