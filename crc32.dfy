/** The 32-bit cyclic redundancy check of ITU-T V.42 section 8.1.1.6.2
    (also ISO/IEC 3309 and zlib), as `binascii.crc32(data, value)` computes it:
    the register is preconditioned by complementing `value`, each byte is
    folded in least significant bit first against the reflected polynomial
    0xEDB88320, and the final register is complemented again. */
module Crc32 {

  /** The generator polynomial x^32 + x^26 + ... + 1, bit-reflected. */
  const Poly: bv32 := 0xEDB8_8320

  /** One bit step of the reflected register. */
  function Shift(c: bv32): (r: bv32) {
    if c & 1 == 1 then (c >> 1) ^ Poly else c >> 1
  }

  /** `k` bit steps. */
  function ShiftN(c: bv32, k: nat): (r: bv32) {
    if k == 0 then c else Shift(ShiftN(c, k - 1))
  }

  /** Folds one byte into the register. */
  function FeedByte(c: bv32, b: bv8): (r: bv32) {
    ShiftN(c ^ (b as bv32), 8)
  }

  /** Folds a byte sequence into a register with a given byte step, first byte first. */
  function Fold(step: (bv32, bv8) -> bv32, c: bv32, data: seq<bv8>): (r: bv32)
    decreases |data|
  {
    if |data| == 0 then c else Fold(step, step(c, data[0]), data[1..])
  }

  /** A register fold with all-ones pre- and post-conditioning, continuing from `value`. */
  function Conditioned(step: (bv32, bv8) -> bv32, data: seq<bv8>, value: bv32): (r: bv32) {
    Fold(step, value ^ 0xFFFF_FFFF, data) ^ 0xFFFF_FFFF
  }

  /** `binascii.crc32(data, value)`: the CRC of `data` continuing from the CRC `value`. */
  function Crc32(data: seq<bv8>, value: bv32): (crc: bv32) {
    Conditioned(FeedByte, data, value)
  }

  /** `binascii.crc32(data)`: the CRC of `data` on its own. */
  function Crc(data: seq<bv8>): (crc: bv32) {
    Crc32(data, 0)
  }

  // ---------------------------------------------------------------------
  // Folds, for any byte step

  /** Folding a concatenation is folding one part, then the other. */
  lemma {:induction false} FoldAppend(step: (bv32, bv8) -> bv32, c: bv32, a: seq<bv8>, b: seq<bv8>)
    ensures Fold(step, c, a + b) == Fold(step, Fold(step, c, a), b)
    decreases |a|
  {
    if |a| > 0 {
      assert (a + b)[1..] == a[1..] + b;
      FoldAppend(step, step(c, a[0]), a[1..], b);
    } else {
      assert a + b == b;
    }
  }

  /** Complementing twice is the identity. */
  lemma {:induction false} XorTwice(x: bv32)
    ensures (x ^ 0xFFFF_FFFF) ^ 0xFFFF_FFFF == x
  {
  }

  /** Continuing a conditioned fold from the result of another is one conditioned
      fold over the concatenation. */
  lemma {:induction false} ConditionedChain(step: (bv32, bv8) -> bv32, a: seq<bv8>, b: seq<bv8>, value: bv32)
    ensures Conditioned(step, b, Conditioned(step, a, value)) == Conditioned(step, a + b, value)
  {
    var f := Fold(step, value ^ 0xFFFF_FFFF, a);
    calc {
      Conditioned(step, b, Conditioned(step, a, value));
      Fold(step, (f ^ 0xFFFF_FFFF) ^ 0xFFFF_FFFF, b) ^ 0xFFFF_FFFF;
      { XorTwice(f); }
      Fold(step, f, b) ^ 0xFFFF_FFFF;
      { FoldAppend(step, value ^ 0xFFFF_FFFF, a, b); }
      Conditioned(step, a + b, value);
    }
  }

  /** A step that is injective in the register keeps distinct registers distinct. */
  lemma {:induction false} FoldInjective(step: (bv32, bv8) -> bv32, c: bv32, d: bv32, data: seq<bv8>)
    requires forall x: bv32, y: bv32, b: bv8 :: step(x, b) == step(y, b) ==> x == y
    requires Fold(step, c, data) == Fold(step, d, data)
    ensures c == d
    decreases |data|
  {
    if |data| > 0 {
      FoldInjective(step, step(c, data[0]), step(d, data[0]), data[1..]);
    }
  }

  // ---------------------------------------------------------------------
  // The bit step is a bijection

  /** The top bit of the stepped register records the bit shifted out. */
  lemma {:induction false} ShiftInjective(x: bv32, y: bv32)
    requires Shift(x) == Shift(y)
    ensures x == y
  {
  }

  lemma {:induction false} ShiftNInjective(x: bv32, y: bv32, k: nat)
    requires ShiftN(x, k) == ShiftN(y, k)
    ensures x == y
  {
    if k > 0 {
      ShiftInjective(ShiftN(x, k - 1), ShiftN(y, k - 1));
      ShiftNInjective(x, y, k - 1);
    }
  }

  /** Feeding one byte is injective in the register and in the byte. */
  lemma {:induction false} FeedByteInjective(c: bv32, d: bv32, x: bv8, y: bv8)
    requires FeedByte(c, x) == FeedByte(d, y)
    ensures c ^ (x as bv32) == d ^ (y as bv32)
  {
    ShiftNInjective(c ^ (x as bv32), d ^ (y as bv32), 8);
  }

  // ---------------------------------------------------------------------
  // Properties of the CRC

  /** Chained `binascii.crc32` calls give the CRC of the concatenation. */
  lemma {:induction false} Crc32Chain(a: seq<bv8>, b: seq<bv8>, value: bv32)
    ensures Crc32(b, Crc32(a, value)) == Crc32(a + b, value)
  {
    ConditionedChain(FeedByte, a, b, value);
  }

  /** Changing any single byte of the data changes the CRC. */
  lemma {:induction false} SingleByteChangeDetected(pre: seq<bv8>, x: bv8, y: bv8, post: seq<bv8>, value: bv32)
    requires x != y
    ensures Crc32(pre + [x] + post, value) != Crc32(pre + [y] + post, value)
  {
    var c := Fold(FeedByte, value ^ 0xFFFF_FFFF, pre);
    FoldAppend(FeedByte, value ^ 0xFFFF_FFFF, pre + [x], post);
    FoldAppend(FeedByte, value ^ 0xFFFF_FFFF, pre, [x]);
    FoldAppend(FeedByte, value ^ 0xFFFF_FFFF, pre + [y], post);
    FoldAppend(FeedByte, value ^ 0xFFFF_FFFF, pre, [y]);
    var cx := FeedByte(c, x);
    var cy := FeedByte(c, y);
    assert Fold(FeedByte, c, [x]) == cx;
    assert Fold(FeedByte, c, [y]) == cy;
    if Fold(FeedByte, cx, post) == Fold(FeedByte, cy, post) {
      forall r: bv32, s: bv32, b: bv8 | FeedByte(r, b) == FeedByte(s, b)
        ensures r == s
      {
        FeedByteInjective(r, s, b, b);
      }
      FoldInjective(FeedByte, cx, cy, post);
      FeedByteInjective(c, c, x, y);
      assert false;
    }
    XorTwice(Fold(FeedByte, cx, post));
    XorTwice(Fold(FeedByte, cy, post));
  }

  /** Register values after bytes 1 to 3 of the check string. */
  lemma {:induction false} CheckValueFirst()
    ensures FeedByte(0xFFFF_FFFF, 0x31) == 0x7C23_1048
    ensures FeedByte(0x7C23_1048, 0x32) == 0xB0AC_BB32
    ensures FeedByte(0xB0AC_BB32, 0x33) == 0x77B7_9C2D
  {
    assert FeedByte(0xFFFF_FFFF, 0x31) == ShiftN(0xFFFF_FFCE, 8);
    assert FeedByte(0x7C23_1048, 0x32) == ShiftN(0x7C23_107A, 8);
    assert FeedByte(0xB0AC_BB32, 0x33) == ShiftN(0xB0AC_BB01, 8);
  }

  /** Register values after bytes 4 to 6 of the check string. */
  lemma {:induction false} CheckValueMiddle()
    ensures FeedByte(0x77B7_9C2D, 0x34) == 0x641C_1F5C
    ensures FeedByte(0x641C_1F5C, 0x35) == 0x340A_C5E3
    ensures FeedByte(0x340A_C5E3, 0x36) == 0xF68D_2C9E
  {
    assert FeedByte(0x77B7_9C2D, 0x34) == ShiftN(0x77B7_9C19, 8);
    assert FeedByte(0x641C_1F5C, 0x35) == ShiftN(0x641C_1F69, 8);
    assert FeedByte(0x340A_C5E3, 0x36) == ShiftN(0x340A_C5D5, 8);
  }

  /** Register values after bytes 7 to 9 of the check string. */
  lemma {:induction false} CheckValueLast()
    ensures FeedByte(0xF68D_2C9E, 0x37) == 0xAFFC_9660
    ensures FeedByte(0xAFFC_9660, 0x38) == 0x651F_2550
    ensures FeedByte(0x651F_2550, 0x39) == 0x340B_C6D9
  {
    assert FeedByte(0xF68D_2C9E, 0x37) == ShiftN(0xF68D_2CA9, 8);
    assert FeedByte(0xAFFC_9660, 0x38) == ShiftN(0xAFFC_9658, 8);
    assert FeedByte(0x651F_2550, 0x39) == ShiftN(0x651F_2569, 8);
  }

  /** The standard check value: the CRC-32 of the ASCII digits "123456789" is 0xCBF43926. */
  lemma {:induction false} CheckValue()
    ensures Crc([0x31, 0x32, 0x33, 0x34, 0x35, 0x36, 0x37, 0x38, 0x39]) == 0xCBF4_3926
  {
    var s: seq<bv8> := [0x31, 0x32, 0x33, 0x34, 0x35, 0x36, 0x37, 0x38, 0x39];
    CheckValueFirst();
    CheckValueMiddle();
    CheckValueLast();
    assert Fold(FeedByte, 0x340B_C6D9, s[9..]) == 0x340B_C6D9;
    assert Fold(FeedByte, 0x651F_2550, s[8..]) == 0x340B_C6D9;
    assert Fold(FeedByte, 0xAFFC_9660, s[7..]) == 0x340B_C6D9;
    assert Fold(FeedByte, 0xF68D_2C9E, s[6..]) == 0x340B_C6D9;
    assert Fold(FeedByte, 0x340A_C5E3, s[5..]) == 0x340B_C6D9;
    assert Fold(FeedByte, 0x641C_1F5C, s[4..]) == 0x340B_C6D9;
    assert Fold(FeedByte, 0x77B7_9C2D, s[3..]) == 0x340B_C6D9;
    assert Fold(FeedByte, 0xB0AC_BB32, s[2..]) == 0x340B_C6D9;
    assert Fold(FeedByte, 0x7C23_1048, s[1..]) == 0x340B_C6D9;
    assert Fold(FeedByte, 0xFFFF_FFFF, s[0..]) == 0x340B_C6D9;
  }

  // ---------------------------------------------------------------------
  // The register loop

  /** Folds one byte into the register a bit at a time. */
  method FeedByteBits(c: bv32, b: bv8) returns (r: bv32)
    ensures r == FeedByte(c, b)
  {
    var x := c ^ b as bv32;
    r := x;
    for k := 0 to 8
      invariant r == ShiftN(x, k)
    {
      r := if r & 1 == 1 then (r >> 1) ^ Poly else r >> 1;
    }
  }

  /** Computes `binascii.crc32(data, value)` with a 32-bit register updated
      one byte at a time. */
  method ComputeCrc32(data: seq<bv8>, value: bv32) returns (crc: bv32)
    ensures crc == Crc32(data, value)
  {
    var c := value ^ 0xFFFF_FFFF;
    var i := 0;
    while i < |data|
      invariant 0 <= i <= |data|
      invariant Fold(FeedByte, c, data[i..]) == Fold(FeedByte, value ^ 0xFFFF_FFFF, data)
    {
      assert data[i..][1..] == data[i + 1..];
      c := FeedByteBits(c, data[i]);
      i := i + 1;
    }
    crc := c ^ 0xFFFF_FFFF;
  }
}
