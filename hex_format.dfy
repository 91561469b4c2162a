/** `tohex(val, nbits)` of w10pfdecomp.py: reduce a possibly negative integer
    into the unsigned `nbits`-bit range, then print it as Python's `hex` does. */
module HexFormat {

  function Pow2(n: nat): (p: nat)
    ensures p >= 1
  {
    if n == 0 then 1 else 2 * Pow2(n - 1)
  }

  /** 2^32, the modulus of a 32-bit status word. */
  lemma {:induction false} Pow2Of32()
    ensures Pow2(32) == 0x1_0000_0000
  {
    assert Pow2(8) == 0x100;
    assert Pow2(16) == 0x1_0000;
    assert Pow2(24) == 0x100_0000;
  }

  /** The number `tohex` prints: `(val + 2^nbits) mod 2^nbits`, which is `val`
      itself when it is already in `[0, 2^nbits)` and `val + 2^nbits` when it is
      a negative value no smaller than `-2^nbits`. */
  function Unsigned(val: int, nbits: nat): (r: nat)
    ensures r < Pow2(nbits)
    ensures 0 <= val < Pow2(nbits) ==> r == val
    ensures val < 0 <= val + Pow2(nbits) ==> r == val + Pow2(nbits)
  {
    var m := Pow2(nbits);
    ShiftedMod(val, m);
    (val + m) % m
  }

  lemma {:induction false} ShiftedMod(val: int, m: int)
    requires m >= 1
    ensures 0 <= (val + m) % m < m
    ensures 0 <= val < m ==> (val + m) % m == val
    ensures val < 0 <= val + m ==> (val + m) % m == val + m
  {
    if 0 <= val < m {
      ModUnique(val + m, m, 1, val);
    } else if val < 0 <= val + m {
      ModUnique(val + m, m, 0, val + m);
    }
  }

  /** Euclidean remainder is unique. */
  lemma {:induction false} ModUnique(x: int, m: int, q: int, r: int)
    requires m >= 1 && 0 <= r < m && x == q * m + r
    ensures x % m == r
  {
    var q' := x / m;
    if q' > q {
      MulNonneg(q' - q - 1, m);
      MulStep(q' - q - 1, m);
      assert false;
    } else if q' < q {
      MulNonneg(q - q' - 1, m);
      MulStep(q - q' - 1, m);
      assert false;
    }
  }

  lemma {:induction false} MulNonneg(a: int, m: int)
    requires a >= 0 && m >= 0
    ensures a * m >= 0
  {
  }

  lemma {:induction false} MulStep(a: int, m: int)
    ensures (a + 1) * m == a * m + m
  {
  }

  /** Adding a multiple of 2^nbits does not change what `tohex` prints: the
      printed number is congruent to `val` modulo 2^nbits. */
  lemma {:induction false} UnsignedCongruent(val: int, k: int, nbits: nat)
    ensures Unsigned(val + k * Pow2(nbits), nbits) == Unsigned(val, nbits)
  {
    var m := Pow2(nbits);
    var q := (val + m) / m;
    var r := (val + m) % m;
    assert (q + k) * m == q * m + k * m;
    ModUnique(val + k * m + m, m, q + k, r);
  }

  /** Two status words of the signed 32-bit range that print the same are equal. */
  lemma UnsignedInjective32(a: int, b: int)
    requires -0x8000_0000 <= a < 0x8000_0000
    requires -0x8000_0000 <= b < 0x8000_0000
    requires Unsigned(a, 32) == Unsigned(b, 32)
    ensures a == b
  {
    Pow2Of32();
  }

  /** The lower-case hexadecimal digit for `d`. */
  function HexDigit(d: nat): (c: char)
    requires d < 16
  {
    "0123456789abcdef"[d]
  }

  /** The value of a hexadecimal digit, or `None` for any other character. */
  function DigitValue(c: char): (r: Option<nat>)
    ensures r.Some? ==> r.value < 16
  {
    if '0' <= c <= '9' then Some(c as nat - '0' as nat)
    else if 'a' <= c <= 'f' then Some(c as nat - 'a' as nat + 10)
    else None
  }

  lemma DigitRoundTrip(d: nat)
    requires d < 16
    ensures DigitValue(HexDigit(d)) == Some(d)
  {
  }

  /** The digits of `n`, most significant first, without leading zeros (empty for 0). */
  function Digits(n: nat): (s: string)
    decreases n
  {
    if n == 0 then [] else Digits(n / 16) + [HexDigit(n % 16)]
  }

  /** Python's `hex(n)` for `n >= 0`: `0x`, then the digits, with `0x0` for zero. */
  function PyHex(n: nat): (s: string) {
    "0x" + (if n == 0 then "0" else Digits(n))
  }

  /** `tohex(val, nbits)`. */
  function Tohex(val: int, nbits: nat): (s: string) {
    PyHex(Unsigned(val, nbits))
  }

  datatype Option<T> = None | Some(value: T)

  /** The value of a string of hexadecimal digits, most significant first. */
  function ValueOf(ds: string): (r: Option<nat>)
    decreases |ds|
  {
    if ds == [] then Some(0)
    else match (ValueOf(ds[..|ds| - 1]), DigitValue(ds[|ds| - 1]))
      case (Some(hi), Some(lo)) => Some(16 * hi + lo)
      case _ => None
  }

  /** Reads back a string printed by `hex`: `0x` followed by at least one digit. */
  function ParseHex(s: string): (r: Option<nat>) {
    if |s| >= 3 && s[..2] == "0x" then ValueOf(s[2..]) else None
  }

  lemma {:induction false} DigitsValue(n: nat)
    ensures ValueOf(Digits(n)) == Some(n)
    decreases n
  {
    if n > 0 {
      DigitsValue(n / 16);
      DigitRoundTrip(n % 16);
      var ds := Digits(n);
      assert ds[..|ds| - 1] == Digits(n / 16);
    }
  }

  /** `Digits` never starts with a zero. */
  lemma {:induction false} DigitsNoLeadingZero(n: nat)
    ensures n > 0 ==> |Digits(n)| > 0 && Digits(n)[0] != '0'
    decreases n
  {
    if n >= 16 {
      DigitsNoLeadingZero(n / 16);
    }
  }

  /** Every printed code reads back as the number printed. */
  lemma PyHexRoundTrip(n: nat)
    ensures ParseHex(PyHex(n)) == Some(n)
  {
    var s := PyHex(n);
    if n == 0 {
      assert s == "0x0";
      assert s[2..] == "0";
      assert "0"[..0] == [];
      assert ValueOf("0") == Some(0);
    } else {
      DigitsNoLeadingZero(n);
      DigitsValue(n);
      assert s[..2] == "0x";
      assert s[2..] == Digits(n);
    }
  }

  /** What `tohex` prints identifies the value modulo 2^nbits. */
  lemma TohexRoundTrip(val: int, nbits: nat)
    ensures ParseHex(Tohex(val, nbits)) == Some(Unsigned(val, nbits))
  {
    PyHexRoundTrip(Unsigned(val, nbits));
  }
}
