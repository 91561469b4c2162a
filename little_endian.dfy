/** Fixed-width little-endian words, as `struct.unpack('<L', ...)` and
    `struct.pack('<L', ...)` read and write them. */
module LittleEndian {

  /** Reads four bytes as an unsigned 32-bit word, least significant byte first. */
  function ReadU32(s: seq<bv8>): (w: bv32)
    requires |s| == 4
    ensures w & 0xFF == s[0] as bv32
    ensures (w >> 8) & 0xFF == s[1] as bv32
    ensures (w >> 16) & 0xFF == s[2] as bv32
    ensures w >> 24 == s[3] as bv32
  {
    (s[0] as bv32) | ((s[1] as bv32) << 8) | ((s[2] as bv32) << 16) | ((s[3] as bv32) << 24)
  }

  /** Writes an unsigned 32-bit word as four bytes, least significant byte first. */
  function WriteU32(w: bv32): (s: seq<bv8>)
    ensures |s| == 4
    ensures s[0] as bv32 == w & 0xFF && s[3] as bv32 == w >> 24
  {
    [(w & 0xFF) as bv8, ((w >> 8) & 0xFF) as bv8, ((w >> 16) & 0xFF) as bv8, (w >> 24) as bv8]
  }

  /** Reading back what was written gives the word. */
  lemma ReadWrite(w: bv32)
    ensures ReadU32(WriteU32(w)) == w
  {
  }

  /** Writing what was read gives the four bytes back. */
  lemma WriteRead(s: seq<bv8>)
    requires |s| == 4
    ensures WriteU32(ReadU32(s)) == s
  {
    var t := WriteU32(ReadU32(s));
    assert t[1] == s[1] && t[2] == s[2];
  }

  /** Two byte quadruples that read as the same word are equal. */
  lemma ReadInjective(s: seq<bv8>, t: seq<bv8>)
    requires |s| == 4 && |t| == 4
    requires ReadU32(s) == ReadU32(t)
    ensures s == t
  {
    WriteRead(s);
    WriteRead(t);
  }

  /** `struct.pack('<L', 0)` is four zero bytes. */
  lemma WriteZero()
    ensures WriteU32(0) == [0, 0, 0, 0]
  {
  }
}
