/** Little-endian unsigned integers read from, and written to, a byte sequence. */
module LittleEndian {

  type byte = x: int | 0 <= x < 0x100
  type u16 = x: int | 0 <= x < 0x1_0000
  type u32 = x: int | 0 <= x < 0x1_0000_0000

  /** The unsigned 16-bit value stored least significant byte first at `o`. */
  function U16(s: seq<byte>, o: nat): (v: u16)
    requires o + 2 <= |s|
  {
    s[o] as int + 0x100 * s[o + 1] as int
  }

  /** The unsigned 32-bit value stored least significant byte first at `o`. */
  function U32(s: seq<byte>, o: nat): (v: u32)
    requires o + 4 <= |s|
  {
    U16(s, o) + 0x1_0000 * U16(s, o + 2)
  }

  /** The two bytes that store `v`, least significant first. */
  function LE16(v: u16): (b: seq<byte>)
    ensures |b| == 2
  {
    [v % 0x100, v / 0x100]
  }

  /** The four bytes that store `v`, least significant first. */
  function LE32(v: u32): (b: seq<byte>)
    ensures |b| == 4
  {
    LE16(v % 0x1_0000) + LE16(v / 0x1_0000)
  }

  /** Reading back what LE16 wrote gives the value, wherever it sits. */
  lemma U16OfLE16(s: seq<byte>, o: nat, v: u16)
    requires o + 2 <= |s| && s[o..o + 2] == LE16(v)
    ensures U16(s, o) == v
  {
  }

  /** Writing what U16 read gives back the two bytes it read. */
  lemma LE16OfU16(s: seq<byte>, o: nat)
    requires o + 2 <= |s|
    ensures LE16(U16(s, o)) == s[o..o + 2]
  {
  }

  /** Reading back what LE32 wrote gives the value, wherever it sits. */
  lemma U32OfLE32(s: seq<byte>, o: nat, v: u32)
    requires o + 4 <= |s| && s[o..o + 4] == LE32(v)
    ensures U32(s, o) == v
  {
  }

  /** Writing what U32 read gives back the four bytes it read. */
  lemma LE32OfU32(s: seq<byte>, o: nat)
    requires o + 4 <= |s|
    ensures LE32(U32(s, o)) == s[o..o + 4]
  {
  }
}
