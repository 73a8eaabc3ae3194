/** Machine words and byte order (include/lib.h, include/types.h).

    Integers are mathematical; the widths of the C types are carried by subset types and every
    wrap-around is written out. The host is little-endian, as the constants of include/if.h assume, so
    a C integer occupies memory as its little-endian bytes.
 */
module Words {

  type byte = x: int | 0 <= x < 0x100
  type uint16 = x: int | 0 <= x < 0x1_0000
  type uint32 = x: int | 0 <= x < 0x1_0000_0000

  type Bytes = seq<byte>

  /** The 16-bit word of which `lo` is the first byte in memory. */
  function Word16(lo: byte, hi: byte): uint16 {
    lo + 0x100 * hi
  }

  /** The 32-bit word of which `lo` is the first half in memory. */
  function Halves(lo: uint16, hi: uint16): uint32 {
    lo + 0x1_0000 * hi
  }

  lemma BytesOfWord16(lo: byte, hi: byte)
    ensures Word16(lo, hi) % 0x100 == lo && Word16(lo, hi) / 0x100 == hi
  {
  }

  lemma Word16Same(lo: byte, hi: byte, lo': byte, hi': byte)
    ensures Word16(lo, hi) == Word16(lo', hi') <==> lo == lo' && hi == hi'
  {
    BytesOfWord16(lo, hi);
    BytesOfWord16(lo', hi');
  }

  lemma HalvesOf(lo: uint16, hi: uint16)
    ensures Halves(lo, hi) % 0x1_0000 == lo && Halves(lo, hi) / 0x1_0000 == hi
  {
  }

  function Word32(b0: byte, b1: byte, b2: byte, b3: byte): uint32 {
    Halves(Word16(b0, b1), Word16(b2, b3))
  }

  /** `htons`, and its inverse `ntohs`: exchanges the two bytes of a 16-bit word. */
  function Htons(x: uint16): uint16 {
    Word16(x / 0x100, x % 0x100)
  }

  /** `htonl`, and its inverse `ntohl`: reverses the four bytes of a 32-bit word. */
  function Htonl(x: uint32): uint32 {
    Halves(Htons(x / 0x1_0000), Htons(x % 0x1_0000))
  }

  /** A 16-bit word as it lies in memory. */
  function Le16(x: uint16): (s: Bytes)
    ensures |s| == 2 && Word16(s[0], s[1]) == x
  {
    [x % 0x100, x / 0x100]
  }

  /** A 16-bit host-order number in network order. */
  function Be16(x: uint16): (s: Bytes)
    ensures |s| == 2 && Word16(s[1], s[0]) == x
  {
    [x / 0x100, x % 0x100]
  }

  /** Which is how the swapped word lies in memory */
  lemma NetworkOrder(x: uint16)
    ensures Be16(x) == Le16(Htons(x))
  {
    BytesOfWord16(x / 0x100, x % 0x100);
  }

  /** A 32-bit word as it lies in memory. Internet addresses are held as such words. */
  function Le32(x: uint32): (s: Bytes)
    ensures |s| == 4 && Word32(s[0], s[1], s[2], s[3]) == x
  {
    Le16(x % 0x1_0000) + Le16(x / 0x1_0000)
  }

  function U16At(s: Bytes, i: nat): uint16
    requires i + 2 <= |s|
  {
    Word16(s[i], s[i + 1])
  }

  function U32At(s: Bytes, i: nat): uint32
    requires i + 4 <= |s|
  {
    Word32(s[i], s[i + 1], s[i + 2], s[i + 3])
  }

  lemma U32AtSlice(s: Bytes, i: nat, x: uint32)
    requires i + 4 <= |s| && s[i..i + 4] == Le32(x)
    ensures U32At(s, i) == x
  {
    var t := s[i..i + 4];
    assert t[0] == s[i] && t[1] == s[i + 1] && t[2] == s[i + 2] && t[3] == s[i + 3];
  }

  lemma Le16OfWord16(lo: byte, hi: byte)
    ensures Le16(Word16(lo, hi)) == [lo, hi]
  {
    BytesOfWord16(lo, hi);
  }

  /** A word read from memory lies there. */
  lemma Le32OfU32At(s: Bytes, i: nat)
    requires i + 4 <= |s|
    ensures Le32(U32At(s, i)) == s[i..i + 4]
  {
    hide Word16;
    hide Le16;
    Le16OfWord16(s[i], s[i + 1]);
    Le16OfWord16(s[i + 2], s[i + 3]);
    HalvesOf(Word16(s[i], s[i + 1]), Word16(s[i + 2], s[i + 3]));
    assert s[i..i + 4] == [s[i], s[i + 1]] + [s[i + 2], s[i + 3]];
  }

  lemma SplitHalves(x: uint32)
    ensures Halves(x % 0x1_0000, x / 0x1_0000) == x
  {
  }

  lemma HtonsBytes(lo: byte, hi: byte)
    ensures Htons(Word16(lo, hi)) == Word16(hi, lo)
  {
    BytesOfWord16(lo, hi);
  }

  lemma HtonsInvolutive(x: uint16)
    ensures Htons(Htons(x)) == x
  {
    BytesOfWord16(x / 0x100, x % 0x100);
  }

  lemma HtonsIff(w: uint16, x: uint16)
    ensures w == Htons(x) <==> Htons(w) == x
  {
    HtonsInvolutive(w);
    HtonsInvolutive(x);
  }

  lemma HtonlBytes(b0: byte, b1: byte, b2: byte, b3: byte)
    ensures Htonl(Word32(b0, b1, b2, b3)) == Word32(b3, b2, b1, b0)
  {
    BytesOfWord16(b0, b1);
    BytesOfWord16(b2, b3);
    HalvesOf(Word16(b0, b1), Word16(b2, b3));
  }

  lemma HtonlInvolutive(x: uint32)
    ensures Htonl(Htonl(x)) == x
  {
    var s := Le32(x);
    HtonlBytes(s[0], s[1], s[2], s[3]);
    HtonlBytes(s[3], s[2], s[1], s[0]);
  }
}
