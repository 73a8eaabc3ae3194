/** Bitwise operators on unsigned words, and the address masks built from them
    (include/inetdevice.h, include/lib.h, include/ipv4.h). */
module Bits {
  import opened Words

  datatype Op = And | Or | Xor

  /** The operator on single bits. */
  function OnBits(op: Op, a: int, b: int): (r: int)
    ensures 0 <= r <= 1
  {
    match op
    case And => if a == 1 && b == 1 then 1 else 0
    case Or => if a == 1 || b == 1 then 1 else 0
    case Xor => if a == b then 0 else 1
  }

  /** The C operators `&`, `|` and `^` on unsigned operands of any width. */
  function Bitwise(op: Op, a: nat, b: nat): nat
    decreases a + b
  {
    if a == 0 && b == 0 then 0
    else OnBits(op, a % 2, b % 2) + 2 * Bitwise(op, a / 2, b / 2)
  }

  function Pow2(n: nat): (p: nat)
    ensures p >= 1
  {
    if n == 0 then 1 else 2 * Pow2(n - 1)
  }

  /** `x >> k` */
  function ShiftRight(x: nat, k: nat): nat
    decreases k
  {
    if k == 0 then x else ShiftRight(x / 2, k - 1)
  }

  /** Bit `k` of a word, counted from the least significant. */
  function BitOf(x: nat, k: nat): int {
    ShiftRight(x, k) % 2
  }

  // ---------- bitwise operators act field by field ----------

  /** The recursive step also holds at zero. */
  lemma BitwiseStep(op: Op, a: nat, b: nat)
    ensures Bitwise(op, a, b) == OnBits(op, a % 2, b % 2) + 2 * Bitwise(op, a / 2, b / 2)
  {
  }

  lemma {:induction false} BitwiseBound(op: Op, a: nat, b: nat, k: nat)
    requires a < Pow2(k) && b < Pow2(k)
    ensures Bitwise(op, a, b) < Pow2(k)
  {
    if k > 0 {
      BitwiseBound(op, a / 2, b / 2, k - 1);
    }
  }

  /** The word whose low `k` bits are those of `lo` and whose other bits are `hi`. */
  function Join(lo: nat, k: nat, hi: nat): nat
    decreases k
  {
    if k == 0 then hi else lo % 2 + 2 * Join(lo / 2, k - 1, hi)
  }

  lemma {:induction false} BitwiseJoin(op: Op, k: nat, a: nat, b: nat, hiA: nat, hiB: nat)
    ensures Bitwise(op, Join(a, k, hiA), Join(b, k, hiB)) == Join(Bitwise(op, a, b), k, Bitwise(op, hiA, hiB))
    decreases k
  {
    if k > 0 {
      var x, y := Join(a / 2, k - 1, hiA), Join(b / 2, k - 1, hiB);
      var ab, hi, digit := Bitwise(op, a / 2, b / 2), Bitwise(op, hiA, hiB), OnBits(op, a % 2, b % 2);
      calc {
        Bitwise(op, Join(a, k, hiA), Join(b, k, hiB));
        Bitwise(op, a % 2 + 2 * x, b % 2 + 2 * y);
        { BitwiseDigits(op, a % 2, x, b % 2, y); }
        digit + 2 * Bitwise(op, x, y);
        { BitwiseJoin(op, k - 1, a / 2, b / 2, hiA, hiB); }
        digit + 2 * Join(ab, k - 1, hi);
        { JoinDigits(digit, ab, k, hi); }
        Join(digit + 2 * ab, k, hi);
        { BitwiseStep(op, a, b); }
        Join(Bitwise(op, a, b), k, hi);
      }
    }
  }

  lemma BitwiseDigits(op: Op, a: int, x: nat, b: int, y: nat)
    requires 0 <= a <= 1 && 0 <= b <= 1
    ensures Bitwise(op, a + 2 * x, b + 2 * y) == OnBits(op, a, b) + 2 * Bitwise(op, x, y)
  {
    hide Bitwise;
    hide OnBits;
    var u, v := a + 2 * x, b + 2 * y;
    BitwiseStep(op, u, v);
    assert u % 2 == a && u / 2 == x && v % 2 == b && v / 2 == y;
  }

  lemma JoinDigits(digit: int, lo: nat, k: nat, hi: nat)
    requires 0 <= digit <= 1 && k > 0
    ensures Join(digit + 2 * lo, k, hi) == digit + 2 * Join(lo, k - 1, hi)
  {
  }

  lemma {:induction false} JoinValue(lo: nat, k: nat, hi: nat)
    requires lo < Pow2(k)
    ensures Join(lo, k, hi) == lo + Pow2(k) * hi
    decreases k
  {
    if k > 0 {
      JoinValue(lo / 2, k - 1, hi);
      DoubleProduct(Pow2(k - 1), hi);
    }
  }

  lemma DoubleProduct(p: nat, hi: nat)
    ensures 2 * p * hi == 2 * (p * hi)
  {
  }

  lemma BitwiseFields(op: Op, k: nat, p: nat, a: nat, b: nat, hiA: nat, hiB: nat)
    requires p == Pow2(k) && a < p && b < p
    ensures Bitwise(op, a + p * hiA, b + p * hiB) == Bitwise(op, a, b) + p * Bitwise(op, hiA, hiB)
  {
    BitwiseJoin(op, k, a, b, hiA, hiB);
    BitwiseBound(op, a, b, k);
    JoinValue(a, k, hiA);
    JoinValue(b, k, hiB);
    JoinValue(Bitwise(op, a, b), k, Bitwise(op, hiA, hiB));
  }

  lemma Pow2At(k: nat, p: nat)
    requires (k, p) in {(8, 0x100), (16, 0x1_0000), (32, 0x1_0000_0000)}
    ensures Pow2(k) == p
  {
    assert Pow2(8) == 0x100;
    assert Pow2(16) == 0x1_0000;
    assert Pow2(24) == 0x100_0000;
    assert Pow2(32) == 0x1_0000_0000;
  }

  function Bitwise8(op: Op, a: byte, b: byte): (r: byte)
    ensures r == Bitwise(op, a, b)
  {
    Pow2At(8, 0x100);
    BitwiseBound(op, a, b, 8);
    Bitwise(op, a, b)
  }

  function Bitwise16(op: Op, a: uint16, b: uint16): (r: uint16)
    ensures r == Bitwise(op, a, b)
  {
    Pow2At(16, 0x1_0000);
    BitwiseBound(op, a, b, 16);
    Bitwise(op, a, b)
  }

  function Bitwise32(op: Op, a: uint32, b: uint32): (r: uint32)
    ensures r == Bitwise(op, a, b)
  {
    Pow2At(32, 0x1_0000_0000);
    BitwiseBound(op, a, b, 32);
    Bitwise(op, a, b)
  }

  lemma BitwiseWord16(op: Op, a0: byte, a1: byte, b0: byte, b1: byte)
    ensures Bitwise16(op, Word16(a0, a1), Word16(b0, b1)) == Word16(Bitwise8(op, a0, b0), Bitwise8(op, a1, b1))
  {
    hide Bitwise;
    Pow2At(8, 0x100);
    BitwiseFields(op, 8, 0x100, a0, b0, a1, b1);
  }

  lemma BitwiseHalves(op: Op, a0: uint16, a1: uint16, b0: uint16, b1: uint16)
    ensures Bitwise32(op, Halves(a0, a1), Halves(b0, b1)) == Halves(Bitwise16(op, a0, b0), Bitwise16(op, a1, b1))
  {
    hide Bitwise;
    Pow2At(16, 0x1_0000);
    BitwiseFields(op, 16, 0x1_0000, a0, b0, a1, b1);
  }

  /** The operators commute with `htons`, hence with `htonl`. */
  lemma BitwiseHtons(op: Op, a: uint16, b: uint16)
    ensures Bitwise16(op, Htons(a), Htons(b)) == Htons(Bitwise16(op, a, b))
  {
    var a0, a1, b0, b1 := a % 0x100, a / 0x100, b % 0x100, b / 0x100;
    assert a == Word16(a0, a1) && b == Word16(b0, b1);
    BitwiseBytesSwapped(op, a0, a1, b0, b1);
  }

  lemma BitwiseBytesSwapped(op: Op, a0: byte, a1: byte, b0: byte, b1: byte)
    ensures Bitwise16(op, Htons(Word16(a0, a1)), Htons(Word16(b0, b1))) == Htons(Bitwise16(op, Word16(a0, a1), Word16(b0, b1)))
  {
    hide Htons;
    hide Word16;
    hide Bitwise8;
    hide Bitwise16;
    BitwiseWord16(op, a0, a1, b0, b1);
    BitwiseWord16(op, a1, a0, b1, b0);
    HtonsBytes(a0, a1);
    HtonsBytes(b0, b1);
    HtonsBytes(Bitwise8(op, a0, b0), Bitwise8(op, a1, b1));
  }

  lemma BitwiseHtonl(op: Op, a: uint32, b: uint32)
    ensures Bitwise32(op, Htonl(a), Htonl(b)) == Htonl(Bitwise32(op, a, b))
  {
    SplitHalves(a);
    SplitHalves(b);
    BitwiseHalvesSwapped(op, a % 0x1_0000, a / 0x1_0000, b % 0x1_0000, b / 0x1_0000);
  }

  lemma BitwiseHalvesSwapped(op: Op, a0: uint16, a1: uint16, b0: uint16, b1: uint16)
    ensures Bitwise32(op, Halves(Htons(a1), Htons(a0)), Halves(Htons(b1), Htons(b0))) ==
            Htonl(Bitwise32(op, Halves(a0, a1), Halves(b0, b1)))
  {
    hide Htons;
    hide Halves;
    hide Bitwise16;
    hide Bitwise32;
    HalvesOf(Bitwise16(op, a0, b0), Bitwise16(op, a1, b1));
    BitwiseHalves(op, a0, a1, b0, b1);
    BitwiseHalves(op, Htons(a1), Htons(a0), Htons(b1), Htons(b0));
    BitwiseHtons(op, a0, b0);
    BitwiseHtons(op, a1, b1);
  }

  // ---------- single bits ----------

  lemma Halved(digit: int, rest: nat)
    requires 0 <= digit <= 1
    ensures (digit + 2 * rest) % 2 == digit && (digit + 2 * rest) / 2 == rest
  {
  }

  lemma {:induction false} BitOfBitwise(op: Op, a: nat, b: nat, k: nat)
    ensures BitOf(Bitwise(op, a, b), k) == OnBits(op, BitOf(a, k), BitOf(b, k))
    decreases k
  {
    hide Bitwise;
    hide OnBits;
    BitwiseStep(op, a, b);
    Halved(OnBits(op, a % 2, b % 2), Bitwise(op, a / 2, b / 2));
    if k > 0 {
      BitOfBitwise(op, a / 2, b / 2, k - 1);
    }
  }

  lemma {:induction false} BitOfComplement(x: nat, w: nat, k: nat)
    requires x < Pow2(w) && k < w
    ensures BitOf(Pow2(w) - 1 - x, k) == 1 - BitOf(x, k)
    decreases k
  {
    if k > 0 {
      BitOfComplement(x / 2, w - 1, k - 1);
      assert (Pow2(w) - 1 - x) / 2 == Pow2(w - 1) - 1 - x / 2;
    }
  }

  lemma {:induction false} BitOfOnes(n: nat, k: nat)
    ensures BitOf(Pow2(n) - 1, k) == if k < n then 1 else 0
    decreases k
  {
    if k > 0 && n > 0 {
      BitOfOnes(n - 1, k - 1);
    } else if n == 0 && k > 0 {
      BitOfOnes(0, k - 1);
    }
  }

  /** A word of `w` bits is determined by them. */
  lemma {:induction false} BitsDetermine(x: nat, y: nat, w: nat)
    requires x < Pow2(w) && y < Pow2(w)
    requires forall k :: 0 <= k < w ==> BitOf(x, k) == BitOf(y, k)
    ensures x == y
    decreases w
  {
    if w > 0 {
      assert BitOf(x, 0) == BitOf(y, 0);
      forall k | 0 <= k < w - 1 ensures BitOf(x / 2, k) == BitOf(y / 2, k) {
        assert BitOf(x, k + 1) == BitOf(y, k + 1);
      }
      BitsDetermine(x / 2, y / 2, w - 1);
    }
  }

  lemma {:induction false} XorZero(a: nat, b: nat)
    ensures Bitwise(Xor, a, b) == 0 <==> a == b
    decreases a + b
  {
    if a != 0 || b != 0 {
      XorZero(a / 2, b / 2);
    }
  }

  lemma {:induction false} OrIsZero(a: nat, b: nat)
    ensures Bitwise(Or, a, b) == 0 <==> a == 0 && b == 0
    decreases a + b
  {
    if a != 0 || b != 0 {
      OrIsZero(a / 2, b / 2);
    }
  }

  // ---------- prefixes of Internet addresses ----------

  /** Bit `k` of the number an address denotes; bit 31 goes first over the wire. */
  function AddrBit(a: uint32, k: nat): int {
    BitOf(Htonl(a), k)
  }

  ghost predicate SameLeadingBits(a: uint32, b: uint32, z: nat)
    requires z <= 32
  {
    forall k :: 32 - z <= k < 32 ==> AddrBit(a, k) == AddrBit(b, k)
  }

  /** The first `z` bits of an address, in the order they go over the wire. */
  ghost function LeadingBits(a: uint32, z: nat): seq<int>
    requires z <= 32
  {
    seq(z, i requires 0 <= i < z => AddrBit(a, 31 - i))
  }

  lemma SameLeadingBitsIff(a: uint32, b: uint32, z: nat)
    requires z <= 32
    ensures LeadingBits(a, z) == LeadingBits(b, z) <==> SameLeadingBits(a, b, z)
  {
    if LeadingBits(a, z) == LeadingBits(b, z) {
      forall k | 32 - z <= k < 32 ensures AddrBit(a, k) == AddrBit(b, k) {
        assert LeadingBits(a, z)[31 - k] == LeadingBits(b, z)[31 - k];
      }
    }
  }

  /** `n` consists of the first `z` bits of `a` followed by copies of the bit `fill`. */
  ghost predicate PrefixThen(n: uint32, a: uint32, z: nat, fill: int)
    requires z <= 32
  {
    forall k :: 0 <= k < 32 ==> AddrBit(n, k) == if k >= 32 - z then AddrBit(a, k) else fill
  }

  lemma HostBitsDetermine(x: uint32, y: uint32, w: nat)
    requires w == 32 && forall k :: 0 <= k < w ==> BitOf(x, k) == BitOf(y, k)
    ensures x == y
  {
    Pow2At(32, 0x1_0000_0000);
    BitsDetermine(x, y, w);
  }

  lemma AddrBitsDetermine(a: uint32, b: uint32)
    requires SameLeadingBits(a, b, 32)
    ensures a == b
  {
    assert Htonl(a) == Htonl(b) by {
      forall k | 0 <= k < 32 ensures BitOf(Htonl(a), k) == BitOf(Htonl(b), k) {
        assert AddrBit(a, k) == AddrBit(b, k);
      }
      HostBitsDetermine(Htonl(a), Htonl(b), 32);
    }
    HtonlInvolutive(a);
    HtonlInvolutive(b);
  }

  /** `~x` on 32 bits. */
  function Not32(x: uint32): uint32 {
    0xffff_ffff - x
  }

  lemma HtonlNot(a: uint32)
    ensures Htonl(Not32(a)) == Not32(Htonl(a))
  {
    hide Htonl;
    hide Le32;
    var s := Le32(a);
    HtonlBytes(s[0], s[1], s[2], s[3]);
    HtonlBytes(0xff - s[0], 0xff - s[1], 0xff - s[2], 0xff - s[3]);
  }

  lemma BitOfNot(x: uint32, w: nat, k: nat)
    requires k < w == 32
    ensures BitOf(Not32(x), k) == 1 - BitOf(x, k)
  {
    Pow2At(32, 0x1_0000_0000);
    BitOfComplement(x, w, k);
  }

  /** `inet_make_mask`. Length 0 would shift a 32-bit int by 32, which C leaves undefined. */
  function InetMakeMask(z: nat): uint32
    requires 1 <= z <= 32
  {
    Pow2Bound(32 - z);
    Htonl(Not32(Pow2(32 - z) - 1))
  }

  lemma {:induction false} Pow2Bound(n: nat)
    requires n <= 32
    ensures Pow2(n) <= 0x1_0000_0000
    decreases 32 - n
  {
    if n == 32 {
      Pow2At(32, 0x1_0000_0000);
    } else {
      Pow2Bound(n + 1);
    }
  }

  /** `m` masks the first `z` bits of an address. */
  ghost predicate IsMask(m: uint32, z: nat) {
    forall k :: 0 <= k < 32 ==> AddrBit(m, k) == if k >= 32 - z then 1 else 0
  }

  lemma AddrBitOfHtonl(x: uint32, k: nat)
    ensures AddrBit(Htonl(x), k) == BitOf(x, k)
  {
    HtonlInvolutive(x);
  }

  lemma HostMaskBit(n: nat, k: nat)
    requires n <= 32 && k < 32
    ensures Pow2(n) <= 0x1_0000_0000 && BitOf(Not32(Pow2(n) - 1), k) == if k >= n then 1 else 0
  {
    Pow2Bound(n);
    BitOfNot(Pow2(n) - 1, 32, k);
    BitOfOnes(n, k);
  }

  lemma InetMakeMaskIsMask(z: nat)
    requires 1 <= z <= 32
    ensures IsMask(InetMakeMask(z), z)
  {
    hide Htonl;
    hide AddrBit;
    hide BitOf;
    var m := InetMakeMask(z);
    forall k | 0 <= k < 32 ensures AddrBit(m, k) == if k >= 32 - z then 1 else 0 {
      HostMaskBit(32 - z, k);
      AddrBitOfHtonl(Not32(Pow2(32 - z) - 1), k);
    }
  }

  lemma MaskedBits(a: uint32, m: uint32, z: nat)
    requires z <= 32 && IsMask(m, z)
    ensures PrefixThen(Bitwise32(And, a, m), a, z, 0)
  {
    hide Htonl;
    hide Bitwise;
    var n := Bitwise32(And, a, m);
    BitwiseHtonl(And, a, m);
    forall k | 0 <= k < 32 ensures AddrBit(n, k) == if k >= 32 - z then AddrBit(a, k) else 0 {
      BitOfBitwise(And, Htonl(a), Htonl(m), k);
      assert AddrBit(m, k) == BitOf(Htonl(m), k);
    }
  }

  lemma FilledBits(network: uint32, a: uint32, m: uint32, z: nat)
    requires z <= 32 && IsMask(m, z) && PrefixThen(network, a, z, 0)
    ensures PrefixThen(Bitwise32(Or, network, Not32(m)), a, z, 1)
  {
    hide Htonl;
    hide Bitwise;
    var n := Bitwise32(Or, network, Not32(m));
    BitwiseHtonl(Or, network, Not32(m));
    HtonlNot(m);
    forall k | 0 <= k < 32 ensures AddrBit(n, k) == if k >= 32 - z then AddrBit(a, k) else 1 {
      BitOfBitwise(Or, Htonl(network), Htonl(Not32(m)), k);
      BitOfNot(Htonl(m), 32, k);
      assert AddrBit(m, k) == BitOf(Htonl(m), k) && AddrBit(network, k) == BitOf(Htonl(network), k);
    }
  }

  lemma PrefixThenDetermines(m: uint32, n: uint32, a: uint32, z: nat, fill: int)
    requires z <= 32 && PrefixThen(m, a, z, fill) && PrefixThen(n, a, z, fill)
    ensures m == n
  {
    AddrBitsDetermine(m, n);
  }

  /** Although both words lie byte-swapped in memory, comparing masked words compares exactly the first
      `z` bits of the addresses. */
  lemma MaskComparesPrefix(a: uint32, b: uint32, m: uint32, z: nat)
    requires z <= 32 && IsMask(m, z)
    ensures Bitwise32(And, a, m) == Bitwise32(And, b, m) <==> LeadingBits(a, z) == LeadingBits(b, z)
  {
    SameLeadingBitsIff(a, b, z);
    var p, q := Bitwise32(And, a, m), Bitwise32(And, b, m);
    MaskedBits(a, m, z);
    MaskedBits(b, m, z);
    if p == q {
      forall k | 32 - z <= k < 32 ensures AddrBit(a, k) == AddrBit(b, k) {
        assert AddrBit(p, k) == AddrBit(q, k);
      }
    } else if SameLeadingBits(a, b, z) {
      AddrBitsDetermine(p, q);
    }
  }

  /** `a & mask` is the network address of `a`: its prefix, then zeros. */
  lemma NetworkAddress(n: uint32, a: uint32, m: uint32, z: nat)
    requires z <= 32 && IsMask(m, z)
    ensures n == Bitwise32(And, a, m) <==> PrefixThen(n, a, z, 0)
  {
    MaskedBits(a, m, z);
    if PrefixThen(n, a, z, 0) {
      PrefixThenDetermines(n, Bitwise32(And, a, m), a, z, 0);
    }
  }

  /** `(a & mask) | ~mask` is the broadcast address: the prefix, then ones. */
  lemma BroadcastAddress(n: uint32, a: uint32, m: uint32, z: nat)
    requires z <= 32 && IsMask(m, z)
    ensures n == Bitwise32(Or, Bitwise32(And, a, m), Not32(m)) <==> PrefixThen(n, a, z, 1)
  {
    MaskedBits(a, m, z);
    FilledBits(Bitwise32(And, a, m), a, m, z);
    if PrefixThen(n, a, z, 1) {
      PrefixThenDetermines(n, Bitwise32(Or, Bitwise32(And, a, m), Not32(m)), a, z, 1);
    }
  }

  // ---------- masks of whole and half bytes ----------

  lemma {:induction false} AndZero(x: nat)
    ensures Bitwise(And, x, 0) == 0
  {
    if x > 0 {
      AndZero(x / 2);
    }
  }

  lemma {:induction false} ZeroAnd(x: nat)
    ensures Bitwise(And, 0, x) == 0
  {
    if x > 0 {
      ZeroAnd(x / 2);
    }
  }

  lemma {:induction false} AndOnes(x: nat, n: nat)
    requires x < Pow2(n)
    ensures Bitwise(And, x, Pow2(n) - 1) == x
  {
    if n > 0 {
      AndOnes(x / 2, n - 1);
    }
  }

  lemma AndLowByte(b: nat, hi: nat, mask: nat)
    requires b < 0x100 && mask < 0x100
    ensures Bitwise(And, b + 0x100 * hi, mask) == Bitwise(And, b, mask)
  {
    Pow2At(8, 0x100);
    BitwiseFields(And, 8, 0x100, b, mask, hi, 0);
    AndZero(hi);
  }

  lemma AndUpperHalf(lo: nat, hi: nat)
    requires lo < 0x10 && hi < 0x10
    ensures Bitwise(And, lo + 0x10 * hi, 0xf0) == 0x10 * hi
  {
    hide Bitwise;
    assert Pow2(4) == 0x10;
    BitwiseFields(And, 4, 0x10, lo, 0, hi, 0xf);
    AndZero(lo);
    AndOnes(hi, 4);
  }

  /** Masking the first byte of an address, or its upper half */
  lemma AndFirstByte(a: uint32)
    ensures Bitwise32(And, a, 0xff) == a % 0x100
    ensures Bitwise32(And, a, 0xf0) == 0x10 * (a % 0x100 / 0x10)
  {
    hide Bitwise;
    var b := a % 0x100;
    AndLowByte(b, a / 0x100, 0xff);
    AndLowByte(b, a / 0x100, 0xf0);
    Pow2At(8, 0x100);
    AndOnes(b, 8);
    AndUpperHalf(b % 0x10, b / 0x10);
  }
}
