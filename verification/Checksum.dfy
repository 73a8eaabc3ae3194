/** The Internet checksum (core/checksum.c), related to sections 1 and 2 of RFC 1071. */
module Checksum {
  import opened Words

  const WRAP: int := 0x1_0000_0000

  /** The plain sum of the 16-bit words of a buffer as the host reads them: little-endian, an odd
      trailing byte being the low byte of a last word. */
  ghost function Sum(s: Bytes): nat {
    if |s| == 0 then 0
    else if |s| == 1 then s[0]
    else Word16(s[0], s[1]) + Sum(s[2..])
  }

  /** The same sum in network order, the reading RFC 1071 and RFC 791 define: an odd trailing byte is
      padded on the right with zero. */
  ghost function NetworkSum(s: Bytes): nat {
    if |s| == 0 then 0
    else if |s| == 1 then Word16(0, s[0])
    else Word16(s[1], s[0]) + NetworkSum(s[2..])
  }

  /** The one's complement sum of words adding up to `n`: the representative of `n` modulo 65535 that
      end-around carry produces, which is 0 only for 0 itself. */
  function OnesSum(n: nat): uint16 {
    if n == 0 then 0 else (n - 1) % 0xffff + 1
  }

  /** The checksum of RFC 1071, as a word in host memory. */
  ghost function InternetChecksum(s: Bytes): uint16 {
    0xffff - OnesSum(Sum(s))
  }

  // ---------- the arithmetic of end-around carry ----------

  /** `OnesSum` is characterised by congruence modulo 65535 and its choice of representative. */
  lemma OnesSumUnique(n: nat, q: int, f: int)
    requires n == 0xffff * q + f && 0 <= f <= 0xffff && (f == 0 <==> n == 0)
    ensures OnesSum(n) == f
  {
    if n != 0 {
      assert n - 1 == 0xffff * q + (f - 1);
    }
  }

  lemma OnesSumQuotient(n: nat) returns (q: nat)
    ensures n == 0xffff * q + OnesSum(n) && (OnesSum(n) == 0 <==> n == 0)
  {
    q := if n == 0 then 0 else (n - 1) / 0xffff;
  }

  /** A finished one's complement sum can be continued: carries already folded in do no harm. */
  lemma OnesSumContinues(a: nat, b: nat)
    ensures OnesSum(OnesSum(a) + b) == OnesSum(a + b)
  {
    var q := OnesSumQuotient(a);
    var r := OnesSumQuotient(OnesSum(a) + b);
    OnesSumUnique(a + b, q + r, OnesSum(OnesSum(a) + b));
  }

  /** 16-bit addition with end-around carry, as section 1 of RFC 1071 defines it */
  function AddCarry(a: uint16, b: uint16): uint16 {
    if a + b < 0x1_0000 then a + b else a + b - 0xffff
  }

  /** The words of a buffer added one by one to a running sum, every carry brought round at once */
  ghost function CarrySum(sum: uint16, s: Bytes): uint16
    decreases |s|
  {
    if |s| == 0 then sum
    else if |s| == 1 then AddCarry(sum, s[0])
    else CarrySum(AddCarry(sum, Word16(s[0], s[1])), s[2..])
  }

  lemma AddCarryContinues(n: nat, w: uint16)
    ensures AddCarry(OnesSum(n), w) == OnesSum(n + w)
  {
    var q := OnesSumQuotient(n);
    if OnesSum(n) + w < 0x1_0000 {
      OnesSumUnique(n + w, q, OnesSum(n) + w);
    } else {
      OnesSumUnique(n + w, q + 1, OnesSum(n) + w - 0xffff);
    }
  }

  /** The closed form is that sum: carries may be brought round at once or all at the end. */
  lemma {:induction false} OnesSumIsCarrySum(n: nat, s: Bytes)
    ensures CarrySum(OnesSum(n), s) == OnesSum(n + Sum(s))
    decreases |s|
  {
    hide OnesSum;
    if |s| == 1 {
      AddCarryContinues(n, s[0]);
    } else if |s| > 1 {
      AddCarryContinues(n, Word16(s[0], s[1]));
      OnesSumIsCarrySum(n + Word16(s[0], s[1]), s[2..]);
    }
  }

  /** Hence the checksum is the complement of the sum RFC 1071 describes. */
  lemma ChecksumByCarries(s: Bytes)
    ensures InternetChecksum(s) == 0xffff - CarrySum(0, s)
  {
    OnesSumIsCarrySum(0, s);
  }

  /** One fold, `(c >> 16) + (c & 0xffff)`. */
  function Fold(c: uint32): uint32 {
    c / 0x1_0000 + c % 0x1_0000
  }

  /** Two folds of a 32-bit accumulator always suffice: no carry is left in the low half. */
  lemma TwoFolds(c: uint32)
    ensures var once := Fold(c); once + once / 0x1_0000 < WRAP
    ensures var once := Fold(c); (once + once / 0x1_0000) % 0x1_0000 == OnesSum(c)
  {
    var once := Fold(c);
    var hi := c / 0x1_0000;
    assert c == 0x1_0000 * hi + c % 0x1_0000;
    if once < 0x1_0000 {
      OnesSumUnique(c, hi, once);
    } else {
      OnesSumUnique(c, hi + 1, once - 0xffff);
    }
  }

  // ---------- the sum of a buffer ----------

  lemma {:induction false} SumAppend(a: Bytes, b: Bytes)
    requires |a| % 2 == 0
    ensures Sum(a + b) == Sum(a) + Sum(b)
  {
    if a == [] {
      assert a + b == b;
    } else {
      SumAppend(a[2..], b);
      assert (a + b)[2..] == a[2..] + b;
    }
  }

  lemma SumLe16(x: uint16)
    ensures Sum(Le16(x)) == x
  {
    assert Le16(x)[2..] == [];
  }

  lemma SumLe32(x: uint32)
    ensures Sum(Le32(x)) == HalfSum(x)
  {
    SumAppend(Le16(x % 0x1_0000), Le16(x / 0x1_0000));
    SumLe16(x % 0x1_0000);
    SumLe16(x / 0x1_0000);
  }

  lemma {:induction false} SumBound(s: Bytes)
    ensures Sum(s) <= 0xffff * ((|s| + 1) / 2)
  {
    if |s| >= 2 {
      SumBound(s[2..]);
    }
  }

  /** Storing a word over a zeroed, word-aligned field adds exactly that word. */
  lemma {:induction false} SumStore(s: Bytes, k: nat, w: uint16)
    requires k % 2 == 0 && k + 2 <= |s| && s[k] == 0 && s[k + 1] == 0
    ensures Sum(Store16(s, k, w)) == Sum(s) + w
  {
    hide Le16;
    var t := Store16(s, k, w);
    if k == 0 {
      assert t[2..] == s[2..];
    } else {
      SumStore(s[2..], k - 2, w);
      assert t[2..] == Store16(s[2..], k - 2, w);
    }
  }

  /** A buffer with the 16-bit word `w` stored at offset `k`. */
  ghost function Store16(s: Bytes, k: nat, w: uint16): (t: Bytes)
    requires k + 2 <= |s|
    ensures |t| == |s|
  {
    s[..k] + Le16(w) + s[k + 2..]
  }

  lemma Replace(before: Bytes, x: Bytes, y: Bytes, after: Bytes)
    requires |x| == |y|
    ensures var s := before + x + after; s[..|before|] + y + s[|before| + |x|..] == before + y + after
  {
  }

  lemma StoreField(before: Bytes, after: Bytes, w: uint16)
    ensures Store16(before + Le16(0) + after, |before|, w) == before + Le16(w) + after
  {
    Replace(before, Le16(0), Le16(w), after);
  }

  /** 32-bit addition, which wraps around, and the carry it loses. */
  function Add32(a: uint32, b: uint32): (c: uint32)
    ensures c + WRAP * Carry(a, b) == a + b
  {
    if a + b < WRAP then a + b else a + b - WRAP
  }

  function Carry(a: uint32, b: uint32): nat {
    if a + b < WRAP then 0 else 1
  }

  lemma Remainder(n: nat, c: uint32, carries: nat)
    requires n == c + WRAP * carries
    ensures n % WRAP == c && (n < WRAP ==> n == c)
  {
  }

  // ---------- the operations of core/checksum.c ----------

  /** The end of both functions: two folds, then the complement of the low half. */
  method Finish(sum: uint32) returns (r: uint16)
    ensures r == 0xffff - OnesSum(sum)
  {
    TwoFolds(sum);
    var cksum := Fold(sum);
    cksum := cksum + cksum / 0x1_0000;
    r := 0xffff - cksum % 0x1_0000;
  }

  /** `checksum`: the accumulator is 32 bits wide and wraps around. */
  method Checksum(buff: Bytes) returns (r: uint16)
    ensures r == 0xffff - OnesSum(Sum(buff) % WRAP)
    ensures Sum(buff) < WRAP ==> r == InternetChecksum(buff)
  {
    var cksum: uint32 := 0;
    var i, size := 0, |buff|;
    ghost var carries: nat := 0;
    while size > 1
      invariant i + size == |buff| && size >= 0
      invariant cksum + WRAP * carries + Sum(buff[i..]) == Sum(buff)
    {
      assert buff[i..][2..] == buff[i + 2..];
      carries := carries + Carry(cksum, Word16(buff[i], buff[i + 1]));
      cksum := Add32(cksum, Word16(buff[i], buff[i + 1]));
      i, size := i + 2, size - 2;
    }
    if size == 1 {
      assert Htons(Word16(0, buff[i])) == Sum(buff[i..]);
      carries := carries + Carry(cksum, Htons(Word16(0, buff[i])));
      cksum := Add32(cksum, Htons(Word16(0, buff[i])));
    }
    Remainder(Sum(buff), cksum, carries);
    r := Finish(cksum);
  }

  /** The 12-byte pseudo-header of RFC 768: addresses, zero and protocol, length. The length is given
      as the word stored in the UDP header. */
  function PseudoHeader(saddr: uint32, daddr: uint32, len: uint16, proto: uint16): (s: Bytes)
    ensures |s| == 12
  {
    Le32(saddr) + Le32(daddr) + Be16(proto) + Le16(len)
  }

  lemma SumAppend4(a: Bytes, b: Bytes, c: Bytes, d: Bytes)
    requires |a| == 4 && |b| == 4 && |c| == 2
    ensures Sum(a + b + c + d) == Sum(a) + Sum(b) + Sum(c) + Sum(d)
  {
    SumAppend(a + b + c, d);
    SumAppend(a + b, c);
    SumAppend(a, b);
  }

  /** The two halves of an address, added up. */
  function HalfSum(x: uint32): nat {
    x % 0x1_0000 + x / 0x1_0000
  }

  lemma PseudoHeaderSum(saddr: uint32, daddr: uint32, len: uint16, proto: uint16)
    ensures Sum(PseudoHeader(saddr, daddr, len, proto)) == HalfSum(saddr) + HalfSum(daddr) + len + Htons(proto)
  {
    SumAppend4(Le32(saddr), Le32(daddr), Be16(proto), Le16(len));
    SumLe32(saddr);
    SumLe32(daddr);
    SumLe16(Htons(proto));
    SumLe16(len);
  }

  /** `csum_tcpudp_magic`: continues a finished checksum over the pseudo-header. No step can wrap. */
  method CsumTcpudpMagic(saddr: uint32, daddr: uint32, len: uint16, proto: uint16, sum: uint16)
    returns (r: uint16)
    ensures r == 0xffff - OnesSum(0xffff - sum + Sum(PseudoHeader(saddr, daddr, len, proto)))
  {
    PseudoHeaderSum(saddr, daddr, len, proto);
    var cksum: uint32 := 0xffff - sum;
    cksum := cksum + saddr % 0x1_0000 + saddr / 0x1_0000;
    cksum := cksum + daddr % 0x1_0000 + daddr / 0x1_0000;
    cksum := cksum + len + Htons(proto);
    r := Finish(cksum);
  }

  // ---------- what the checksum is for ----------

  /** Losing fewer than 65535 carries, but some, always changes the one's complement sum. */
  lemma LostCarriesShow(kept: uint32, lost: nat)
    requires 0 < lost < 0xffff
    ensures OnesSum(kept) != OnesSum(kept + WRAP * lost)
  {
    var q := OnesSumQuotient(kept + WRAP * lost);
    var r := OnesSumQuotient(kept);
    assert OnesSum(kept + WRAP * lost) - OnesSum(kept) == lost - 0xffff * (q - r - 0x1_0001 * lost);
  }

  /** For every size a C int can hold, the 32-bit accumulator yields the checksum of RFC 1071 exactly
      when the plain sum does not overflow it; 131074 bytes never do. */
  lemma ExactIffNoOverflow(s: Bytes)
    requires |s| < 0x8000_0000
    ensures 0xffff - OnesSum(Sum(s) % WRAP) == InternetChecksum(s) <==> Sum(s) < WRAP
    ensures |s| <= 131074 ==> Sum(s) < WRAP
  {
    SumBound(s);
    var n := Sum(s);
    if n < WRAP {
      Remainder(n, n, 0);
    } else {
      var lost := n / WRAP;
      Remainder(n, n - WRAP * lost, lost);
      LostCarriesShow(n % WRAP, lost);
    }
  }

  /** The pseudo-header form is exact, not merely congruent: continuing from the checksum of a segment
      of any length gives the checksum of pseudo-header and segment together. */
  lemma PseudoHeaderExact(saddr: uint32, daddr: uint32, len: uint16, proto: uint16, segment: Bytes)
    ensures 0xffff - OnesSum(0xffff - InternetChecksum(segment) + Sum(PseudoHeader(saddr, daddr, len, proto)))
            == InternetChecksum(PseudoHeader(saddr, daddr, len, proto) + segment)
  {
    hide OnesSum;
    hide Sum;
    var pseudo := PseudoHeader(saddr, daddr, len, proto);
    OnesSumContinues(Sum(segment), Sum(pseudo));
    SumAppend(pseudo, segment);
  }

  /** Generate, then verify: once the checksum of a buffer is stored in its zeroed check field, the
      buffer sums to all ones. */
  lemma GenerateThenVerify(s: Bytes, k: nat)
    requires k % 2 == 0 && k + 2 <= |s| && s[k] == 0 && s[k + 1] == 0
    ensures InternetChecksum(Store16(s, k, InternetChecksum(s))) == 0
  {
    var c := InternetChecksum(s);
    SumStore(s, k, c);
    var q := OnesSumQuotient(Sum(s));
    OnesSumUnique(Sum(s) + c, q, 0xffff);
  }

  lemma NetworkOnesSum(s: Bytes)
    ensures OnesSum(NetworkSum(s)) == Htons(OnesSum(Sum(s)))
  {
    var k := SwapQuotient(s);
    var q := OnesSumQuotient(Sum(s));
    var f := OnesSum(Sum(s));
    SwapWord(f);
    SwappedRepresentative(Sum(s), NetworkSum(s), k, q, f, f / 0x100, Htons(f));
  }

  lemma SwappedRepresentative(sum: nat, net: nat, k: int, q: int, f: int, hi: int, g: int)
    requires 0x100 * sum == net + 0xffff * k && sum == 0xffff * q + f && 0x100 * f == 0xffff * hi + g
    requires 0 <= g <= 0xffff && (sum == 0 <==> net == 0) && (f == 0 <==> sum == 0) && (g == 0 <==> f == 0)
    ensures OnesSum(net) == g
  {
    OnesSumUnique(net, 0x100 * q + hi - k, g);
  }

  /** Byte-order independence (section 2(B) of RFC 1071): summing little-endian words and storing the
      result little-endian leaves the two bytes that the network-order definition prescribes. */
  lemma ByteOrderIndependent(s: Bytes)
    ensures Le16(InternetChecksum(s)) == Be16(0xffff - OnesSum(NetworkSum(s)))
  {
    NetworkOnesSum(s);
    var f := OnesSum(Sum(s));
    SwapWord(f);
    HtonsInvolutive(0xffff - f);
  }

  /** A buffer passes verification exactly when its network-order sum is all ones, as RFC 1071 asks. */
  lemma VerifiesIffAllOnes(s: Bytes)
    ensures InternetChecksum(s) == 0 <==> OnesSum(NetworkSum(s)) == 0xffff
  {
    NetworkOnesSum(s);
    HtonsInvolutive(OnesSum(Sum(s)));
    assert Htons(0xffff) == 0xffff;
  }

  /** Swapping the bytes of a word multiplies it by 256, modulo 65535, and commutes with complement. */
  lemma SwapWord(f: int)
    requires 0 <= f <= 0xffff
    ensures 0x100 * f == 0xffff * (f / 0x100) + Htons(f) && (Htons(f) == 0 <==> f == 0)
    ensures Htons(0xffff - f) == 0xffff - Htons(f)
  {
    var hi, lo := f / 0x100, f % 0x100;
    assert f == 0x100 * hi + lo;
    assert 0xffff - f == Word16(0xff - lo, 0xff - hi);
  }

  /** Swapping the bytes of every word multiplies the sum by 256, modulo 65535. */
  lemma {:induction false} SwapQuotient(s: Bytes) returns (k: nat)
    ensures 0x100 * Sum(s) == NetworkSum(s) + 0xffff * k
    ensures Sum(s) == 0 <==> NetworkSum(s) == 0
  {
    if |s| < 2 {
      k := 0;
    } else {
      k := SwapQuotient(s[2..]);
      k := k + s[1];
    }
  }
}
