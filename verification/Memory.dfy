/** Writing bytes into a buffer in place. */
module Memory {
  import opened Words

  /** The contents of a buffer after `bytes` were written at offset `off`. */
  ghost function Written(s: Bytes, off: nat, bytes: Bytes): (t: Bytes)
    requires off + |bytes| <= |s|
    ensures |t| == |s|
  {
    s[..off] + bytes + s[off + |bytes|..]
  }

  /** `memcpy` into a buffer */
  method Memcpy(buf: array<byte>, off: nat, bytes: Bytes)
    requires off + |bytes| <= buf.Length
    modifies buf
    ensures buf[..] == Written(old(buf[..]), off, bytes)
  {
    var i := 0;
    while i < |bytes|
      invariant i <= |bytes|
      invariant forall k :: 0 <= k < buf.Length ==>
                  buf[k] == if off <= k < off + i then bytes[k - off] else old(buf[k])
    {
      buf[off + i] := bytes[i];
      i := i + 1;
    }
  }

  /** A 16-bit store */
  method StoreWord(buf: array<byte>, off: nat, w: uint16)
    requires off + 2 <= buf.Length
    modifies buf
    ensures buf[..] == Written(old(buf[..]), off, Le16(w))
  {
    buf[off], buf[off + 1] := w % 0x100, w / 0x100;
  }

  /** Two writes in adjacent places are one. */
  lemma WrittenTwice(s: Bytes, off: nat, a: Bytes, b: Bytes)
    requires off + |a| + |b| <= |s|
    ensures Written(Written(s, off, a), off + |a|, b) == Written(s, off, a + b)
  {
  }

  lemma WrittenFrom(s: Bytes, off: nat, bytes: Bytes)
    requires off + |bytes| <= |s|
    ensures Written(s, off, bytes)[off..] == bytes + s[off + |bytes|..]
  {
  }

  /** A write seen from inside the buffer */
  lemma WrittenSlice(s: Bytes, off: nat, k: nat, bytes: Bytes)
    requires off + k + |bytes| <= |s|
    ensures Written(s, off + k, bytes)[off..] == Written(s[off..], k, bytes)
  {
    var t, u := Written(s, off + k, bytes), Written(s[off..], k, bytes);
    assert |t[off..]| == |u|;
    assert t[off..][..k] == s[off..][..k];
    assert t[off..][k..k + |bytes|] == bytes;
    assert t[off..][k + |bytes|..] == s[off..][k + |bytes|..];
    assert t[off..] == t[off..][..k] + t[off..][k..k + |bytes|] + t[off..][k + |bytes|..];
  }

  /** A store into the field that follows those already written since the buffer held `base`. */
  method StoreNext(buf: array<byte>, pos: nat, field: Bytes, ghost base: Bytes, ghost off: nat, ghost fields: Bytes)
    requires pos == off + |fields| && pos + |field| <= buf.Length == |base|
    requires buf[..] == Written(base, off, fields)
    modifies buf
    ensures buf[..] == Written(base, off, fields + field)
  {
    Memcpy(buf, pos, field);
    WrittenTwice(base, off, fields, field);
  }
}
