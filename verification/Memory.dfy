/** Writes into a byte array, each stated as a splice of the array's old contents. */
module Memory {
  import opened Bits

  /** `s` with `x` written over it from `off` on. */
  function Splice(s: Bytes, off: nat, x: Bytes): (r: Bytes)
    requires off + |x| <= |s|
    ensures |r| == |s|
  {
    s[..off] + x + s[off + |x|..]
  }

  lemma {:induction false} SpliceAppend(s: Bytes, off: nat, x: Bytes, y: Bytes)
    requires off + |x| + |y| <= |s|
    ensures Splice(Splice(s, off, x), off + |x|, y) == Splice(s, off, x + y)
  {
  }

  lemma {:induction false} SpliceNothing(s: Bytes, off: nat)
    requires off <= |s|
    ensures Splice(s, off, []) == s
  {
  }

  lemma {:induction false} SpliceOver(s: Bytes, off: nat, x: Bytes, y: Bytes)
    requires off + |x| <= |s| && |x| == |y|
    ensures Splice(Splice(s, off, x), off, y) == Splice(s, off, y)
  {
  }

  method PutByte(a: array<Byte>, off: nat, c: Byte)
    requires off < a.Length
    modifies a
    ensures a[..] == Splice(old(a[..]), off, [c])
  {
    a[off] := c;
  }

  /** `*p++ = c` behind the bytes `out` already written from `start` on. */
  method AppendByte(a: array<Byte>, ghost was: Bytes, start: nat, ghost out: Bytes, end: nat, c: Byte)
        returns (end': nat)
    requires |was| == a.Length && start + |out| == end < a.Length && a[..] == Splice(was, start, out)
    modifies a
    ensures end' == end + 1 && a[..] == Splice(was, start, out + [c])
  {
    a[end] := c;
    end' := end + 1;
    SpliceAppend(was, start, out, [c]);
  }

  /** `memcpy`, and the copy loop of `put_string`. */
  method PutBytes(a: array<Byte>, off: nat, x: Bytes)
    requires off + |x| <= a.Length
    modifies a
    ensures a[..] == Splice(old(a[..]), off, x)
  {
    ghost var s := a[..];
    SpliceNothing(s, off);
    for i := 0 to |x|
      invariant a[..] == Splice(s, off, x[..i])
    {
      assert x[..i + 1] == x[..i] + [x[i]];
      SpliceAppend(s, off, x[..i], [x[i]]);
      PutByte(a, off + i, x[i]);
    }
    assert x[..|x|] == x;
  }

  /** A 16-bit little-endian store; wider values lose their high bits. */
  method PutU16(a: array<Byte>, off: nat, v: nat)
    requires off + 2 <= a.Length
    modifies a
    ensures a[..] == Splice(old(a[..]), off, [v % 256, v / 256 % 256])
  {
    a[off], a[off + 1] := v % 256, v / 256 % 256;
  }
}
