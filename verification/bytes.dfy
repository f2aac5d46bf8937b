/** Bytes, optional results and the few C string primitives the other modules share. */
module Bytes {

  type byte = bv8

  datatype Option<+T> = None | Some(value: T)

  const U32 := 0x1_0000_0000

  /** The C cast `(uint8_t) n`. */
  function ByteOf(n: nat): byte {
    (n % 256) as bv8
  }

  lemma ByteOfNatOfByte(x: byte)
    ensures (x as nat) as bv8 == x
  {
  }

  lemma IncrementAsNat(x: byte)
    requires x != 255
    ensures (x + 1) as nat == x as nat + 1
  {
  }

  lemma {:induction false} NatOfByteOfNat(n: nat)
    requires n < 256
    ensures (n as bv8) as nat == n
  {
    if n > 0 {
      NatOfByteOfNat(n - 1);
      var x := (n - 1) as bv8;
      IncrementAsNat(x);
      ByteOfNatOfByte(x + 1);
    }
  }

  lemma CastOfSuccessor(r: nat)
    requires r < 255
    ensures (r + 1) as bv8 == (r as bv8) + 1
  {
    NatOfByteOfNat(r);
    NatOfByteOfNat(255);
    IncrementAsNat(r as bv8);
    ByteOfNatOfByte((r as bv8) + 1);
  }

  lemma RemainderOfSuccessor(n: nat)
    ensures (n + 1) % 256 == if n % 256 == 255 then 0 else n % 256 + 1
  {
  }

  lemma CastWraps(r: nat, s: nat)
    requires r < 256 && s == if r == 255 then 0 else r + 1
    ensures s as bv8 == (r as bv8) + 1
  {
    if r < 255 {
      CastOfSuccessor(r);
    }
  }

  /** Casting commutes with adding one, wrap-around included. */
  lemma ByteOfSuccessor(n: nat)
    ensures ByteOf(n + 1) == ByteOf(n) + 1
  {
    RemainderOfSuccessor(n);
    CastWraps(n % 256, (n + 1) % 256);
  }

  /** Adding the cast of n leaves a byte alone exactly for the multiples of 256. */
  lemma AddingByteOf(x: byte, n: nat)
    ensures x + ByteOf(n) == x <==> n % 256 == 0
  {
    NatOfByteOfNat(n % 256);
  }

  /** Pointwise XOR of two equally long byte strings. */
  function Xor(a: seq<byte>, b: seq<byte>): (r: seq<byte>)
    requires |a| == |b|
    ensures |r| == |a|
  {
    seq(|a|, i requires 0 <= i < |a| => a[i] ^ b[i])
  }

  /** strlen: the number of bytes before the first NUL (the whole buffer when there is none). */
  function StrLen(s: seq<byte>): (n: nat)
    ensures n <= |s|
    ensures 0 !in s[..n]
    ensures n < |s| ==> s[n] == 0
  {
    if s == [] || s[0] == 0 then 0
    else
      assert s[1..][..StrLen(s[1..])] == s[1..1 + StrLen(s[1..])];
      1 + StrLen(s[1..])
  }

  lemma StrLenIsFirstNul(s: seq<byte>, n: nat)
    requires n <= |s| && 0 !in s[..n] && (n < |s| ==> s[n] == 0)
    ensures StrLen(s) == n
  {
  }

  /** `strncpy(dst, src, size - 1); dst[size - 1] = 0`: a NUL-padded field of exactly size bytes. */
  function StrField(src: seq<byte>, size: nat): (r: seq<byte>)
    requires size > 0
    ensures |r| == size
  {
    var n := if StrLen(src) < size - 1 then StrLen(src) else size - 1;
    src[..n] + seq(size - n, _ => 0)
  }

  lemma StrLenOfField(src: seq<byte>, size: nat)
    requires size > 0
    ensures StrLen(StrField(src, size)) == if StrLen(src) < size - 1 then StrLen(src) else size - 1
    ensures StrField(src, size)[..StrLen(StrField(src, size))] == src[..StrLen(StrField(src, size))]
  {
    var n := if StrLen(src) < size - 1 then StrLen(src) else size - 1;
    assert StrField(src, size)[..n] == src[..n];
    assert src[..n] == src[..StrLen(src)][..n];
    StrLenIsFirstNul(StrField(src, size), n);
  }

  /** Every byte of such a field: the string cut to fit, then NULs. */
  lemma {:induction false} StrFieldByte(src: seq<byte>, size: nat, i: nat)
    requires i < size
    ensures StrField(src, size)[i] == if i < StrLen(src) && i < size - 1 then src[i] else 0
  {
    var n := if StrLen(src) < size - 1 then StrLen(src) else size - 1;
    assert i < n ==> StrField(src, size)[i] == src[..n][i];
  }

  /** Copying a field into a field of the same size changes nothing. */
  lemma StrFieldIdempotent(src: seq<byte>, size: nat)
    requires size > 0
    ensures StrField(StrField(src, size), size) == StrField(src, size)
  {
    StrLenOfField(src, size);
    var f := StrField(src, size);
    assert StrField(f, size)[..StrLen(f)] == f[..StrLen(f)];
  }
}
