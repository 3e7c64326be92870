/** Bytes, native integers and C strings as they travel through the pipes.

    The protocol is same-host, so a C `int` is written as its four raw bytes.
    The model fixes one byte order (little-endian) and 32-bit two's complement. */
module Bytes {

  /** One byte of a pipe frame (a C `char` read as unsigned). */
  type byte = x: int | 0 <= x < 256

  /** A C `int`: 32-bit two's complement. */
  type int32 = x: int | -0x8000_0000 <= x < 0x8000_0000

  /** sizeof(int) */
  const INT_SIZE: nat := 4

  function Min(a: int, b: int): int { if a <= b then a else b }

  /** `n` zero bytes, as left by memset(buf, 0, n). */
  function Zeros(n: nat): (z: seq<byte>)
    ensures |z| == n
    ensures forall i :: 0 <= i < n ==> z[i] == 0
  {
    seq(n, _ => 0)
  }

  function Pow256(n: nat): (p: nat)
    ensures p >= 1
  {
    if n == 0 then 1 else 256 * Pow256(n - 1)
  }

  /** The `n` low-order bytes of `u`, least significant first. */
  function EncodeLE(u: nat, n: nat): (s: seq<byte>)
    ensures |s| == n
  {
    if n == 0 then [] else [u % 256] + EncodeLE(u / 256, n - 1)
  }

  /** The unsigned value of a little-endian byte string; it fits in |s| bytes. */
  function DecodeLE(s: seq<byte>): (u: nat)
    ensures u < Pow256(|s|)
  {
    if s == [] then 0
    else
      var rest := DecodeLE(s[1..]);
      assert rest <= Pow256(|s| - 1) - 1;
      assert 256 * rest <= 256 * Pow256(|s| - 1) - 256;
      s[0] + 256 * rest
  }

  /** Decoding undoes encoding for every value that fits in `n` bytes. */
  lemma {:induction false} DecodeEncodeLE(u: nat, n: nat)
    requires u < Pow256(n)
    ensures DecodeLE(EncodeLE(u, n)) == u
  {
    if n > 0 {
      assert u / 256 < Pow256(n - 1);
      DecodeEncodeLE(u / 256, n - 1);
      assert EncodeLE(u, n)[1..] == EncodeLE(u / 256, n - 1);
    }
  }

  /** Encoding undoes decoding: a byte string is determined by its value. */
  lemma {:induction false} EncodeDecodeLE(s: seq<byte>)
    ensures EncodeLE(DecodeLE(s), |s|) == s
  {
    if s != [] {
      var rest := DecodeLE(s[1..]);
      var u := s[0] + 256 * rest;
      assert u % 256 == s[0] && u / 256 == rest;
      EncodeDecodeLE(s[1..]);
      assert EncodeLE(u, |s|) == [s[0]] + EncodeLE(rest, |s| - 1);
    }
  }

  /** The four bytes memcpy copies out of a C `int`. */
  function EncodeInt32(x: int32): (s: seq<byte>)
    ensures |s| == INT_SIZE
  {
    EncodeLE(if x < 0 then x + 0x1_0000_0000 else x, INT_SIZE)
  }

  /** The C `int` memcpy rebuilds from four bytes. */
  function DecodeInt32(s: seq<byte>): int32
    requires |s| == INT_SIZE
  {
    var u := DecodeLE(s);
    assert Pow256(4) == 0x1_0000_0000;
    if u >= 0x8000_0000 then u - 0x1_0000_0000 else u
  }

  lemma Int32RoundTrip(x: int32)
    ensures DecodeInt32(EncodeInt32(x)) == x
  {
    assert Pow256(4) == 0x1_0000_0000;
    DecodeEncodeLE(if x < 0 then x + 0x1_0000_0000 else x, INT_SIZE);
  }

  /** Four bytes are the encoding of the int they decode to. */
  lemma Int32Unique(s: seq<byte>)
    requires |s| == INT_SIZE
    ensures EncodeInt32(DecodeInt32(s)) == s
  {
    assert Pow256(4) == 0x1_0000_0000;
    EncodeDecodeLE(s);
  }

  /** A buffer of `size` bytes after memset(0) and one read that delivered
      `got`: the delivered bytes first, the unread bytes still 0. */
  function ZeroedRead(got: seq<byte>, size: nat): (b: seq<byte>)
    requires |got| <= size
    ensures |b| == size && b[..|got|] == got
    ensures forall i :: |got| <= i < size ==> b[i] == 0
  {
    got + Zeros(size - |got|)
  }

  /** A C string's characters: no NUL before the terminator. */
  predicate NoNul(s: seq<byte>)
  {
    forall i :: 0 <= i < |s| ==> s[i] != 0
  }

  /** The `n` bytes strncpy(dst, src, n) stores: the first n characters of
      `src`, and NUL padding up to n when `src` is shorter. */
  function StrNCpyField(src: seq<byte>, n: nat): (f: seq<byte>)
    requires NoNul(src)
    ensures |f| == n
  {
    if |src| >= n then src[..n] else src + Zeros(n - |src|)
  }

  /** The C string a fixed-width field holds: the bytes before its first NUL,
      or the whole field when it has none. */
  function CString(field: seq<byte>): (s: seq<byte>)
    ensures NoNul(s) && s <= field
    ensures |s| < |field| ==> field[|s|] == 0
  {
    if field == [] || field[0] == 0 then []
    else [field[0]] + CString(field[1..])
  }

  /** A path shorter than its field survives strncpy and is read back whole. */
  lemma StrNCpyThenCString(src: seq<byte>, n: nat)
    requires NoNul(src) && |src| < n
    ensures CString(StrNCpyField(src, n)) == src
  {
    assert StrNCpyField(src, n)[|src|] == 0;
  }

  /** memcpy(dst + off, src, |src|): overwrite a window of `dst`. */
  method MemCpy(dst: array<byte>, off: nat, src: seq<byte>)
    requires off + |src| <= dst.Length
    modifies dst
    ensures dst[..] == old(dst[..])[..off] + src + old(dst[..])[off + |src|..]
  {
    ghost var before := dst[..];
    var i := 0;
    while i < |src|
      invariant 0 <= i <= |src|
      invariant forall k :: 0 <= k < dst.Length && !(off <= k < off + i) ==> dst[k] == before[k]
      invariant forall k :: off <= k < off + i ==> dst[k] == src[k - off]
    {
      dst[off + i] := src[i];
      i := i + 1;
    }
    assert dst[..] == before[..off] + src + before[off + |src|..];
  }

  /** strncpy(dst + off, src, n) for a NUL-free source: copy characters while
      there are any, then pad with NUL, n bytes written in all. */
  method StrNCpy(dst: array<byte>, off: nat, src: seq<byte>, n: nat)
    requires NoNul(src) && off + n <= dst.Length
    modifies dst
    ensures dst[..] == old(dst[..])[..off] + StrNCpyField(src, n) + old(dst[..])[off + n..]
  {
    ghost var before := dst[..];
    var i := 0;
    while i < n
      invariant 0 <= i <= n
      invariant forall k :: 0 <= k < dst.Length && !(off <= k < off + i) ==> dst[k] == before[k]
      invariant forall k :: off <= k < off + i ==> dst[k] == StrNCpyField(src, n)[k - off]
    {
      dst[off + i] := if i < |src| then src[i] else 0;
      i := i + 1;
    }
    assert dst[..] == before[..off] + StrNCpyField(src, n) + before[off + n..];
  }
}
