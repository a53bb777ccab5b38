/**
 * Bytes as the Java Card platform sees them: raw 8-bit values, the
 * narrowing casts `(byte)` and `(short)`, the big-endian short helpers of
 * `javacard.framework.Util`, and the two array primitives of that class
 * (`arrayCopy` and `arrayFillNonAtomic`) that the applet uses on the APDU
 * buffer.
 */
module Bytes {

  /** A raw byte (its bit pattern read as 0..255). */
  newtype byte = x: int | 0 <= x < 256

  function Zeros(n: nat): (z: seq<byte>)
    ensures |z| == n
    ensures forall i | 0 <= i < n :: z[i] == 0
  {
    seq(n, _ => 0)
  }

  /** `s` followed by zero bytes up to length `n` (the applet's PIN padding). */
  function PadWithZeros(s: seq<byte>, n: nat): (r: seq<byte>)
    requires |s| <= n
    ensures |r| == n && r[..|s|] == s
    ensures forall i | |s| <= i < n :: r[i] == 0
  {
    s + Zeros(n - |s|)
  }

  /** Zero padding loses nothing: two payloads of one length pad equally only if equal. */
  lemma PadWithZerosInjective(s: seq<byte>, t: seq<byte>, n: nat)
    requires |s| == |t| <= n
    ensures PadWithZeros(s, n) == PadWithZeros(t, n) <==> s == t
  {
    if PadWithZeros(s, n) == PadWithZeros(t, n) {
      assert s == PadWithZeros(s, n)[..|s|] == PadWithZeros(t, n)[..|t|] == t;
    }
  }

  /** `b` with `src` written over it from index `off` on. */
  function Splice(b: seq<byte>, off: nat, src: seq<byte>): (r: seq<byte>)
    requires off + |src| <= |b|
    ensures |r| == |b|
    ensures r[off..off + |src|] == src
    ensures r[..off] == b[..off] && r[off + |src|..] == b[off + |src|..]
  {
    b[..off] + src + b[off + |src|..]
  }

  /** A window of a window: `b[off..off + len][lo..hi]` is `b[off + lo..off + hi]`. */
  lemma SubSlice(b: seq<byte>, off: nat, len: nat, lo: nat, hi: nat)
    requires off + len <= |b| && lo <= hi <= len
    ensures b[off..off + len][lo..hi] == b[off + lo..off + hi]
  {
    var inner, direct := b[off..off + len][lo..hi], b[off + lo..off + hi];
    assert forall i | 0 <= i < |direct| :: inner[i] == b[off + lo + i] == direct[i];
  }

  /** The first `k` bytes of `b[off..]` are `b[off..off + k]`. */
  lemma PrefixOfSuffix(b: seq<byte>, off: nat, k: nat)
    requires off + k <= |b|
    ensures b[off..][..k] == b[off..off + k]
  {
  }

  /** Writing `src` right after the window `b[off..off + n]` extends that window by `src`. */
  lemma SpliceExtends(b: seq<byte>, off: nat, n: nat, src: seq<byte>)
    requires off + n + |src| <= |b|
    ensures Splice(b, off + n, src)[off..off + n + |src|] == b[off..off + n] + src
  {
    var r := Splice(b, off + n, src);
    var lhs, rhs := r[off..off + n + |src|], b[off..off + n] + src;
    forall i | 0 <= i < |lhs|
      ensures lhs[i] == rhs[i]
    {
      if i >= n {
        assert r[off + n..off + n + |src|][i - n] == src[i - n];
      }
    }
  }

  /** Java's `(byte) x`: the low eight bits of `x`, read as a signed value. */
  function AsJavaByte(x: int): (r: int)
    ensures -128 <= r < 128
    ensures 0 <= x < 128 ==> r == x
    ensures 128 <= x < 256 ==> r == x - 256
    ensures -128 <= x < 0 ==> r == x
  {
    (x + 128) % 256 - 128
  }

  /** Java's `(short) x`: the low sixteen bits of `x`, read as a signed value. */
  function AsJavaShort(x: int): (r: int)
    ensures -32768 <= r < 32768
    ensures -32768 <= x < 32768 ==> r == x
    ensures 32768 <= x < 65536 ==> r == x - 65536
  {
    (x + 32768) % 65536 - 32768
  }

  /** A byte widened to `short`/`int` by Java: sign extension. */
  function Signed(b: byte): (r: int)
    ensures r == AsJavaByte(b as int)
    ensures r >= 0 <==> b < 128
  {
    if b < 128 then b as int else b as int - 256
  }

  /** `Util.makeShort(hi, lo)`: a big-endian signed short. */
  function MakeShort(hi: byte, lo: byte): (r: int)
    ensures -32768 <= r < 32768
    ensures r >= 0 <==> hi < 128
  {
    AsJavaShort(hi as int * 256 + lo as int)
  }

  /** `Util.getShort(b, off)`: the short whose two bytes are `b[off]`, `b[off + 1]`. */
  function GetShort(b: seq<byte>, off: nat): (r: int)
    requires off + 2 <= |b|
    ensures -32768 <= r < 32768
    ensures ShortBytes(r) == b[off..off + 2]
  {
    MakeShortRoundTrip(b[off], b[off + 1]);
    MakeShort(b[off], b[off + 1])
  }

  /**
   * The two bytes `Util.setShort` writes for `v`: `(byte)(v >> 8)`, then
   * `(byte) v`, which together are the low sixteen bits of `v`, big-endian.
   */
  function ShortBytes(v: int): (r: seq<byte>)
    ensures |r| == 2
    ensures (r[0] as int * 256 + r[1] as int) % 65536 == v % 65536
  {
    var q, m := v / 256, v % 256;
    assert v == q * 256 + m;
    assert (q % 256) * 256 + m == (q * 256 + m) - (q / 256) * 65536;
    [(q % 256) as byte, m as byte]
  }

  /** `Util.getShort` reads back what `Util.setShort` wrote, for every short. */
  lemma {:induction false} ShortRoundTrip(v: int)
    requires -32768 <= v < 32768
    ensures GetShort(ShortBytes(v), 0) == v
  {
    var q, m := v / 256, v % 256;
    assert v == q * 256 + m;
    assert -128 <= q < 128;
    if q >= 0 {
      assert q % 256 == q;
      assert (q % 256) * 256 + m == v;
    } else {
      assert q % 256 == q + 256;
      assert (q % 256) * 256 + m == v + 65536;
    }
  }

  /** `Util.setShort` writes back the two bytes `Util.makeShort` read. */
  lemma {:induction false} MakeShortRoundTrip(hi: byte, lo: byte)
    ensures ShortBytes(MakeShort(hi, lo)) == [hi, lo]
  {
    var v := MakeShort(hi, lo);
    var q := if hi < 128 then hi as int else hi as int - 256;
    assert v == q * 256 + lo as int;
    assert v / 256 == q && v % 256 == lo as int;
    assert q % 256 == hi as int;
  }

  /** Java's `Util.arrayCopy` into `dst`; the copy lands as one step. */
  method ArrayCopy(dst: array<byte>, off: nat, src: seq<byte>)
    requires off + |src| <= dst.Length
    modifies dst
    ensures dst[..] == Splice(old(dst[..]), off, src)
  {
    forall i | off <= i < off + |src| {
      dst[i] := src[i - off];
    }
    assert dst[..] == Splice(old(dst[..]), off, src) by {
      forall i | 0 <= i < dst.Length
        ensures dst[..][i] == Splice(old(dst[..]), off, src)[i]
      {
        if off <= i < off + |src| {
          assert Splice(old(dst[..]), off, src)[off..off + |src|][i - off] == src[i - off];
        }
      }
    }
  }

  /** Java's `Util.arrayFillNonAtomic(dst, off, len, 0)`. */
  method ArrayFillZero(dst: array<byte>, off: nat, len: nat)
    requires off + len <= dst.Length
    modifies dst
    ensures dst[..] == Splice(old(dst[..]), off, Zeros(len))
  {
    ArrayCopy(dst, off, Zeros(len));
  }
}
