/** Widening byte arrays to integers (i386/src/utils/u8x.rs). `uint<LEN>`
    is an array of LEN bytes; `cast_le` and `cast_be` first copy it into
    an array as wide as the target type, padding with zero bytes at the
    end, and then read that array as a little- or big-endian number. */
module U8x {
  import opened Bits

  /** 256^n */
  function Pow256(n: nat): (p: nat)
    ensures p >= 1
  {
    if n == 0 then 1 else 256 * Pow256(n - 1)
  }

  /** The bytes read least significant first: Σ b[i]·256^i. */
  function LeValue(b: seq<u8>): nat
  {
    if |b| == 0 then 0 else b[0] + 256 * LeValue(b[1..])
  }

  /** The bytes read most significant first. */
  function BeValue(b: seq<u8>): nat
  {
    if |b| == 0 then 0 else BeValue(b[..|b| - 1]) * 256 + b[|b| - 1]
  }

  /** `n` zero bytes. */
  function Zeros(n: nat): (z: seq<u8>)
    ensures |z| == n && forall i | 0 <= i < n :: z[i] == 0
  {
    seq(n, _ => 0)
  }

  /** `extend::<SRC, DEST>`: a DEST-byte array whose first SRC bytes are
      `src` and whose other bytes are 0. A SRC wider than DEST panics. */
  method Extend(src: seq<u8>, dest: nat) returns (tmp: seq<u8>)
    requires |src| <= dest
    ensures |tmp| == dest && tmp[..|src|] == src
    ensures forall i | |src| <= i < dest :: tmp[i] == 0
    ensures tmp == src + Zeros(dest - |src|)
  {
    tmp := Zeros(dest);
    var i := 0;
    while i < |src|
      invariant 0 <= i <= |src| && |tmp| == dest
      invariant forall k | 0 <= k < i :: tmp[k] == src[k]
      invariant forall k | i <= k < dest :: tmp[k] == 0
    {
      tmp := tmp[i := src[i]];
      i := i + 1;
    }
    assert tmp == src + Zeros(dest - |src|);
  }

  /** `cast_le` into a `width`-byte integer: the little-endian value of the
      bytes themselves, since the padding goes above them. */
  function CastLe(b: seq<u8>, width: nat): (v: nat)
    requires |b| <= width
    ensures v == LeValue(b) < Pow256(|b|)
  {
    LeZeros(b, width - |b|);
    LeBound(b);
    LeValue(b + Zeros(width - |b|))
  }

  /** `cast_be` into a `width`-byte integer: the big-endian value of the
      bytes shifted up by the padding, so a 2-byte array 0x12 0x34 cast to
      u32 is 0x1234_0000. */
  function CastBe(b: seq<u8>, width: nat): (v: nat)
    requires |b| <= width
    ensures v == BeValue(b) * Pow256(width - |b|)
  {
    BeZeros(b, width - |b|);
    BeValue(b + Zeros(width - |b|))
  }

  /** Zero bytes after the last one add nothing to a little-endian value. */
  lemma {:induction false} LeZeros(b: seq<u8>, n: nat)
    ensures LeValue(b + Zeros(n)) == LeValue(b)
    decreases |b|, n
  {
    if |b| == 0 {
      assert b + Zeros(n) == Zeros(n);
      if n > 0 {
        assert Zeros(n)[1..] == [] + Zeros(n - 1);
        LeZeros([], n - 1);
      }
    } else {
      assert (b + Zeros(n))[1..] == b[1..] + Zeros(n);
      LeZeros(b[1..], n);
    }
  }

  /** Each zero byte after the last one multiplies a big-endian value by
      256. */
  lemma {:induction false} BeZeros(b: seq<u8>, n: nat)
    ensures BeValue(b + Zeros(n)) == BeValue(b) * Pow256(n)
    decreases n
  {
    if n > 0 {
      var s := b + Zeros(n);
      assert s[..|s| - 1] == b + Zeros(n - 1);
      BeZeros(b, n - 1);
    } else {
      assert b + Zeros(0) == b;
    }
  }

  lemma {:induction false} LeBound(b: seq<u8>)
    ensures LeValue(b) < Pow256(|b|)
    decreases |b|
  {
    if |b| > 0 {
      LeBound(b[1..]);
    }
  }

  // ---------------------------------------------------------------------
  // Partners: the bytes of a number, and the byte order

  /** The `n` low bytes of `x`, least significant first (`to_le_bytes`). */
  function LeBytes(x: nat, n: nat): (b: seq<u8>)
    ensures |b| == n
  {
    if n == 0 then [] else [x % 256] + LeBytes(x / 256, n - 1)
  }

  /** Reading the bytes of a number that fits gives the number back. */
  lemma {:induction false} LeRoundTrip(x: nat, n: nat)
    requires x < Pow256(n)
    ensures LeValue(LeBytes(x, n)) == x
    decreases n
  {
    if n > 0 {
      var b := LeBytes(x, n);
      assert b[1..] == LeBytes(x / 256, n - 1);
      LeRoundTrip(x / 256, n - 1);
    }
  }

  function Reverse(b: seq<u8>): (r: seq<u8>)
    ensures |r| == |b|
  {
    if |b| == 0 then [] else [b[|b| - 1]] + Reverse(b[..|b| - 1])
  }

  /** Big-endian is little-endian on the reversed bytes. */
  lemma {:induction false} BeIsReversedLe(b: seq<u8>)
    ensures BeValue(b) == LeValue(Reverse(b))
    decreases |b|
  {
    if |b| > 0 {
      var r := Reverse(b);
      assert r[1..] == Reverse(b[..|b| - 1]);
      BeIsReversedLe(b[..|b| - 1]);
    }
  }
}
