/** Rust's fixed-width unsigned integers and their bit operators, on natural
    numbers. A `uN` value is a natural number below 2^N. The bitwise operators
    `&`, `|`, `^` and `!` are defined bit by bit and the shifts arithmetically,
    exactly as Rust defines them for `u64`, so that facts about symbolic bit
    positions can be proved by induction over the bits. */
module Bits {

  type u8 = x: nat | x < 0x100
  type u16 = x: nat | x < 0x1_0000
  type u32 = x: nat | x < 0x1_0000_0000
  type u64 = x: nat | x < 0x1_0000_0000_0000_0000

  /** 2^n */
  function Pow2(n: nat): (p: nat)
    ensures p >= 1
  {
    if n == 0 then 1 else 2 * Pow2(n - 1)
  }

  /** Bit `i` of `x`, bit 0 being the least significant. */
  predicate Bit(x: nat, i: nat)
    decreases i
  {
    if i == 0 then x % 2 == 1 else Bit(x / 2, i - 1)
  }

  /** `x & y` on w-bit values. */
  function AndW(x: nat, y: nat, w: nat): nat
  {
    if w == 0 then 0 else 2 * AndW(x / 2, y / 2, w - 1) + (if x % 2 == 1 && y % 2 == 1 then 1 else 0)
  }

  /** `x | y` on w-bit values. */
  function OrW(x: nat, y: nat, w: nat): nat
  {
    if w == 0 then 0 else 2 * OrW(x / 2, y / 2, w - 1) + (if x % 2 == 1 || y % 2 == 1 then 1 else 0)
  }

  /** `x ^ y` on w-bit values. */
  function XorW(x: nat, y: nat, w: nat): nat
  {
    if w == 0 then 0 else 2 * XorW(x / 2, y / 2, w - 1) + (if x % 2 != y % 2 then 1 else 0)
  }

  /** `!x` on w-bit values. */
  function NotW(x: nat, w: nat): nat
  {
    if w == 0 then 0 else 2 * NotW(x / 2, w - 1) + (1 - x % 2)
  }

  /** `x & y` on u64 */
  function And(x: nat, y: nat): u64
  {
    Pow2Widths();
    WidthBounds(x, y, 64);
    AndW(x, y, 64)
  }

  /** `x | y` on u64 */
  function Or(x: nat, y: nat): u64
  {
    Pow2Widths();
    WidthBounds(x, y, 64);
    OrW(x, y, 64)
  }

  /** `x ^ y` on u64 */
  function Xor(x: nat, y: nat): u64
  {
    Pow2Widths();
    WidthBounds(x, y, 64);
    XorW(x, y, 64)
  }

  /** `!x` on u64 */
  function Not(x: nat): u64
  {
    Pow2Widths();
    WidthBounds(x, 0, 64);
    NotW(x, 64)
  }

  /** `x >> s`, one halving per position shifted out. */
  function Half(x: nat, s: nat): nat
  {
    if s == 0 then x else Half(x / 2, s - 1)
  }

  /** `x * 2^s`, one doubling per position. */
  function Dbl(x: nat, s: nat): nat
  {
    if s == 0 then x else 2 * Dbl(x, s - 1)
  }

  /** The low `n` bits of `x`: `x as uN` for an n-bit type, or `x mod 2^n`. */
  function Low(x: nat, n: nat): nat
  {
    if n == 0 then 0 else 2 * Low(x / 2, n - 1) + x % 2
  }

  /** `x << s` on u64: bits shifted past bit 63 are lost; Rust rejects a
      shift by 64 or more. */
  function Shl(x: u64, s: nat): u64
    requires s < 64
  {
    Pow2Widths();
    WidthBounds(Dbl(x, s), 0, 64);
    Low(Dbl(x, s), 64)
  }

  /** `x >> s` on u64; Rust rejects a shift by 64 or more. */
  function Shr(x: u64, s: nat): u64
    requires s < 64
  {
    HalfBelow(x, s);
    Half(x, s)
  }

  // ---------------------------------------------------------------------
  // Arithmetic facts

  lemma {:induction false} Pow2Add(a: nat, b: nat)
    ensures Pow2(a + b) == Pow2(a) * Pow2(b)
    decreases a
  {
    if a > 0 {
      Pow2Add(a - 1, b);
    }
  }

  /** The powers of two the model uses: type widths, field widths and
      places, alignments and the top bit. */
  lemma Pow2Values()
    ensures Pow2(0) == 1 && Pow2(1) == 2 && Pow2(2) == 4 && Pow2(3) == 8 && Pow2(4) == 16 && Pow2(5) == 32
    ensures Pow2(7) == 0x80 && Pow2(8) == 0x100 && Pow2(9) == 0x200 && Pow2(12) == 0x1000 && Pow2(13) == 0x2000
    ensures Pow2(16) == 0x1_0000 && Pow2(20) == 0x10_0000 && Pow2(21) == 0x20_0000
    ensures Pow2(24) == 0x100_0000 && Pow2(32) == 0x1_0000_0000 && Pow2(40) == 0x100_0000_0000
    ensures Pow2(48) == 0x1_0000_0000_0000 && Pow2(63) == 0x8000_0000_0000_0000
    ensures Pow2(64) == 0x1_0000_0000_0000_0000
  {
    assert Pow2(12) == 0x1000;
    assert Pow2(13) == 0x2000;
    Pow2Widths();
    Pow2Add(16, 4);
    Pow2Add(16, 5);
    Pow2Add(16, 8);
    Pow2Add(32, 8);
    Pow2Add(32, 16);
    Pow2Add(48, 15);
  }

  lemma Pow2Widths()
    ensures Pow2(8) == 0x100 && Pow2(16) == 0x1_0000
    ensures Pow2(32) == 0x1_0000_0000 && Pow2(64) == 0x1_0000_0000_0000_0000
  {
    assert Pow2(8) == 0x100;
    Pow2Add(8, 8);
    Pow2Add(16, 16);
    Pow2Add(32, 32);
  }

  lemma MulSplit(d: nat, a: nat, b: nat)
    ensures d * (a + b) == d * a + d * b
    ensures b >= 1 ==> d * (a + b) >= d * a + d
  {
  }

  /** Division with remainder has exactly one solution. */
  lemma DivModUnique(x: nat, d: nat, q: nat, r: nat)
    requires d > 0 && r < d && x == d * q + r
    ensures x / d == q && x % d == r
  {
    var q', r' := x / d, x % d;
    assert x == d * q' + r' && r' < d;
    if q' > q {
      MulSplit(d, q, q' - q);
    } else if q' < q {
      MulSplit(d, q', q - q');
    }
  }

  /** Halving commutes with division and remainder by a power of two. */
  lemma DivModHalf(x: nat, p: nat)
    requires p >= 1
    ensures x / (2 * p) == (x / 2) / p
    ensures x % (2 * p) == 2 * ((x / 2) % p) + x % 2
  {
    var q := (x / 2) / p;
    var r := (x / 2) % p;
    assert x / 2 == p * q + r;
    assert x == (2 * p) * q + (2 * r + x % 2);
    DivModUnique(x, 2 * p, q, 2 * r + x % 2);
  }

  // ---------------------------------------------------------------------
  // Bits of values

  /** The w-bit operators produce w-bit values. */
  lemma {:induction false} WidthBounds(x: nat, y: nat, w: nat)
    ensures AndW(x, y, w) < Pow2(w) && OrW(x, y, w) < Pow2(w)
    ensures XorW(x, y, w) < Pow2(w) && NotW(x, w) < Pow2(w) && Low(x, w) < Pow2(w)
    decreases w
  {
    if w > 0 {
      WidthBounds(x / 2, y / 2, w - 1);
    }
  }


  /** A value below 2^w has no bit set at or above position w. */
  lemma {:induction false} BitsAbove(x: nat, w: nat, i: nat)
    requires x < Pow2(w) && w <= i
    ensures !Bit(x, i)
    decreases i
  {
    if i > 0 {
      if w > 0 {
        BitsAbove(x / 2, w - 1, i - 1);
      } else {
        BitsAbove(x / 2, 0, i - 1);
      }
    }
  }

  /** A value is determined by its bits. */
  lemma {:induction false} BitsEqual(x: nat, y: nat)
    requires forall i: nat :: Bit(x, i) == Bit(y, i)
    ensures x == y
    decreases x + y
  {
    if x != 0 || y != 0 {
      assert Bit(x, 0) == Bit(y, 0);
      forall i: nat
        ensures Bit(x / 2, i) == Bit(y / 2, i)
      {
        assert Bit(x, i + 1) == Bit(y, i + 1);
      }
      BitsEqual(x / 2, y / 2);
    }
  }

  lemma {:induction false} BitAndW(x: nat, y: nat, w: nat, i: nat)
    ensures Bit(AndW(x, y, w), i) == (i < w && Bit(x, i) && Bit(y, i))
    decreases w
  {
    if w > 0 {
      var r := AndW(x / 2, y / 2, w - 1);
      var b := if x % 2 == 1 && y % 2 == 1 then 1 else 0;
      assert (2 * r + b) / 2 == r && (2 * r + b) % 2 == b;
      if i > 0 {
        BitAndW(x / 2, y / 2, w - 1, i - 1);
      }
    } else {
      BitsAbove(0, 0, i);
    }
  }

  lemma {:induction false} BitOrW(x: nat, y: nat, w: nat, i: nat)
    ensures Bit(OrW(x, y, w), i) == (i < w && (Bit(x, i) || Bit(y, i)))
    decreases w
  {
    if w > 0 {
      var r := OrW(x / 2, y / 2, w - 1);
      var b := if x % 2 == 1 || y % 2 == 1 then 1 else 0;
      assert (2 * r + b) / 2 == r && (2 * r + b) % 2 == b;
      if i > 0 {
        BitOrW(x / 2, y / 2, w - 1, i - 1);
      }
    } else {
      BitsAbove(0, 0, i);
    }
  }

  lemma {:induction false} BitXorW(x: nat, y: nat, w: nat, i: nat)
    ensures Bit(XorW(x, y, w), i) == (i < w && Bit(x, i) != Bit(y, i))
    decreases w
  {
    if w > 0 {
      var r := XorW(x / 2, y / 2, w - 1);
      var b := if x % 2 != y % 2 then 1 else 0;
      assert (2 * r + b) / 2 == r && (2 * r + b) % 2 == b;
      if i > 0 {
        BitXorW(x / 2, y / 2, w - 1, i - 1);
      }
    } else {
      BitsAbove(0, 0, i);
    }
  }

  lemma {:induction false} BitNotW(x: nat, w: nat, i: nat)
    ensures Bit(NotW(x, w), i) == (i < w && !Bit(x, i))
    decreases w
  {
    if w > 0 {
      var r := NotW(x / 2, w - 1);
      var b := 1 - x % 2;
      assert (2 * r + b) / 2 == r && (2 * r + b) % 2 == b;
      if i > 0 {
        BitNotW(x / 2, w - 1, i - 1);
      }
    } else {
      BitsAbove(0, 0, i);
    }
  }

  lemma {:induction false} BitHalf(x: nat, s: nat, i: nat)
    ensures Bit(Half(x, s), i) == Bit(x, i + s)
    decreases s
  {
    if s > 0 {
      BitHalf(x / 2, s - 1, i);
    }
  }

  lemma {:induction false} BitLow(x: nat, n: nat, i: nat)
    ensures Bit(Low(x, n), i) == (i < n && Bit(x, i))
    decreases n
  {
    if n > 0 {
      var r := Low(x / 2, n - 1);
      assert (2 * r + x % 2) / 2 == r && (2 * r + x % 2) % 2 == x % 2;
      if i > 0 {
        BitLow(x / 2, n - 1, i - 1);
      }
    } else {
      BitsAbove(0, 0, i);
    }
  }

  lemma {:induction false} BitDbl(x: nat, s: nat, i: nat)
    ensures Bit(Dbl(x, s), i) == (s <= i && Bit(x, i - s))
    decreases s
  {
    if s > 0 {
      var m := Dbl(x, s - 1);
      assert (2 * m) / 2 == m && (2 * m) % 2 == 0;
      if i > 0 {
        BitDbl(x, s - 1, i - 1);
      }
    }
  }

  /** Placing `hi` above a k-bit value `lo`. */
  lemma {:induction false} BitConcat(hi: nat, lo: nat, k: nat, i: nat)
    requires lo < Pow2(k)
    ensures Bit(Dbl(hi, k) + lo, i) == if i < k then Bit(lo, i) else Bit(hi, i - k)
    decreases k
  {
    if k > 0 {
      var m := Dbl(hi, k - 1);
      assert (2 * m + lo) / 2 == m + lo / 2 && (2 * m + lo) % 2 == lo % 2;
      if i > 0 {
        BitConcat(hi, lo / 2, k - 1, i - 1);
      }
    } else {
      BitsAbove(lo, 0, i);
    }
  }

  /** `(1 << a) - 1` has exactly the bits below a. */
  lemma {:induction false} BitLowOnes(a: nat, i: nat)
    ensures Bit(Pow2(a) - 1, i) == (i < a)
    decreases a
  {
    if a > 0 {
      var m := Pow2(a - 1) - 1;
      assert Pow2(a) - 1 == 2 * m + 1;
      assert (2 * m + 1) / 2 == m && (2 * m + 1) % 2 == 1;
      if i > 0 {
        BitLowOnes(a - 1, i - 1);
      }
    } else {
      BitsAbove(0, 0, i);
    }
  }

  lemma {:induction false} HalfBelow(x: nat, s: nat)
    ensures Half(x, s) <= x
    decreases s
  {
    if s > 0 {
      HalfBelow(x / 2, s - 1);
    }
  }

  lemma {:induction false} LowId(x: nat, n: nat)
    requires x < Pow2(n)
    ensures Low(x, n) == x
    decreases n
  {
    if n > 0 {
      LowId(x / 2, n - 1);
    }
  }

  lemma {:induction false} Pow2Below(a: nat, b: nat)
    requires a < b
    ensures Pow2(a) < Pow2(b)
    decreases b
  {
    if a < b - 1 {
      Pow2Below(a, b - 1);
    }
  }

  lemma {:induction false} DblOne(s: nat)
    ensures Dbl(1, s) == Pow2(s)
    decreases s
  {
    if s > 0 {
      DblOne(s - 1);
    }
  }

  // ---------------------------------------------------------------------
  // The arithmetic meaning of the shifts and truncation

  /** `x >> s` is division by 2^s, rounding down. */
  lemma {:induction false} HalfIsDiv(x: nat, s: nat)
    ensures Half(x, s) == x / Pow2(s)
    decreases s
  {
    if s > 0 {
      DivModHalf(x, Pow2(s - 1));
      HalfIsDiv(x / 2, s - 1);
    }
  }

  /** Keeping the low n bits is reduction modulo 2^n. */
  lemma {:induction false} LowIsMod(x: nat, n: nat)
    ensures Low(x, n) == x % Pow2(n)
    decreases n
  {
    if n > 0 {
      DivModHalf(x, Pow2(n - 1));
      LowIsMod(x / 2, n - 1);
    }
  }

  /** Doubling s times is multiplication by 2^s. */
  lemma {:induction false} DblIsMul(x: nat, s: nat)
    ensures Dbl(x, s) == x * Pow2(s)
    decreases s
  {
    if s > 0 {
      DblIsMul(x, s - 1);
      assert x * Pow2(s) == 2 * (x * Pow2(s - 1));
    }
  }

  // ---------------------------------------------------------------------
  // Bits of the operators

  lemma BitAnd(x: nat, y: nat, i: nat)
    ensures Bit(And(x, y), i) == (i < 64 && Bit(x, i) && Bit(y, i))
  {
    BitAndW(x, y, 64, i);
  }

  lemma BitOr(x: nat, y: nat, i: nat)
    ensures Bit(Or(x, y), i) == (i < 64 && (Bit(x, i) || Bit(y, i)))
  {
    BitOrW(x, y, 64, i);
  }

  lemma BitXor(x: nat, y: nat, i: nat)
    ensures Bit(Xor(x, y), i) == (i < 64 && Bit(x, i) != Bit(y, i))
  {
    BitXorW(x, y, 64, i);
  }

  lemma BitNot(x: nat, i: nat)
    ensures Bit(Not(x), i) == (i < 64 && !Bit(x, i))
  {
    BitNotW(x, 64, i);
  }

  lemma BitShl(x: u64, s: nat, i: nat)
    requires s < 64
    ensures Bit(Shl(x, s), i) == (s <= i < 64 && Bit(x, i - s))
  {
    BitLow(Dbl(x, s), 64, i);
    BitDbl(x, s, i);
  }

  lemma BitShr(x: u64, s: nat, i: nat)
    requires s < 64
    ensures Bit(Shr(x, s), i) == Bit(x, i + s)
  {
    BitHalf(x, s, i);
  }

  /** `1 << s` is 2^s for every shift Rust accepts. */
  lemma ShlOne(s: nat)
    requires s < 64
    ensures Shl(1, s) == Pow2(s) && Pow2(s) < Pow2(64) == 0x1_0000_0000_0000_0000
  {
    Pow2Widths();
    DblOne(s);
    Pow2Below(s, 64);
    LowId(Pow2(s), 64);
  }

  /** `(1 << n) - 1` on u64: the n low bits set. */
  function LowMask(n: nat): u64
    requires n < 64
  {
    ShlOne(n);
    Shl(1, n) - 1
  }

  lemma BitLowMask(n: nat, i: nat)
    requires n < 64
    ensures Bit(LowMask(n), i) == (i < n)
  {
    ShlOne(n);
    BitLowOnes(n, i);
  }

  /** `!0`: every bit of the word set. */
  const Ones: u64 := 0xFFFF_FFFF_FFFF_FFFF

  lemma BitOnes(i: nat)
    ensures Bit(Ones, i) == (i < 64)
  {
    Pow2Widths();
    BitLowOnes(64, i);
  }

  /** The constant agrees with the complement of zero. */
  lemma NotZero()
    ensures Not(0) == Ones
  {
    forall i: nat
      ensures Bit(Not(0), i) == Bit(Ones, i)
    {
      BitNot(0, i);
      BitsAbove(0, 0, i);
      BitOnes(i);
    }
    BitsEqual(Not(0), Ones);
  }

  lemma BitU64(x: u64, i: nat)
    requires i >= 64
    ensures !Bit(x, i)
  {
    Pow2Widths();
    BitsAbove(x, 64, i);
  }

  lemma ShlZero(s: nat)
    requires s < 64
    ensures Shl(0, s) == 0
  {
    forall i: nat
      ensures Bit(Shl(0, s), i) == Bit(0, i)
    {
      BitShl(0, s, i);
      BitsAbove(0, 0, i);
      if i >= s {
        BitsAbove(0, 0, i - s);
      }
    }
    BitsEqual(Shl(0, s), 0);
  }

  /** Adding 2^k to a number whose bit k is clear sets exactly that bit. */
  lemma {:induction false} BitAddPow2(x: nat, k: nat, i: nat)
    requires !Bit(x, k)
    ensures Bit(x + Pow2(k), i) == (Bit(x, i) || i == k)
    decreases k
  {
    if k == 0 {
      if i > 0 {
        assert (x + 1) / 2 == x / 2;
      }
    } else {
      assert (x + Pow2(k)) / 2 == x / 2 + Pow2(k - 1);
      assert (x + Pow2(k)) % 2 == x % 2;
      if i > 0 {
        BitAddPow2(x / 2, k - 1, i - 1);
      }
    }
  }

  lemma OrZero(x: u64)
    ensures Or(x, 0) == x && Or(0, x) == x
  {
    forall i: nat
      ensures Bit(Or(x, 0), i) == Bit(x, i) && Bit(Or(0, x), i) == Bit(x, i)
    {
      BitOr(x, 0, i);
      BitOr(0, x, i);
      BitsAbove(0, 0, i);
      if i >= 64 {
        BitU64(x, i);
      }
    }
    BitsEqual(Or(x, 0), x);
    BitsEqual(Or(0, x), x);
  }

  /** Or-ing 2^k into a word whose bit k is clear adds 2^k. */
  lemma OrPow2(x: u64, k: nat)
    requires k < 64 && !Bit(x, k)
    ensures Or(x, Pow2(k)) == x + Pow2(k)
  {
    forall i: nat
      ensures Bit(Or(x, Pow2(k)), i) == Bit(x + Pow2(k), i)
    {
      BitOr(x, Pow2(k), i);
      BitAddPow2(x, k, i);
      BitsAbove(0, 0, k);
      BitAddPow2(0, k, i);
      BitsAbove(0, 0, i);
      if i >= 64 {
        BitU64(x, i);
      }
    }
    BitsEqual(Or(x, Pow2(k)), x + Pow2(k));
  }

  /** Or-ing a flag `b << k` into a word whose bit k is clear adds b * 2^k. */
  lemma OrFlag(x: u64, b: nat, k: nat)
    requires b < 2 && k < 64 && !Bit(x, k)
    ensures Or(x, Shl(b, k)) == x + b * Pow2(k)
  {
    if b == 0 {
      ShlZero(k);
      OrZero(x);
    } else {
      ShlOne(k);
      OrPow2(x, k);
    }
  }

  lemma ModSmall(x: nat, m: nat)
    requires x < m
    ensures x % m == x
  {
  }

  lemma DivExact(x: nat, p: nat)
    requires 0 < p && x % p == 0
    ensures x / p * p == x
  {
  }

  lemma DivBound(x: nat, d: nat, m: nat)
    requires 0 < d && x < d * m
    ensures x / d < m
  {
  }
}
