/** The bit-field primitive of i386/src/utils/bitwise.rs: `gen_mask` builds a
    run of ones and `mask_assign` copies a run of bits of one word into another.
    Every descriptor, selector and page-table encoder of the boot loader is a
    chain of `mask_assign` calls starting from a fixed word, which `AssignAll`
    captures once for all encoders.

    Both Rust functions are `const fn`. Their `u8` additions, the `i8` gap and
    the shifts are checked for overflow (a compile error in const evaluation),
    so the requires clauses below are exactly the inputs on which the Rust code
    is defined. */
module Bitwise {
  import opened Bits

  /** `gen_mask(start, len)`: ones at bit positions start .. start+len-1,
      cut at bit 63. */
  function GenMask(start: u8, len: u8): (m: u64)
    requires start < 64 && start + len < 256
    ensures forall i: nat :: Bit(m, i) == (start <= i < start + len && i < 64)
  {
    var m := if start + len >= 64 then
      Xor(Ones, LowMask(start))
    else
      Xor(LowMask(start + len), LowMask(start));
    assert forall i: nat :: Bit(m, i) == (start <= i < start + len && i < 64) by {
      forall i: nat
        ensures Bit(m, i) == (start <= i < start + len && i < 64)
      {
        BitLowMask(start, i);
        if start + len >= 64 {
          BitXor(Ones, LowMask(start), i);
          BitOnes(i);
        } else {
          BitXor(LowMask(start + len), LowMask(start), i);
          BitLowMask(start + len, i);
        }
      }
    }
    m
  }

  /** Bit i of `mask_assign(dest, src, dest_start, src_start, len)`:
      inside the destination field it is the source bit at the same offset
      from src_start (zero if that lies beyond bit 63); outside it is the
      destination bit. */
  predicate AssignedBit(dest: u64, src: u64, destStart: u8, srcStart: u8, len: u8, i: nat)
  {
    i < 64 &&
    if destStart <= i < destStart + len then
      i + srcStart - destStart < 64 && Bit(src, i + srcStart - destStart)
    else Bit(dest, i)
  }

  /** `mask_assign(dest, src, dest_start, src_start, len)`. */
  function MaskAssign(dest: u64, src: u64, destStart: u8, srcStart: u8, len: u8): (r: u64)
    requires destStart < 64 && srcStart < 64
    requires destStart + len < 256 && srcStart + len < 256
    ensures forall i: nat :: Bit(r, i) == AssignedBit(dest, src, destStart, srcStart, len, i)
  {
    var destMask := GenMask(destStart, len);
    var srcMask := GenMask(srcStart, len);
    var cleared := And(dest, Not(destMask));
    var r := if destStart >= srcStart then
      Or(cleared, Shl(And(src, srcMask), destStart - srcStart))
    else
      Or(cleared, Shr(And(src, srcMask), srcStart - destStart));
    assert forall i: nat :: Bit(r, i) == AssignedBit(dest, src, destStart, srcStart, len, i) by {
      forall i: nat
        ensures Bit(r, i) == AssignedBit(dest, src, destStart, srcStart, len, i)
      {
        ClearedBits(dest, destStart, len, i);
        if destStart >= srcStart {
          BitOr(cleared, Shl(And(src, srcMask), destStart - srcStart), i);
          ShiftedUpBits(src, destStart, srcStart, len, i);
        } else {
          BitOr(cleared, Shr(And(src, srcMask), srcStart - destStart), i);
          ShiftedDownBits(src, destStart, srcStart, len, i);
        }
      }
    }
    r
  }

  /** The inverse view: the `len`-bit field of `x` starting at bit `start`,
      i.e. `(x >> start) & ((1 << len) - 1)`. */
  function Extract(x: nat, start: nat, len: nat): nat
  {
    Low(Half(x, start), len)
  }

  /** `b as u64` */
  function BoolBit(b: bool): u64
  {
    if b then 1 else 0
  }

  // ---------------------------------------------------------------------
  // gen_mask

  /** An empty field has an empty mask. */
  lemma GenMaskEmpty(start: u8)
    requires start < 64
    ensures GenMask(start, 0) == 0
  {
    forall i: nat
      ensures Bit(GenMask(start, 0), i) == Bit(0, i)
    {
      BitsAbove(0, 0, i);
    }
    BitsEqual(GenMask(start, 0), 0);
  }

  // ---------------------------------------------------------------------
  // mask_assign, bit by bit

  /** `dest & !dest_mask` */
  lemma ClearedBits(dest: u64, destStart: u8, len: u8, i: nat)
    requires destStart < 64 && destStart + len < 256
    ensures Bit(And(dest, Not(GenMask(destStart, len))), i) ==
      (i < 64 && !(destStart <= i < destStart + len) && Bit(dest, i))
  {
    BitAnd(dest, Not(GenMask(destStart, len)), i);
    BitNot(GenMask(destStart, len), i);
  }

  /** `(src & src_mask) << gap` when the field moves up. */
  lemma ShiftedUpBits(src: u64, destStart: u8, srcStart: u8, len: u8, i: nat)
    requires srcStart <= destStart < 64 && srcStart + len < 256 && destStart + len < 256
    ensures Bit(Shl(And(src, GenMask(srcStart, len)), destStart - srcStart), i) ==
      (destStart <= i < destStart + len && i < 64 && Bit(src, i + srcStart - destStart))
  {
    var gap := destStart - srcStart;
    var field := And(src, GenMask(srcStart, len));
    BitShl(field, gap, i);
    if gap <= i {
      BitAnd(src, GenMask(srcStart, len), i - gap);
    }
  }

  /** `(src & src_mask) >> gap` when the field moves down. */
  lemma ShiftedDownBits(src: u64, destStart: u8, srcStart: u8, len: u8, i: nat)
    requires destStart < srcStart < 64 && srcStart + len < 256
    ensures Bit(Shr(And(src, GenMask(srcStart, len)), srcStart - destStart), i) ==
      (destStart <= i < destStart + len && i + srcStart - destStart < 64 && Bit(src, i + srcStart - destStart))
  {
    var gap := srcStart - destStart;
    var field := And(src, GenMask(srcStart, len));
    BitShr(field, gap, i);
    BitAnd(src, GenMask(srcStart, len), i + gap);
  }

  /** Frame: every bit outside the destination field keeps its value. */
  lemma MaskAssignFrame(dest: u64, src: u64, destStart: u8, srcStart: u8, len: u8)
    requires destStart < 64 && srcStart < 64
    requires destStart + len < 256 && srcStart + len < 256
    ensures forall i: nat | !(destStart <= i < destStart + len) ::
      Bit(MaskAssign(dest, src, destStart, srcStart, len), i) == Bit(dest, i)
  {
    forall i: nat | !(destStart <= i < destStart + len)
      ensures Bit(MaskAssign(dest, src, destStart, srcStart, len), i) == Bit(dest, i)
    {
      BitU64Below(dest, i);
    }
  }

  /** Inside the destination field the bits are the source field's bits, in
      order, for fields that fit in 64 bits. */
  lemma MaskAssignField(dest: u64, src: u64, destStart: u8, srcStart: u8, len: u8)
    requires destStart < 64 && srcStart < 64
    requires destStart + len <= 64 && srcStart + len <= 64
    ensures forall i: nat | destStart <= i < destStart + len ::
      Bit(MaskAssign(dest, src, destStart, srcStart, len), i) == Bit(src, i - destStart + srcStart)
  {
    forall i: nat | destStart <= i < destStart + len
      ensures Bit(MaskAssign(dest, src, destStart, srcStart, len), i) == Bit(src, i - destStart + srcStart)
    {
    }
  }

  lemma BitU64Below(x: u64, i: nat)
    ensures Bit(x, i) ==> i < 64
  {
    if i >= 64 {
      BitU64(x, i);
    }
  }

  /** A number with no bit set from position w on is below 2^w. */
  lemma {:induction false} BitsBelow(x: nat, w: nat)
    requires forall i: nat | w <= i :: !Bit(x, i)
    ensures x < Pow2(w)
    decreases w
  {
    if w == 0 {
      forall i: nat
        ensures Bit(x, i) == Bit(0, i)
      {
        BitsAbove(0, 0, i);
      }
      BitsEqual(x, 0);
    } else {
      forall i: nat | w - 1 <= i
        ensures !Bit(x / 2, i)
      {
        assert !Bit(x, i + 1);
      }
      BitsBelow(x / 2, w - 1);
    }
  }

  /** Assigning a field below bit w keeps a value below 2^w below 2^w. */
  lemma MaskAssignBelow(dest: u64, src: u64, destStart: u8, srcStart: u8, len: u8, w: nat)
    requires destStart < 64 && srcStart < 64
    requires destStart + len < 256 && srcStart + len < 256
    requires destStart + len <= w && dest < Pow2(w)
    ensures MaskAssign(dest, src, destStart, srcStart, len) < Pow2(w)
  {
    forall i: nat | w <= i
      ensures !Bit(MaskAssign(dest, src, destStart, srcStart, len), i)
    {
      BitsAbove(dest, w, i);
    }
    BitsBelow(MaskAssign(dest, src, destStart, srcStart, len), w);
  }

  // ---------------------------------------------------------------------
  // Extract

  lemma ExtractBits(x: nat, start: nat, len: nat, i: nat)
    ensures Bit(Extract(x, start, len), i) == (i < len && Bit(x, start + i))
  {
    BitLow(Half(x, start), len, i);
    BitHalf(x, start, i);
  }

  /** Two words agreeing on the bits of a field have equal fields. */
  lemma ExtractEqual(x: nat, y: nat, start: nat, len: nat)
    requires forall i: nat | start <= i < start + len :: Bit(x, i) == Bit(y, i)
    ensures Extract(x, start, len) == Extract(y, start, len)
  {
    forall i: nat
      ensures Bit(Extract(x, start, len), i) == Bit(Extract(y, start, len), i)
    {
      ExtractBits(x, start, len, i);
      ExtractBits(y, start, len, i);
      if i < len {
        assert Bit(x, start + i) == Bit(y, start + i);
      }
    }
    BitsEqual(Extract(x, start, len), Extract(y, start, len));
  }

  /** The field at bit 0 is the number modulo 2^len. */
  lemma ExtractLow(x: nat, len: nat)
    ensures Extract(x, 0, len) == x % Pow2(len)
  {
    LowIsMod(x, len);
  }

  /** A field of `len` bits is below 2^len. */
  lemma ExtractBound(x: nat, start: nat, len: nat)
    ensures Extract(x, start, len) < Pow2(len)
  {
    LowIsMod(Half(x, start), len);
  }

  /** A number below 2^start has only zero fields from bit `start` on. */
  lemma ExtractAbove(x: nat, start: nat, len: nat)
    requires x < Pow2(start)
    ensures Extract(x, start, len) == 0
  {
    var h := Half(x, start);
    HalfIsDiv(x, start);
    DivBound(x, Pow2(start), 1);
    assert h == 0;
    LowId(h, len);
  }

  /** A field is below 2^len. */
  lemma ExtractBelow(x: nat, start: nat, len: nat)
    ensures Extract(x, start, len) < Pow2(len)
  {
    WidthBounds(Half(x, start), 0, len);
  }

  /** Adjacent fields concatenate: the low `a` bits and the next `b` bits
      together form the low `a + b` bits. */
  lemma ExtractSplit(x: nat, start: nat, a: nat, b: nat)
    ensures Extract(x, start, a) + Extract(x, start + a, b) * Pow2(a) == Extract(x, start, a + b)
  {
    var lo := Extract(x, start, a);
    var hi := Extract(x, start + a, b);
    WidthBounds(Half(x, start), 0, a);
    DblIsMul(hi, a);
    var joined := Dbl(hi, a) + lo;
    var whole := Extract(x, start, a + b);
    forall i: nat
      ensures Bit(joined, i) == Bit(whole, i)
    {
      BitConcat(hi, lo, a, i);
      ExtractBits(x, start, a + b, i);
      if i < a {
        ExtractBits(x, start, a, i);
      } else {
        ExtractBits(x, start + a, b, i - a);
      }
    }
    BitsEqual(joined, whole);
  }

  // ---------------------------------------------------------------------
  // mask_assign, field by field

  /** Round trip: reading the destination field back yields the source
      field; with src_start = 0 that is `src mod 2^len`. */
  lemma MaskAssignRoundTrip(dest: u64, src: u64, destStart: u8, srcStart: u8, len: u8)
    requires destStart < 64 && srcStart < 64
    requires destStart + len <= 64 && srcStart + len <= 64
    ensures Extract(MaskAssign(dest, src, destStart, srcStart, len), destStart, len) ==
            Extract(src, srcStart, len)
    ensures srcStart == 0 ==>
      Extract(MaskAssign(dest, src, destStart, srcStart, len), destStart, len) == src % Pow2(len)
  {
    var r := MaskAssign(dest, src, destStart, srcStart, len);
    MaskAssignField(dest, src, destStart, srcStart, len);
    forall i: nat
      ensures Bit(Extract(r, destStart, len), i) == Bit(Extract(src, srcStart, len), i)
    {
      ExtractBits(r, destStart, len, i);
      ExtractBits(src, srcStart, len, i);
    }
    BitsEqual(Extract(r, destStart, len), Extract(src, srcStart, len));
    ExtractLow(src, len);
  }

  /** Frame, field form: a field disjoint from the destination field reads
      the same before and after. */
  lemma MaskAssignKeeps(dest: u64, src: u64, destStart: u8, srcStart: u8, len: u8, start: nat, width: nat)
    requires destStart < 64 && srcStart < 64
    requires destStart + len < 256 && srcStart + len < 256
    requires start + width <= destStart || destStart + len <= start
    ensures Extract(MaskAssign(dest, src, destStart, srcStart, len), start, width) == Extract(dest, start, width)
  {
    MaskAssignFrame(dest, src, destStart, srcStart, len);
    ExtractEqual(MaskAssign(dest, src, destStart, srcStart, len), dest, start, width);
  }

  /** Applying the same assignment twice is applying it once. */
  lemma MaskAssignIdempotent(dest: u64, src: u64, destStart: u8, srcStart: u8, len: u8)
    requires destStart < 64 && srcStart < 64
    requires destStart + len < 256 && srcStart + len < 256
    ensures MaskAssign(MaskAssign(dest, src, destStart, srcStart, len), src, destStart, srcStart, len) ==
            MaskAssign(dest, src, destStart, srcStart, len)
  {
    var once := MaskAssign(dest, src, destStart, srcStart, len);
    forall i: nat
      ensures Bit(MaskAssign(once, src, destStart, srcStart, len), i) == Bit(once, i)
    {
      BitU64Below(once, i);
    }
    BitsEqual(MaskAssign(once, src, destStart, srcStart, len), once);
  }

  /** A later assignment to the same field overrides an earlier one. */
  lemma MaskAssignOverwrite(dest: u64, src1: u64, src2: u64, destStart: u8, srcStart: u8, len: u8)
    requires destStart < 64 && srcStart < 64
    requires destStart + len < 256 && srcStart + len < 256
    ensures MaskAssign(MaskAssign(dest, src1, destStart, srcStart, len), src2, destStart, srcStart, len) ==
            MaskAssign(dest, src2, destStart, srcStart, len)
  {
    var once := MaskAssign(dest, src1, destStart, srcStart, len);
    forall i: nat
      ensures Bit(MaskAssign(once, src2, destStart, srcStart, len), i) ==
              Bit(MaskAssign(dest, src2, destStart, srcStart, len), i)
    {
    }
    BitsEqual(MaskAssign(once, src2, destStart, srcStart, len), MaskAssign(dest, src2, destStart, srcStart, len));
  }

  /** Assignments to disjoint destination fields commute. */
  lemma MaskAssignCommute(dest: u64, a: u64, aDest: u8, aSrc: u8, aLen: u8, b: u64, bDest: u8, bSrc: u8, bLen: u8)
    requires aDest < 64 && aSrc < 64 && aDest + aLen < 256 && aSrc + aLen < 256
    requires bDest < 64 && bSrc < 64 && bDest + bLen < 256 && bSrc + bLen < 256
    requires aDest + aLen <= bDest || bDest + bLen <= aDest
    ensures MaskAssign(MaskAssign(dest, a, aDest, aSrc, aLen), b, bDest, bSrc, bLen) ==
            MaskAssign(MaskAssign(dest, b, bDest, bSrc, bLen), a, aDest, aSrc, aLen)
  {
    var ab := MaskAssign(MaskAssign(dest, a, aDest, aSrc, aLen), b, bDest, bSrc, bLen);
    var ba := MaskAssign(MaskAssign(dest, b, bDest, bSrc, bLen), a, aDest, aSrc, aLen);
    forall i: nat
      ensures Bit(ab, i) == Bit(ba, i)
    {
    }
    BitsEqual(ab, ba);
  }

  // ---------------------------------------------------------------------
  // Place value

  /** A u64 value is the sum of its low, middle and high fields at their
      places. */
  lemma Decompose(x: u64, start: nat, len: nat)
    requires start + len <= 64
    ensures x == Extract(x, 0, start) + Extract(x, start, len) * Pow2(start) +
                 Extract(x, start + len, 64 - start - len) * Pow2(start + len)
  {
    ExtractSplit(x, 0, start, len);
    ExtractSplit(x, 0, start + len, 64 - start - len);
    Pow2Widths();
    LowId(x, 64);
  }

  /** Writing a field that is clear in `dest` adds the field's value at its
      place: `mask_assign(d, s, k, j, n) == d + ((s >> j) mod 2^n) * 2^k`. */
  lemma MaskAssignPlace(dest: u64, src: u64, destStart: u8, srcStart: u8, len: u8)
    requires destStart < 64 && destStart + len <= 64
    requires srcStart < 64 && srcStart + len <= 64
    requires Extract(dest, destStart, len) == 0
    ensures MaskAssign(dest, src, destStart, srcStart, len) ==
            dest + Extract(src, srcStart, len) * Pow2(destStart)
  {
    var r := MaskAssign(dest, src, destStart, srcStart, len);
    var hi := destStart + len;
    Decompose(r, destStart, len);
    Decompose(dest, destStart, len);
    MaskAssignKeeps(dest, src, destStart, srcStart, len, 0, destStart);
    MaskAssignKeeps(dest, src, destStart, srcStart, len, hi, 64 - hi);
    MaskAssignRoundTrip(dest, src, destStart, srcStart, len);
  }

  // ---------------------------------------------------------------------
  // Chains of assignments

  /** One `mask_assign(_, src, dest_start, src_start, len)` step of an encoder. */
  datatype Assign = Assign(src: u64, destStart: u8, srcStart: u8, len: u8)

  /** The step's arguments are in the domain of `mask_assign`. */
  predicate Defined(a: Assign)
  {
    a.destStart < 64 && a.srcStart < 64 && a.destStart + a.len < 256 && a.srcStart + a.len < 256
  }

  /** The step's source and destination fields lie inside the word. */
  predicate Fits(a: Assign)
  {
    a.destStart + a.len <= 64 && a.srcStart + a.len <= 64 && a.destStart < 64 && a.srcStart < 64
  }

  predicate AllDefined(fs: seq<Assign>)
  {
    forall k | 0 <= k < |fs| :: Defined(fs[k])
  }

  /** Bit i lies in the destination field of step a. */
  predicate Covers(a: Assign, i: nat)
  {
    a.destStart <= i < a.destStart + a.len
  }

  predicate Disjoint(a: Assign, b: Assign)
  {
    a.destStart + a.len <= b.destStart || b.destStart + b.len <= a.destStart
  }

  /** Well-formed encoder: every step fits and no two steps write the same bit. */
  predicate Layout(fs: seq<Assign>)
  {
    (forall k | 0 <= k < |fs| :: Fits(fs[k])) &&
    (forall j, k | 0 <= j < k < |fs| :: Disjoint(fs[j], fs[k]))
  }

  /** The steps after the first form an encoder of the same kind. */
  lemma Tail(fs: seq<Assign>)
    requires |fs| > 0
    ensures forall k | 0 <= k < |fs| - 1 :: fs[1..][k] == fs[k + 1]
    ensures AllDefined(fs) ==> AllDefined(fs[1..])
    ensures Layout(fs) ==> Layout(fs[1..])
  {
  }

  /** The steps applied in order, starting from `dest`. */
  function AssignAll(dest: u64, fs: seq<Assign>): u64
    requires AllDefined(fs)
    decreases |fs|
  {
    if |fs| == 0 then dest
    else
      var a := fs[0];
      AssignAll(MaskAssign(dest, a.src, a.destStart, a.srcStart, a.len), fs[1..])
  }

  /** A bit that no step writes keeps its starting value. */
  lemma {:induction false} AssignAllOutside(dest: u64, fs: seq<Assign>, i: nat)
    requires AllDefined(fs)
    requires forall k | 0 <= k < |fs| :: !Covers(fs[k], i)
    ensures Bit(AssignAll(dest, fs), i) == Bit(dest, i)
    decreases |fs|
  {
    if |fs| > 0 {
      var a := fs[0];
      assert !Covers(fs[0], i);
      BitU64Below(dest, i);
      Tail(fs);
      AssignAllOutside(MaskAssign(dest, a.src, a.destStart, a.srcStart, a.len), fs[1..], i);
    }
  }

  /** In a layout, a bit in the first step's field is in no later step's field. */
  lemma HeadOnly(fs: seq<Assign>, i: nat)
    requires Layout(fs) && |fs| > 0 && Covers(fs[0], i)
    ensures forall k | 0 <= k < |fs[1..]| :: !Covers(fs[1..][k], i)
  {
    forall k | 0 <= k < |fs[1..]|
      ensures !Covers(fs[1..][k], i)
    {
      assert Disjoint(fs[0], fs[k + 1]);
    }
  }

  /** A bit in the first step's field keeps the value that step writes. */
  lemma AssignAllHeadBit(dest: u64, fs: seq<Assign>, i: nat)
    requires AllDefined(fs) && Layout(fs)
    requires |fs| > 0 && Covers(fs[0], i)
    ensures Bit(AssignAll(dest, fs), i) == Bit(fs[0].src, i - fs[0].destStart + fs[0].srcStart)
  {
    var a := fs[0];
    assert Defined(a) && Fits(a);
    var next := MaskAssign(dest, a.src, a.destStart, a.srcStart, a.len);
    assert Bit(next, i) == AssignedBit(dest, a.src, a.destStart, a.srcStart, a.len, i);
    Tail(fs);
    HeadOnly(fs, i);
    AssignAllOutside(next, fs[1..], i);
  }

  /** Inside the field of step j the bits are that step's source bits. */
  lemma {:induction false} AssignAllBit(dest: u64, fs: seq<Assign>, j: nat, i: nat)
    requires AllDefined(fs) && Layout(fs)
    requires j < |fs| && Covers(fs[j], i)
    ensures Bit(AssignAll(dest, fs), i) == Bit(fs[j].src, i - fs[j].destStart + fs[j].srcStart)
    decreases |fs|, 1
  {
    if j == 0 {
      AssignAllHeadBit(dest, fs, i);
    } else {
      AssignAllTailBit(dest, fs, j, i);
    }
  }

  lemma {:induction false} AssignAllTailBit(dest: u64, fs: seq<Assign>, j: nat, i: nat)
    requires AllDefined(fs) && Layout(fs)
    requires 0 < j < |fs| && Covers(fs[j], i)
    ensures Bit(AssignAll(dest, fs), i) == Bit(fs[j].src, i - fs[j].destStart + fs[j].srcStart)
    decreases |fs|, 0
  {
    var a := fs[0];
    var next := MaskAssign(dest, a.src, a.destStart, a.srcStart, a.len);
    Tail(fs);
    AssignAllBit(next, fs[1..], j - 1, i);
  }

  /** Fields agree bit by bit when the bits at corresponding positions agree. */
  lemma ExtractBitFrom(r: nat, x: nat, rStart: nat, xStart: nat, len: nat, i: nat)
    requires i < len ==> Bit(r, rStart + i) == Bit(x, xStart + i)
    ensures Bit(Extract(r, rStart, len), i) == Bit(Extract(x, xStart, len), i)
  {
    ExtractBits(r, rStart, len, i);
    ExtractBits(x, xStart, len, i);
  }

  lemma AssignAllExtractBit(dest: u64, fs: seq<Assign>, j: nat, i: nat)
    requires AllDefined(fs) && Layout(fs) && j < |fs|
    ensures Bit(Extract(AssignAll(dest, fs), fs[j].destStart, fs[j].len), i) ==
            Bit(Extract(fs[j].src, fs[j].srcStart, fs[j].len), i)
  {
    var a := fs[j];
    if i < a.len {
      AssignAllBit(dest, fs, j, a.destStart + i);
    }
    ExtractBitFrom(AssignAll(dest, fs), a.src, a.destStart, a.srcStart, a.len, i);
  }

  /** Field round trip through a whole encoder: reading step j's destination
      field yields step j's source field. */
  lemma AssignAllExtract(dest: u64, fs: seq<Assign>, j: nat)
    requires AllDefined(fs) && Layout(fs) && j < |fs|
    ensures Extract(AssignAll(dest, fs), fs[j].destStart, fs[j].len) ==
            Extract(fs[j].src, fs[j].srcStart, fs[j].len)
  {
    var x := Extract(AssignAll(dest, fs), fs[j].destStart, fs[j].len);
    var y := Extract(fs[j].src, fs[j].srcStart, fs[j].len);
    forall i: nat
      ensures Bit(x, i) == Bit(y, i)
    {
      AssignAllExtractBit(dest, fs, j, i);
    }
    BitsEqual(x, y);
  }

  /** Every step's field reads back from the result of the whole chain. */
  lemma AssignAllFields(dest: u64, fs: seq<Assign>)
    requires AllDefined(fs) && Layout(fs)
    ensures forall j | 0 <= j < |fs| ::
      Extract(AssignAll(dest, fs), fs[j].destStart, fs[j].len) == Extract(fs[j].src, fs[j].srcStart, fs[j].len)
  {
    forall j | 0 <= j < |fs|
      ensures Extract(AssignAll(dest, fs), fs[j].destStart, fs[j].len) == Extract(fs[j].src, fs[j].srcStart, fs[j].len)
    {
      AssignAllExtract(dest, fs, j);
    }
  }

  /** Frame through a whole encoder: a field no step writes reads as in `dest`. */
  lemma AssignAllExtractOutside(dest: u64, fs: seq<Assign>, start: nat, width: nat)
    requires AllDefined(fs)
    requires forall k | 0 <= k < |fs| ::
      start + width <= fs[k].destStart || fs[k].destStart + fs[k].len <= start
    ensures Extract(AssignAll(dest, fs), start, width) == Extract(dest, start, width)
  {
    var r := AssignAll(dest, fs);
    forall i: nat
      ensures Bit(Extract(r, start, width), i) == Bit(Extract(dest, start, width), i)
    {
      ExtractBits(r, start, width, i);
      ExtractBits(dest, start, width, i);
      if i < width {
        AssignAllOutside(dest, fs, start + i);
      }
    }
    BitsEqual(Extract(r, start, width), Extract(dest, start, width));
  }

  /** The value an encoder adds: each step's source field at its destination
      position. */
  function FieldSum(fs: seq<Assign>): nat
  {
    if |fs| == 0 then 0
    else Extract(fs[0].src, fs[0].srcStart, fs[0].len) * Pow2(fs[0].destStart) + FieldSum(fs[1..])
  }

  /** Place value of a whole encoder: when every step writes a field that is
      clear in `dest`, the result is `dest` plus the fields' values at their
      places. */
  lemma {:induction false} AssignAllPlace(dest: u64, fs: seq<Assign>)
    requires AllDefined(fs) && Layout(fs)
    requires forall k | 0 <= k < |fs| :: Extract(dest, fs[k].destStart, fs[k].len) == 0
    ensures AssignAll(dest, fs) == dest + FieldSum(fs)
    decreases |fs|
  {
    if |fs| > 0 {
      var a := fs[0];
      var next := MaskAssign(dest, a.src, a.destStart, a.srcStart, a.len);
      MaskAssignPlace(dest, a.src, a.destStart, a.srcStart, a.len);
      Tail(fs);
      forall k | 0 <= k < |fs[1..]|
        ensures Extract(next, fs[1..][k].destStart, fs[1..][k].len) == 0
      {
        assert Disjoint(fs[0], fs[k + 1]);
        MaskAssignKeeps(dest, a.src, a.destStart, a.srcStart, a.len, fs[k + 1].destStart, fs[k + 1].len);
      }
      AssignAllPlace(next, fs[1..]);
    }
  }

  /** An encoder whose every source is zero, run from zero, yields zero. */
  lemma AssignAllZero(fs: seq<Assign>)
    requires AllDefined(fs) && Layout(fs)
    requires forall k | 0 <= k < |fs| :: fs[k].src == 0
    ensures AssignAll(0, fs) == 0
  {
    forall k | 0 <= k < |fs|
      ensures Extract(0, fs[k].destStart, fs[k].len) == 0
    {
      ExtractAbove(0, fs[k].destStart, fs[k].len);
    }
    AssignAllPlace(0, fs);
    FieldSumZero(fs);
  }

  lemma {:induction false} FieldSumZero(fs: seq<Assign>)
    requires forall k | 0 <= k < |fs| :: fs[k].src == 0
    ensures FieldSum(fs) == 0
    decreases |fs|
  {
    if |fs| > 0 {
      ExtractAbove(0, fs[0].srcStart, fs[0].len);
      assert forall k | 0 <= k < |fs[1..]| :: fs[1..][k] == fs[k + 1];
      FieldSumZero(fs[1..]);
    }
  }
}
