/** Conversion between 32-bit linear addresses and 16-bit address pairs
    (src/bios/i386/src/addr.rs). `Addr32` is `u32` and `Addr16` a pair of
    `u16`. The code splits the address at bit 16 and joins the halves with a
    shift by 16, although its doc comment describes the real-mode
    segment:offset form, in which the segment counts 16-byte paragraphs. */
module Addr {
  import opened Bits
  import opened Results

  /** The largest real-mode address, 0xFFFF:0xFFFF. */
  const MAX_ADDR16: nat := 0xFFFF * 16 + 0xFFFF

  const MALFORMED: string := "Malformed 16 bit addr.\n"

  /** `to_addr16`: reject addresses above 0xFFFF:0xFFFF, otherwise the pair
      `((addr >> 16) as u16, addr as u16)`. */
  function ToAddr16(addr: u32): (r: Result<(u16, u16), string>)
    ensures r.Err? <==> addr > 0x10_FFEF
    ensures r.Err? ==> r.error == MALFORMED
    ensures r.Ok? ==> r.value.0 == addr / 0x1_0000 && r.value.1 == addr % 0x1_0000
  {
    Pow2Widths();
    HalfIsDiv(addr, 16);
    LowIsMod(addr, 16);
    if addr > MAX_ADDR16 then Err(MALFORMED)
    else Ok((Shr(addr, 16), Low(addr, 16)))
  }

  /** `to_addr32`: `((a.0 as u32) << 16) + (a.1 as u32)`. The shifted half
      fits 32 bits, so nothing is lost. */
  function ToAddr32(a: (u16, u16)): (r: u32)
    ensures r == a.0 * 0x1_0000 + a.1
  {
    ShiftedHalf(a.0);
    Shl(a.0, 16) + a.1
  }

  /** `x << s` on u64 is `x * 2^s` reduced modulo 2^64. */
  lemma ShlValue(x: u64, s: nat)
    requires s < 64
    ensures Shl(x, s) == x * Pow2(s) % Pow2(64)
    ensures x * Pow2(s) < Pow2(64) ==> Shl(x, s) == x * Pow2(s)
  {
    var d := Dbl(x, s);
    LowIsMod(d, 64);
    DblIsMul(x, s);
    assert Shl(x, s) == Low(d, 64);
    if d < Pow2(64) {
      ModSmall(d, Pow2(64));
    }
  }

  lemma ShiftedHalf(x: u16)
    ensures Shl(x, 16) == x * 0x1_0000
  {
    Pow2Widths();
    ShlValue(x, 16);
    assert x * Pow2(16) < Pow2(64);
  }

  /** The pair `to_addr16` returns joins back to the address. */
  lemma {:induction false} RoundTrip(addr: u32)
    requires addr <= 0x10_FFEF
    ensures ToAddr16(addr).Ok? && ToAddr32(ToAddr16(addr).value) == addr
  {
  }

  /** Every pair `to_addr32` accepts comes back from `to_addr16` when its
      join is a real-mode address. */
  lemma {:induction false} RoundTripPair(a: (u16, u16))
    requires ToAddr32(a) <= 0x10_FFEF
    ensures ToAddr16(ToAddr32(a)) == Ok(a)
  {
    DivModUnique(ToAddr32(a), 0x1_0000, a.0, a.1);
  }

  // ---------------------------------------------------------------------
  // The real-mode reading of a pair

  /** The linear address a real-mode `segment:offset` names. */
  function RealAddress(segment: u16, offset: u16): (r: nat)
    ensures r <= MAX_ADDR16
  {
    segment * 16 + offset
  }

  /** As written, the pair for 0x10200 is (0x1, 0x0200), not the documented
      (0x1000, 0x0200), and read as segment:offset it names 0x210. */
  lemma DocExample()
    ensures ToAddr16(0x1_0200) == Ok((0x1, 0x0200))
    ensures RealAddress(0x1, 0x0200) == 0x210 != 0x1_0200
  {
  }

  /** The conversion the doc comment describes: a segment:offset pair that
      names `addr` in real mode, with the offset kept below 64 KiB the way
      `read_disk` splits buffer addresses (segment = 64 KiB block * 0x1000).
      Addresses past 0xFFFF0 use the top segment 0xFFFF. */
  function ToRealAddr16(addr: u32): (r: Result<(u16, u16), string>)
    ensures r.Err? <==> addr > MAX_ADDR16
    ensures r.Ok? ==> RealAddress(r.value.0, r.value.1) == addr
  {
    if addr > MAX_ADDR16 then Err(MALFORMED)
    else if addr < 0x10_0000 then Ok((addr / 0x1_0000 * 0x1000, addr % 0x1_0000))
    else Ok((0xFFFF, addr - 0xF_FFF0))
  }

  /** The corrected conversion gives the documented pair for 0x10200. */
  lemma RealDocExample()
    ensures ToRealAddr16(0x1_0200) == Ok((0x1000, 0x0200))
  {
  }

  /** The corrected join: `(segment << 4) + offset`. */
  function ToRealAddr32(a: (u16, u16)): (r: u32)
    ensures r == RealAddress(a.0, a.1)
  {
    ShlValue(a.0, 4);
    Pow2Values();
    Shl(a.0, 4) + a.1
  }

  /** The corrected pair of functions round-trips on every real-mode
      address, and agrees with the code below 64 KiB. */
  lemma {:induction false} RealRoundTrip(addr: u32)
    requires addr <= MAX_ADDR16
    ensures ToRealAddr16(addr).Ok? && ToRealAddr32(ToRealAddr16(addr).value) == addr
    ensures addr < 0x1_0000 ==> ToRealAddr16(addr) == ToAddr16(addr)
  {
    var r := ToRealAddr16(addr);
    assert r.Ok? && RealAddress(r.value.0, r.value.1) == addr;
    if addr < 0x1_0000 {
      LowHalf(addr);
    }
  }

  /** Below 64 KiB both conversions give segment 0 and the address as offset. */
  lemma LowHalf(addr: u32)
    requires addr < 0x1_0000
    ensures ToRealAddr16(addr) == Ok((0, addr as u16)) && ToAddr16(addr) == Ok((0, addr as u16))
  {
    assert addr / 0x1_0000 == 0 && addr % 0x1_0000 == addr;
  }
}
