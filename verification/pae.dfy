/** PAE paging structures of i386/src/mem/paging/pae.rs (Intel SDM Vol. 3A
    section 4.4): the three entry encoders, the fixed-size tables built from
    them, `add_map`, and the control-register steps of `enable` and `update`
    as a trace of events.

    Every entry encoder starts from `page_phys | 1` (the present bit) and
    then writes one-bit flags with `mask_assign`; `Flag` is one such step. */
module Pae {
  import opened Bits
  import opened Bitwise
  import opened Results
  import opened Mem

  /** Entries per table: 4 PDPTEs, 512 PDEs, 512 PTEs. */
  const PDPTE_NUM: nat := 4
  const PDE_NUM: nat := 512
  const PTE_NUM: nat := 512

  const ENTRY_PRESENT: u64 := 1

  /** Bit positions of the entry flags (Intel SDM Vol. 3A tables 4-8 to 4-11). */
  const RW: u8 := 1
  const US: u8 := 2
  const PWT: u8 := 3
  const PCD: u8 := 4
  const PS: u8 := 7
  const PAT: u8 := 7
  const G: u8 := 8
  const PAT_LARGE: u8 := 12
  const XD: u8 := 63

  /** `PATMemoryType`: the three bits that select the memory type. */
  datatype MemType = MemType(pwt: bool, pcd: bool, pat: bool)

  /** `mask_assign(entry, b as u64, at, 0, 1)` */
  function Flag(b: bool, at: u8): Assign
  {
    Assign(BoolBit(b), at, 0, 1)
  }

  // ---------------------------------------------------------------------
  // Chains of one-bit flags

  /** Every step writes bit 0 of a 0/1 source to one bit of the word. */
  predicate FlagSteps(fs: seq<Assign>)
  {
    forall k | 0 <= k < |fs| :: fs[k].len == 1 && fs[k].srcStart == 0 && fs[k].src < 2 && fs[k].destStart < 64
  }

  /** The value the flags from step k on add at their places. */
  function FlagSum(fs: seq<Assign>, k: nat): nat
    decreases |fs| - k
  {
    if k >= |fs| then 0 else fs[k].src * Pow2(fs[k].destStart) + FlagSum(fs, k + 1)
  }

  /** One flag's term of the sum, its place given as a number. */
  lemma FlagTerm(b: bool, at: u8, p: nat)
    requires p == Pow2(at)
    ensures Flag(b, at).src * Pow2(Flag(b, at).destStart) == p * BoolBit(b)
  {
  }

  /** The sum over a display of up to eight steps, term by term. */
  lemma FlagSumDisplay(a0: Assign, a1: Assign, a2: Assign, a3: Assign, a4: Assign, a5: Assign, a6: Assign, a7: Assign)
    ensures FlagSum([a0, a1, a2, a3, a4, a5, a6, a7], 4) ==
      a4.src * Pow2(a4.destStart) + a5.src * Pow2(a5.destStart) + a6.src * Pow2(a6.destStart) + a7.src * Pow2(a7.destStart)
    ensures FlagSum([a0, a1, a2, a3, a4, a5, a6, a7], 0) ==
      a0.src * Pow2(a0.destStart) + a1.src * Pow2(a1.destStart) + a2.src * Pow2(a2.destStart)
      + a3.src * Pow2(a3.destStart) + FlagSum([a0, a1, a2, a3, a4, a5, a6, a7], 4)
  {
    var fs := [a0, a1, a2, a3, a4, a5, a6, a7];
    assert FlagSum(fs, 8) == 0;
    assert FlagSum(fs, 7) == a7.src * Pow2(a7.destStart);
    assert FlagSum(fs, 6) == a6.src * Pow2(a6.destStart) + FlagSum(fs, 7);
    assert FlagSum(fs, 5) == a5.src * Pow2(a5.destStart) + FlagSum(fs, 6);
    assert FlagSum(fs, 3) == a3.src * Pow2(a3.destStart) + FlagSum(fs, 4);
    assert FlagSum(fs, 2) == a2.src * Pow2(a2.destStart) + FlagSum(fs, 3);
    assert FlagSum(fs, 1) == a1.src * Pow2(a1.destStart) + FlagSum(fs, 2);
  }

  /** A flag's bit reads back as the flag. */
  lemma FlagBit(x: u64, fs: seq<Assign>, j: nat)
    requires AllDefined(fs) && Layout(fs) && FlagSteps(fs) && j < |fs|
    ensures Bit(AssignAll(x, fs), fs[j].destStart) == (fs[j].src == 1)
  {
    var a := fs[j];
    assert a.srcStart == 0 && a.src < 2 && a.len == 1;
    AssignAllBit(x, fs, j, a.destStart);
    assert a.destStart - a.destStart + a.srcStart == 0;
    BitZero(a.src);
  }

  lemma BitZero(v: nat)
    requires v < 2
    ensures Bit(v, 0) == (v == 1)
  {
  }

  /** A bit that no flag writes is the bit of `page_phys | 1`. */
  lemma EntryOther(phys: u64, fs: seq<Assign>, i: nat)
    requires AllDefined(fs) && FlagSteps(fs)
    requires forall k | 0 <= k < |fs| :: fs[k].destStart != i
    ensures Bit(AssignAll(Or(phys, ENTRY_PRESENT), fs), i) == (i == 0 || Bit(phys, i))
  {
    forall k | 0 <= k < |fs|
      ensures !Covers(fs[k], i)
    {
    }
    AssignAllOutside(Or(phys, ENTRY_PRESENT), fs, i);
    PresentBit(phys, i);
  }

  /** Writing flags whose bits are clear in `x` adds their values. */
  lemma FlagPlace(x: u64, fs: seq<Assign>)
    requires AllDefined(fs) && Layout(fs) && FlagSteps(fs)
    requires forall k | 0 <= k < |fs| :: !Bit(x, fs[k].destStart)
    ensures AssignAll(x, fs) == x + FlagSum(fs, 0)
  {
    forall k | 0 <= k < |fs|
      ensures Extract(x, fs[k].destStart, fs[k].len) == 0
    {
      ExtractOne(x, fs[k].destStart);
    }
    AssignAllPlace(x, fs);
    FieldIsFlagSum(fs, 0);
    assert fs[0..] == fs;
  }

  lemma {:induction false} FieldIsFlagSum(fs: seq<Assign>, k: nat)
    requires FlagSteps(fs) && k <= |fs|
    ensures FieldSum(fs[k..]) == FlagSum(fs, k)
    decreases |fs| - k
  {
    if k < |fs| {
      ExtractLow(fs[k].src, 1);
      assert Pow2(1) == 2;
      assert fs[k..][0] == fs[k] && fs[k..][1..] == fs[k + 1..];
      FieldIsFlagSum(fs, k + 1);
    }
  }

  /** A one-bit field is the bit. */
  lemma ExtractOne(x: nat, k: nat)
    ensures Extract(x, k, 1) == if Bit(x, k) then 1 else 0
  {
    LowIsMod(Half(x, k), 1);
    BitHalf(x, k, 0);
    assert Pow2(1) == 2;
  }

  lemma BoolBitBit(b: bool)
    ensures Bit(BoolBit(b), 0) == b
  {
  }

  /** The bits of `page_phys | 1`. */
  lemma PresentBit(phys: u64, i: nat)
    ensures Bit(Or(phys, ENTRY_PRESENT), i) == (i == 0 || Bit(phys, i))
  {
    BitOr(phys, 1, i);
    if i > 0 {
      BitsAbove(0, 0, i - 1);
    }
    if i >= 64 {
      BitU64(phys, i);
    }
  }

  /** `page_phys | 1` of an address with bit 0 clear adds 1. */
  lemma PresentPlace(phys: u64)
    requires phys % 2 == 0
    ensures Or(phys, ENTRY_PRESENT) == phys + 1
  {
    OrPow2(phys, 0);
  }

  /** An address aligned to 2^n has its low n bits clear; one below 2^w has
      no bit at or above w. */
  lemma AlignedBits(x: nat, n: nat, w: nat, k: nat)
    requires x % Pow2(n) == 0 && x < Pow2(w)
    requires k < n || w <= k
    ensures !Bit(x, k)
  {
    if k < n {
      LowIsMod(x, n);
      BitLow(x, n, k);
      BitsAbove(0, 0, k);
    } else {
      BitsAbove(x, w, k);
    }
  }

  /** Adding 1 to an even number sets bit 0 only. */
  lemma PlusOneBit(x: nat, k: nat)
    requires x % 2 == 0 && 0 < k
    ensures Bit(x + 1, k) == Bit(x, k)
  {
    BitAddPow2(x, 0, k);
  }

  /** The field from bit s of width w of an address aligned to 2^s below
      2^(s+w) is the address divided by 2^s. */
  lemma AlignedField(x: nat, s: nat, w: nat)
    requires x % Pow2(s) == 0 && x < Pow2(s + w)
    ensures Extract(x, s, w) * Pow2(s) == x
  {
    var p, q := Pow2(s), Pow2(w);
    HalfIsDiv(x, s);
    LowIsMod(x / p, w);
    Pow2Add(s, w);
    DivBound(x, p, q);
    ModSmall(x / p, q);
    DivExact(x, p);
  }


  /** An address with its low s bits clear and below 2^63, under flags that
      sit in bits 1 to s - 1 or in bit 63: the entry is the address, plus 1
      for P, plus every flag at its place. */
  lemma EntryPlace(phys: u64, fs: seq<Assign>, s: nat)
    requires AllDefined(fs) && Layout(fs) && FlagSteps(fs)
    requires forall k | 0 <= k < |fs| :: 0 < fs[k].destStart < s || fs[k].destStart == 63
    requires 1 <= s <= 63 && phys % Pow2(s) == 0 && phys < Pow2(63)
    ensures AssignAll(Or(phys, ENTRY_PRESENT), fs) == phys + 1 + FlagSum(fs, 0)
  {
    FlagsClear(phys, fs, s);
    PresentPlace(phys);
    FlagPlace(phys + 1, fs);
  }

  /** The address is even and none of its flag bits is set in `phys + 1`. */
  lemma FlagsClear(phys: u64, fs: seq<Assign>, s: nat)
    requires forall k | 0 <= k < |fs| :: 0 < fs[k].destStart < s || fs[k].destStart == 63
    requires 1 <= s <= 63 && phys % Pow2(s) == 0 && phys < Pow2(63)
    ensures phys % 2 == 0
    ensures forall k | 0 <= k < |fs| :: !Bit(phys + 1, fs[k].destStart)
  {
    AlignedBits(phys, s, 63, 0);
    forall k | 0 <= k < |fs|
      ensures !Bit(phys + 1, fs[k].destStart)
    {
      var d := fs[k].destStart as nat;
      AlignedBits(phys, s, 63, d);
      PlusOneBit(phys, d);
    }
  }

  // ---------------------------------------------------------------------
  // PTEntry: a 4 KiB page (Intel SDM Vol. 3A table 4-11)

  function PteSteps(writable: bool, user: bool, mem: MemType, global: bool, xd: bool): seq<Assign>
  {
    [Flag(writable, RW), Flag(user, US), Flag(mem.pwt, PWT), Flag(mem.pcd, PCD), Flag(mem.pat, PAT),
     Flag(global, G), Flag(xd, XD)]
  }

  lemma PteLayout(writable: bool, user: bool, mem: MemType, global: bool, xd: bool)
    ensures var fs := PteSteps(writable, user, mem, global, xd); AllDefined(fs) && Layout(fs) && FlagSteps(fs)
  {
  }

  /** `PTEntry::empty()` */
  const EMPTY_ENTRY: u64 := 0

  /** `PTEntry::new(writable, user_access, mem_ty, global, page_phys, xd)`:
      P, R/W, U/S, PWT, PCD, PAT (bit 7), G (bit 8) and XD (bit 63) follow
      the arguments, and every other bit comes from `page_phys`. */
  function NewPte(writable: bool, user: bool, mem: MemType, global: bool, pagePhys: u64, xd: bool): (e: u64)
    ensures Bit(e, 0) && Bit(e, 1) == writable && Bit(e, 2) == user && Bit(e, 3) == mem.pwt && Bit(e, 4) == mem.pcd
    ensures Bit(e, 7) == mem.pat && Bit(e, 8) == global && Bit(e, 63) == xd
    ensures forall i: nat | i !in {0, 1, 2, 3, 4, 7, 8, 63} :: Bit(e, i) == Bit(pagePhys, i)
  {
    PteLayout(writable, user, mem, global, xd);
    PteFlagBits(writable, user, mem, global, pagePhys, xd);
    PteOtherBits(writable, user, mem, global, pagePhys, xd);
    AssignAll(Or(pagePhys, ENTRY_PRESENT), PteSteps(writable, user, mem, global, xd))
  }

  /** The flag bits of the encoder's result. */
  lemma PteFlagBits(writable: bool, user: bool, mem: MemType, global: bool, pagePhys: u64, xd: bool)
    ensures var e := AssignAll(Or(pagePhys, ENTRY_PRESENT), PteSteps(writable, user, mem, global, xd));
      Bit(e, 0) && Bit(e, 1) == writable && Bit(e, 2) == user && Bit(e, 3) == mem.pwt && Bit(e, 4) == mem.pcd
      && Bit(e, 7) == mem.pat && Bit(e, 8) == global && Bit(e, 63) == xd
  {
    var fs := PteSteps(writable, user, mem, global, xd);
    var x := Or(pagePhys, ENTRY_PRESENT);
    PteLayout(writable, user, mem, global, xd);
    EntryOther(pagePhys, fs, 0);
    FlagBit(x, fs, 0);
    FlagBit(x, fs, 1);
    FlagBit(x, fs, 2);
    FlagBit(x, fs, 3);
    FlagBit(x, fs, 4);
    FlagBit(x, fs, 5);
    FlagBit(x, fs, 6);
  }

  /** The bits the encoder does not set come from the address. */
  lemma PteOtherBits(writable: bool, user: bool, mem: MemType, global: bool, pagePhys: u64, xd: bool)
    ensures forall i: nat | i !in {0, 1, 2, 3, 4, 7, 8, 63} ::
      Bit(AssignAll(Or(pagePhys, ENTRY_PRESENT), PteSteps(writable, user, mem, global, xd)), i) == Bit(pagePhys, i)
  {
    PteLayout(writable, user, mem, global, xd);
    forall i: nat | i !in {0, 1, 2, 3, 4, 7, 8, 63}
      ensures Bit(AssignAll(Or(pagePhys, ENTRY_PRESENT), PteSteps(writable, user, mem, global, xd)), i)
        == Bit(pagePhys, i)
    {
      EntryOther(pagePhys, PteSteps(writable, user, mem, global, xd), i);
    }
  }

  /** Page frame round trip: bits 12..62 of the entry read back the
      frame number of `page_phys`, which for a 4 KiB-aligned address below
      2^63 gives the address itself. */
  lemma PteFrame(writable: bool, user: bool, mem: MemType, global: bool, pagePhys: u64, xd: bool)
    ensures Extract(NewPte(writable, user, mem, global, pagePhys, xd), 12, 51) == Extract(pagePhys, 12, 51)
    ensures pagePhys % 0x1000 == 0 && pagePhys < 0x8000_0000_0000_0000 ==>
      Extract(NewPte(writable, user, mem, global, pagePhys, xd), 12, 51) * 0x1000 == pagePhys
  {
    var e := NewPte(writable, user, mem, global, pagePhys, xd);
    assert forall i: nat | 12 <= i < 12 + 51 :: Bit(e, i) == Bit(pagePhys, i);
    ExtractEqual(e, pagePhys, 12, 51);
    if pagePhys % 0x1000 == 0 && pagePhys < 0x8000_0000_0000_0000 {
      Pow2Values();
      AlignedField(pagePhys, 12, 51);
    }
  }

  /** For a 4 KiB-aligned address below 2^63 the entry is the address plus
      the flags at their places. */
  lemma PteValue(writable: bool, user: bool, mem: MemType, global: bool, pagePhys: u64, xd: bool)
    requires pagePhys % 0x1000 == 0 && pagePhys < 0x8000_0000_0000_0000
    ensures NewPte(writable, user, mem, global, pagePhys, xd) ==
      pagePhys + 1 + 2 * BoolBit(writable) + 4 * BoolBit(user) + 8 * BoolBit(mem.pwt) + 0x10 * BoolBit(mem.pcd)
      + 0x80 * BoolBit(mem.pat) + 0x100 * BoolBit(global) + 0x8000_0000_0000_0000 * BoolBit(xd)
  {
    PteRaw(writable, user, mem, global, pagePhys, xd);
  }

  lemma PteRaw(writable: bool, user: bool, mem: MemType, global: bool, pagePhys: u64, xd: bool)
    requires pagePhys % 0x1000 == 0 && pagePhys < 0x8000_0000_0000_0000
    ensures AssignAll(Or(pagePhys, ENTRY_PRESENT), PteSteps(writable, user, mem, global, xd)) ==
      pagePhys + 1 + 2 * BoolBit(writable) + 4 * BoolBit(user) + 8 * BoolBit(mem.pwt) + 0x10 * BoolBit(mem.pcd)
      + 0x80 * BoolBit(mem.pat) + 0x100 * BoolBit(global) + 0x8000_0000_0000_0000 * BoolBit(xd)
  {
    var fs := PteSteps(writable, user, mem, global, xd);
    PteLayout(writable, user, mem, global, xd);
    Pow2Values();
    EntryPlace(pagePhys, fs, 12);
    PteSum(writable, user, mem, global, xd);
  }

  lemma PteSum(writable: bool, user: bool, mem: MemType, global: bool, xd: bool)
    ensures FlagSum(PteSteps(writable, user, mem, global, xd), 0) ==
      2 * BoolBit(writable) + 4 * BoolBit(user) + 8 * BoolBit(mem.pwt) + 0x10 * BoolBit(mem.pcd)
      + 0x80 * BoolBit(mem.pat) + 0x100 * BoolBit(global) + 0x8000_0000_0000_0000 * BoolBit(xd)
  {
    var fs := PteSteps(writable, user, mem, global, xd);
    Pow2Values();
    FlagTerm(writable, RW, 2);
    FlagTerm(user, US, 4);
    FlagTerm(mem.pwt, PWT, 8);
    FlagTerm(mem.pcd, PCD, 0x10);
    FlagTerm(mem.pat, PAT, 0x80);
    FlagTerm(global, G, 0x100);
    FlagTerm(xd, XD, 0x8000_0000_0000_0000);
    assert FlagSum(fs, 6) == 0x8000_0000_0000_0000 * BoolBit(xd);
    assert FlagSum(fs, 5) == 0x100 * BoolBit(global) + FlagSum(fs, 6);
    assert FlagSum(fs, 4) == 0x80 * BoolBit(mem.pat) + FlagSum(fs, 5);
    assert FlagSum(fs, 3) == 0x10 * BoolBit(mem.pcd) + FlagSum(fs, 4);
    assert FlagSum(fs, 2) == 8 * BoolBit(mem.pwt) + FlagSum(fs, 3);
    assert FlagSum(fs, 1) == 4 * BoolBit(user) + FlagSum(fs, 2);
  }

  // ---------------------------------------------------------------------
  // PDEntry: a 2 MiB page or a page table (Intel SDM Vol. 3A tables 4-9, 4-10)

  function PdePageSteps(writable: bool, user: bool, mem: MemType, global: bool, xd: bool): seq<Assign>
  {
    [Flag(writable, RW), Flag(user, US), Flag(mem.pwt, PWT), Flag(mem.pcd, PCD), Flag(true, PS),
     Flag(global, G), Flag(mem.pat, PAT_LARGE), Flag(xd, XD)]
  }

  lemma PdePageLayout(writable: bool, user: bool, mem: MemType, global: bool, xd: bool)
    ensures var fs := PdePageSteps(writable, user, mem, global, xd); AllDefined(fs) && Layout(fs) && FlagSteps(fs)
  {
  }

  /** `PDEntry::new_page(writable, user_access, mem_ty, global, page_phys, xd)`:
      P and PS are always set; R/W, U/S, PWT, PCD, G (bit 8), PAT (moved up
      to bit 12) and XD (bit 63) follow the arguments, and every other bit
      comes from `page_phys`. */
  function NewPdePage(writable: bool, user: bool, mem: MemType, global: bool, pagePhys: u64, xd: bool): (e: u64)
    ensures Bit(e, 0) && Bit(e, 1) == writable && Bit(e, 2) == user && Bit(e, 3) == mem.pwt && Bit(e, 4) == mem.pcd
    ensures Bit(e, 7) && Bit(e, 8) == global && Bit(e, 12) == mem.pat && Bit(e, 63) == xd
    ensures forall i: nat | i !in {0, 1, 2, 3, 4, 7, 8, 12, 63} :: Bit(e, i) == Bit(pagePhys, i)
  {
    PdePageLayout(writable, user, mem, global, xd);
    PdePageFlagBits(writable, user, mem, global, pagePhys, xd);
    PdePageOtherBits(writable, user, mem, global, pagePhys, xd);
    AssignAll(Or(pagePhys, ENTRY_PRESENT), PdePageSteps(writable, user, mem, global, xd))
  }

  /** The flag bits of the encoder's result. */
  lemma PdePageFlagBits(writable: bool, user: bool, mem: MemType, global: bool, pagePhys: u64, xd: bool)
    ensures var e := AssignAll(Or(pagePhys, ENTRY_PRESENT), PdePageSteps(writable, user, mem, global, xd));
      Bit(e, 0) && Bit(e, 1) == writable && Bit(e, 2) == user && Bit(e, 3) == mem.pwt && Bit(e, 4) == mem.pcd
      && Bit(e, 7) && Bit(e, 8) == global && Bit(e, 12) == mem.pat && Bit(e, 63) == xd
  {
    var fs := PdePageSteps(writable, user, mem, global, xd);
    var x := Or(pagePhys, ENTRY_PRESENT);
    PdePageLayout(writable, user, mem, global, xd);
    EntryOther(pagePhys, fs, 0);
    FlagBit(x, fs, 0);
    FlagBit(x, fs, 1);
    FlagBit(x, fs, 2);
    FlagBit(x, fs, 3);
    FlagBit(x, fs, 4);
    FlagBit(x, fs, 5);
    FlagBit(x, fs, 6);
    FlagBit(x, fs, 7);
  }

  /** The bits the encoder does not set come from the address. */
  lemma PdePageOtherBits(writable: bool, user: bool, mem: MemType, global: bool, pagePhys: u64, xd: bool)
    ensures forall i: nat | i !in {0, 1, 2, 3, 4, 7, 8, 12, 63} ::
      Bit(AssignAll(Or(pagePhys, ENTRY_PRESENT), PdePageSteps(writable, user, mem, global, xd)), i) == Bit(pagePhys, i)
  {
    PdePageLayout(writable, user, mem, global, xd);
    forall i: nat | i !in {0, 1, 2, 3, 4, 7, 8, 12, 63}
      ensures Bit(AssignAll(Or(pagePhys, ENTRY_PRESENT), PdePageSteps(writable, user, mem, global, xd)), i)
        == Bit(pagePhys, i)
    {
      EntryOther(pagePhys, PdePageSteps(writable, user, mem, global, xd), i);
    }
  }

  /** For a 2 MiB-aligned address below 2^63 the entry is the address plus
      P, PS and the flags at their places. */
  lemma PdePageValue(writable: bool, user: bool, mem: MemType, global: bool, pagePhys: u64, xd: bool)
    requires pagePhys % 0x20_0000 == 0 && pagePhys < 0x8000_0000_0000_0000
    ensures NewPdePage(writable, user, mem, global, pagePhys, xd) ==
      pagePhys + 0x81 + 2 * BoolBit(writable) + 4 * BoolBit(user) + 8 * BoolBit(mem.pwt) + 0x10 * BoolBit(mem.pcd)
      + 0x100 * BoolBit(global) + 0x1000 * BoolBit(mem.pat) + 0x8000_0000_0000_0000 * BoolBit(xd)
  {
    PdePageRaw(writable, user, mem, global, pagePhys, xd);
  }

  lemma PdePageRaw(writable: bool, user: bool, mem: MemType, global: bool, pagePhys: u64, xd: bool)
    requires pagePhys % 0x20_0000 == 0 && pagePhys < 0x8000_0000_0000_0000
    ensures AssignAll(Or(pagePhys, ENTRY_PRESENT), PdePageSteps(writable, user, mem, global, xd)) ==
      pagePhys + 0x81 + 2 * BoolBit(writable) + 4 * BoolBit(user) + 8 * BoolBit(mem.pwt) + 0x10 * BoolBit(mem.pcd)
      + 0x100 * BoolBit(global) + 0x1000 * BoolBit(mem.pat) + 0x8000_0000_0000_0000 * BoolBit(xd)
  {
    var fs := PdePageSteps(writable, user, mem, global, xd);
    PdePageLayout(writable, user, mem, global, xd);
    Pow2Values();
    EntryPlace(pagePhys, fs, 21);
    PdePageSum(writable, user, mem, global, xd);
  }

  lemma PdePageSum(writable: bool, user: bool, mem: MemType, global: bool, xd: bool)
    ensures FlagSum(PdePageSteps(writable, user, mem, global, xd), 0) ==
      0x80 + 2 * BoolBit(writable) + 4 * BoolBit(user) + 8 * BoolBit(mem.pwt) + 0x10 * BoolBit(mem.pcd)
      + 0x100 * BoolBit(global) + 0x1000 * BoolBit(mem.pat) + 0x8000_0000_0000_0000 * BoolBit(xd)
  {
    Pow2Values();
    FlagSumDisplay(Flag(writable, RW), Flag(user, US), Flag(mem.pwt, PWT), Flag(mem.pcd, PCD), Flag(true, PS),
                   Flag(global, G), Flag(mem.pat, PAT_LARGE), Flag(xd, XD));
    FlagTerm(writable, RW, 2);
    FlagTerm(user, US, 4);
    FlagTerm(mem.pwt, PWT, 8);
    FlagTerm(mem.pcd, PCD, 0x10);
    FlagTerm(true, PS, 0x80);
    FlagTerm(global, G, 0x100);
    FlagTerm(mem.pat, PAT_LARGE, 0x1000);
    FlagTerm(xd, XD, 0x8000_0000_0000_0000);
  }

  function PdeTableSteps(writable: bool, user: bool, mem: MemType, xd: bool): seq<Assign>
  {
    [Flag(writable, RW), Flag(user, US), Flag(mem.pwt, PWT), Flag(mem.pcd, PCD), Flag(false, PS), Flag(xd, XD)]
  }

  lemma PdeTableLayout(writable: bool, user: bool, mem: MemType, xd: bool)
    ensures var fs := PdeTableSteps(writable, user, mem, xd); AllDefined(fs) && Layout(fs) && FlagSteps(fs)
  {
  }

  /** `PDEntry::new_table(writable, user_access, mem_ty, page_table_phys, xd)`:
      P is set and PS clear; R/W, U/S, PWT, PCD and XD follow the arguments,
      the PAT bit of `mem_ty` is not used, and every other bit, G (bit 8)
      and bit 12 included, comes from `page_table_phys`. */
  function NewPdeTable(writable: bool, user: bool, mem: MemType, tablePhys: u64, xd: bool): (e: u64)
    ensures Bit(e, 0) && Bit(e, 1) == writable && Bit(e, 2) == user && Bit(e, 3) == mem.pwt && Bit(e, 4) == mem.pcd
    ensures !Bit(e, 7) && Bit(e, 63) == xd
    ensures forall i: nat | i !in {0, 1, 2, 3, 4, 7, 63} :: Bit(e, i) == Bit(tablePhys, i)
  {
    PdeTableLayout(writable, user, mem, xd);
    PdeTableFlagBits(writable, user, mem, tablePhys, xd);
    PdeTableOtherBits(writable, user, mem, tablePhys, xd);
    AssignAll(Or(tablePhys, ENTRY_PRESENT), PdeTableSteps(writable, user, mem, xd))
  }

  /** The flag bits of the encoder's result. */
  lemma PdeTableFlagBits(writable: bool, user: bool, mem: MemType, tablePhys: u64, xd: bool)
    ensures var e := AssignAll(Or(tablePhys, ENTRY_PRESENT), PdeTableSteps(writable, user, mem, xd));
      Bit(e, 0) && Bit(e, 1) == writable && Bit(e, 2) == user && Bit(e, 3) == mem.pwt && Bit(e, 4) == mem.pcd
      && !Bit(e, 7) && Bit(e, 63) == xd
  {
    var fs := PdeTableSteps(writable, user, mem, xd);
    var x := Or(tablePhys, ENTRY_PRESENT);
    PdeTableLayout(writable, user, mem, xd);
    EntryOther(tablePhys, fs, 0);
    FlagBit(x, fs, 0);
    FlagBit(x, fs, 1);
    FlagBit(x, fs, 2);
    FlagBit(x, fs, 3);
    FlagBit(x, fs, 4);
    FlagBit(x, fs, 5);
  }

  /** The bits the encoder does not set come from the address. */
  lemma PdeTableOtherBits(writable: bool, user: bool, mem: MemType, tablePhys: u64, xd: bool)
    ensures forall i: nat | i !in {0, 1, 2, 3, 4, 7, 63} ::
      Bit(AssignAll(Or(tablePhys, ENTRY_PRESENT), PdeTableSteps(writable, user, mem, xd)), i) == Bit(tablePhys, i)
  {
    PdeTableLayout(writable, user, mem, xd);
    forall i: nat | i !in {0, 1, 2, 3, 4, 7, 63}
      ensures Bit(AssignAll(Or(tablePhys, ENTRY_PRESENT), PdeTableSteps(writable, user, mem, xd)), i)
        == Bit(tablePhys, i)
    {
      EntryOther(tablePhys, PdeTableSteps(writable, user, mem, xd), i);
    }
  }

  /** For a 4 KiB-aligned address below 2^63 the entry is the address plus
      P and the flags at their places. */
  lemma PdeTableValue(writable: bool, user: bool, mem: MemType, tablePhys: u64, xd: bool)
    requires tablePhys % 0x1000 == 0 && tablePhys < 0x8000_0000_0000_0000
    ensures NewPdeTable(writable, user, mem, tablePhys, xd) ==
      tablePhys + 1 + 2 * BoolBit(writable) + 4 * BoolBit(user) + 8 * BoolBit(mem.pwt) + 0x10 * BoolBit(mem.pcd)
      + 0x8000_0000_0000_0000 * BoolBit(xd)
  {
    PdeTableRaw(writable, user, mem, tablePhys, xd);
  }

  lemma PdeTableRaw(writable: bool, user: bool, mem: MemType, tablePhys: u64, xd: bool)
    requires tablePhys % 0x1000 == 0 && tablePhys < 0x8000_0000_0000_0000
    ensures AssignAll(Or(tablePhys, ENTRY_PRESENT), PdeTableSteps(writable, user, mem, xd)) ==
      tablePhys + 1 + 2 * BoolBit(writable) + 4 * BoolBit(user) + 8 * BoolBit(mem.pwt) + 0x10 * BoolBit(mem.pcd)
      + 0x8000_0000_0000_0000 * BoolBit(xd)
  {
    var fs := PdeTableSteps(writable, user, mem, xd);
    PdeTableLayout(writable, user, mem, xd);
    Pow2Values();
    EntryPlace(tablePhys, fs, 12);
    PdeTableSum(writable, user, mem, xd);
  }

  lemma PdeTableSum(writable: bool, user: bool, mem: MemType, xd: bool)
    ensures FlagSum(PdeTableSteps(writable, user, mem, xd), 0) ==
      2 * BoolBit(writable) + 4 * BoolBit(user) + 8 * BoolBit(mem.pwt) + 0x10 * BoolBit(mem.pcd)
      + 0x8000_0000_0000_0000 * BoolBit(xd)
  {
    var fs := PdeTableSteps(writable, user, mem, xd);
    Pow2Values();
    FlagTerm(writable, RW, 2);
    FlagTerm(user, US, 4);
    FlagTerm(mem.pwt, PWT, 8);
    FlagTerm(mem.pcd, PCD, 0x10);
    FlagTerm(false, PS, 0x80);
    FlagTerm(xd, XD, 0x8000_0000_0000_0000);
    assert FlagSum(fs, 5) == 0x8000_0000_0000_0000 * BoolBit(xd);
    assert FlagSum(fs, 4) == FlagSum(fs, 5);
    assert FlagSum(fs, 3) == 0x10 * BoolBit(mem.pcd) + FlagSum(fs, 4);
    assert FlagSum(fs, 2) == 8 * BoolBit(mem.pwt) + FlagSum(fs, 3);
    assert FlagSum(fs, 1) == 4 * BoolBit(user) + FlagSum(fs, 2);
  }

  /** Bit 7 tells the two kinds of directory entry apart: no large-page
      entry equals any page-table pointer. */
  lemma PageOrTable(writable: bool, user: bool, mem: MemType, global: bool, pagePhys: u64, xd: bool,
                    writable': bool, user': bool, mem': MemType, tablePhys: u64, xd': bool)
    ensures NewPdePage(writable, user, mem, global, pagePhys, xd) != NewPdeTable(writable', user', mem', tablePhys, xd')
  {
  }

  // ---------------------------------------------------------------------
  // PDPTEntry: a pointer to a page directory (Intel SDM Vol. 3A table 4-8)

  function PdpteSteps(mem: MemType): seq<Assign>
  {
    [Flag(mem.pwt, PWT), Flag(mem.pcd, PCD)]
  }

  lemma PdpteLayout(mem: MemType)
    ensures var fs := PdpteSteps(mem); AllDefined(fs) && Layout(fs) && FlagSteps(fs)
  {
  }

  /** `PDPTEntry::new(mem_ty, page_dir_phys)`: P is set, PWT and PCD follow
      `mem_ty` (its PAT bit is not used), and every other bit comes from
      `page_dir_phys`. */
  function NewPdpte(mem: MemType, dirPhys: u64): (e: u64)
    ensures Bit(e, 0) && Bit(e, 3) == mem.pwt && Bit(e, 4) == mem.pcd
    ensures forall i: nat | i !in {0, 3, 4} :: Bit(e, i) == Bit(dirPhys, i)
  {
    PdpteLayout(mem);
    PdpteFlagBits(mem, dirPhys);
    PdpteOtherBits(mem, dirPhys);
    AssignAll(Or(dirPhys, ENTRY_PRESENT), PdpteSteps(mem))
  }

  /** The flag bits of the encoder's result. */
  lemma PdpteFlagBits(mem: MemType, dirPhys: u64)
    ensures var e := AssignAll(Or(dirPhys, ENTRY_PRESENT), PdpteSteps(mem));
      Bit(e, 0) && Bit(e, 3) == mem.pwt && Bit(e, 4) == mem.pcd
  {
    var fs := PdpteSteps(mem);
    var x := Or(dirPhys, ENTRY_PRESENT);
    PdpteLayout(mem);
    EntryOther(dirPhys, fs, 0);
    FlagBit(x, fs, 0);
    FlagBit(x, fs, 1);
  }

  /** The bits the encoder does not set come from the address. */
  lemma PdpteOtherBits(mem: MemType, dirPhys: u64)
    ensures forall i: nat | i !in {0, 3, 4} ::
      Bit(AssignAll(Or(dirPhys, ENTRY_PRESENT), PdpteSteps(mem)), i) == Bit(dirPhys, i)
  {
    PdpteLayout(mem);
    forall i: nat | i !in {0, 3, 4}
      ensures Bit(AssignAll(Or(dirPhys, ENTRY_PRESENT), PdpteSteps(mem)), i)
        == Bit(dirPhys, i)
    {
      EntryOther(dirPhys, PdpteSteps(mem), i);
    }
  }

  /** For a 4 KiB-aligned address below 2^63 the entry is the address plus
      P, PWT and PCD at their places, and nothing else. */
  lemma PdpteValue(mem: MemType, dirPhys: u64)
    requires dirPhys % 0x1000 == 0 && dirPhys < 0x8000_0000_0000_0000
    ensures NewPdpte(mem, dirPhys) == dirPhys + 1 + 8 * BoolBit(mem.pwt) + 0x10 * BoolBit(mem.pcd)
  {
    PdpteRaw(mem, dirPhys);
  }

  lemma PdpteRaw(mem: MemType, dirPhys: u64)
    requires dirPhys % 0x1000 == 0 && dirPhys < 0x8000_0000_0000_0000
    ensures AssignAll(Or(dirPhys, ENTRY_PRESENT), PdpteSteps(mem)) ==
      dirPhys + 1 + 8 * BoolBit(mem.pwt) + 0x10 * BoolBit(mem.pcd)
  {
    var fs := PdpteSteps(mem);
    PdpteLayout(mem);
    Pow2Values();
    EntryPlace(dirPhys, fs, 12);
    PdpteSum(mem);
  }

  lemma PdpteSum(mem: MemType)
    ensures FlagSum(PdpteSteps(mem), 0) == 8 * BoolBit(mem.pwt) + 0x10 * BoolBit(mem.pcd)
  {
    var fs := PdpteSteps(mem);
    Pow2Values();
    FlagTerm(mem.pwt, PWT, 8);
    FlagTerm(mem.pcd, PCD, 0x10);
    assert FlagSum(fs, 1) == 0x10 * BoolBit(mem.pcd);
  }

  // ---------------------------------------------------------------------
  // The tables (the `impl_page_table!` macro, for all three levels)

  /** A table of `num` empty entries: `new()`. */
  function NewTable(num: nat): (t: seq<u64>)
    ensures |t| == num && forall i | 0 <= i < num :: t[i] == EMPTY_ENTRY
  {
    seq(num, _ => EMPTY_ENTRY)
  }

  /** What `with_entries` promises: the given entries in the first slots and
      empty entries after them. `NUM` larger than the table is an
      out-of-bounds index in a `const fn`, which does not compile. */
  function Filled(num: nat, entries: seq<u64>): (t: seq<u64>)
    requires |entries| <= num
    ensures |t| == num
    ensures forall i | 0 <= i < num :: t[i] == if i < |entries| then entries[i] else EMPTY_ENTRY
  {
    entries + NewTable(num - |entries|)
  }

  /** `with_entries`: start from `new()` and copy the entries one by one. */
  method WithEntries(num: nat, entries: seq<u64>) returns (t: seq<u64>)
    requires |entries| <= num
    ensures |t| == num
    ensures t[..|entries|] == entries
    ensures forall i | |entries| <= i < num :: t[i] == EMPTY_ENTRY
    ensures t == Filled(num, entries)
  {
    t := NewTable(num);
    var i := 0;
    while i < |entries|
      invariant i <= |entries| && |t| == num
      invariant t[..i] == entries[..i]
      invariant forall k | i <= k < num :: t[k] == EMPTY_ENTRY
    {
      t := t[i := entries[i]];
      i := i + 1;
    }
    assert entries[..i] == entries;
  }

  // ---------------------------------------------------------------------
  // `PDPTable::add_map`

  datatype PagingError = MapError

  /** Virtual addresses are `usize`, 32 bits on i386; physical ones are
      `u64`. The only check compares the virtual length with the physical
      length cast to `usize`, which keeps its low 32 bits; the mapping
      itself is not written yet, so success changes nothing. Equal lengths
      are accepted, and so is any physical length that differs from the
      virtual one by a multiple of 4 GiB. */
  function AddMap(virt: MemRange, phys: MemRange): (r: Result<(), PagingError>)
    requires virt.len < 0x1_0000_0000
    ensures r.Ok? <==> exists q: nat :: phys.len == virt.len + q * 0x1_0000_0000
  {
    if virt.len != phys.len % 0x1_0000_0000 then
      assert forall q: nat :: phys.len != virt.len + q * 0x1_0000_0000 by {
        forall q: nat
          ensures phys.len != virt.len + q * 0x1_0000_0000
        {
          if phys.len == virt.len + q * 0x1_0000_0000 {
            DivModUnique(phys.len, 0x1_0000_0000, q, virt.len);
          }
        }
      }
      Err(MapError)
    else
      assert phys.len == virt.len + phys.len / 0x1_0000_0000 * 0x1_0000_0000;
      Ok(())
  }

  // ---------------------------------------------------------------------
  // `enable` and `update` as control-register steps

  /** CR0.PG is bit 31 and CR4.PAE is bit 5 (Intel SDM Vol. 3A section
      2.5). Only the three registers the assembly touches are modelled. */
  const CR0_PG: nat := 31
  const CR4_PAE: nat := 5

  datatype Cpu = Cpu(cr0: u64, cr3: u32, cr4: u64)

  /** `or` of the PAE bit into CR4, `mov cr3`, `or` of the PG bit into CR0. */
  datatype Event = SetCr4Pae | LoadCr3(table: u32) | SetCr0Pg

  function Step(c: Cpu, e: Event): Cpu
  {
    match e
    case SetCr4Pae => c.(cr4 := Or(c.cr4, Pow2(CR4_PAE)))
    case LoadCr3(table) => c.(cr3 := table)
    case SetCr0Pg => c.(cr0 := Or(c.cr0, Pow2(CR0_PG)))
  }

  function Run(c: Cpu, es: seq<Event>): Cpu
    decreases |es|
  {
    if |es| == 0 then c else Run(Step(c, es[0]), es[1..])
  }

  predicate PagingOn(c: Cpu)
  {
    Bit(c.cr0, CR0_PG)
  }

  predicate PaeOn(c: Cpu)
  {
    Bit(c.cr4, CR4_PAE)
  }

  /** `enable`: PAE first, then the table, then paging. */
  function Enable(table: u32): (es: seq<Event>)
    ensures SetCr0Pg in es && SetCr4Pae in es && LoadCr3(table) in es
  {
    [SetCr4Pae, LoadCr3(table), SetCr0Pg]
  }

  /** `update`: reload CR3, which also reloads the PDPTEs. */
  function Update(table: u32): (es: seq<Event>)
    ensures forall k | 0 <= k < |es| :: es[k].LoadCr3?
  {
    [LoadCr3(table)]
  }

  /** Or-ing 2^k sets bit k and keeps every other bit. */
  lemma SetBit(x: u64, k: nat, i: nat)
    requires k < 64
    ensures Bit(Or(x, Pow2(k)), i) == (i == k || Bit(x, i))
  {
    BitOr(x, Pow2(k), i);
    BitsAbove(0, 0, k);
    BitAddPow2(0, k, i);
    BitsAbove(0, 0, i);
    if i >= 64 {
      BitU64(x, i);
    }
  }

  lemma RunOne(c: Cpu, e: Event, es: seq<Event>)
    ensures Run(c, [e] + es) == Run(Step(c, e), es)
  {
    assert ([e] + es)[1..] == es;
  }

  /** The states `enable` passes through: after k of its steps the CPU is
      in `EnableState(c, table, k)`. */
  function EnableState(c: Cpu, table: u32, k: nat): Cpu
  {
    var c1 := c.(cr4 := Or(c.cr4, Pow2(CR4_PAE)));
    var c2 := c1.(cr3 := table);
    if k == 0 then c else if k == 1 then c1 else if k == 2 then c2 else c2.(cr0 := Or(c.cr0, Pow2(CR0_PG)))
  }

  lemma EnablePrefix(c: Cpu, table: u32, k: nat)
    requires k <= 3
    ensures Run(c, Enable(table)[..k]) == EnableState(c, table, k)
  {
    var c1 := Step(c, SetCr4Pae);
    var c2 := Step(c1, LoadCr3(table));
    var es := Enable(table)[..k];
    if k == 1 {
      assert es == [SetCr4Pae] + [];
      RunOne(c, SetCr4Pae, []);
    } else if k == 2 {
      assert es == [SetCr4Pae] + ([LoadCr3(table)] + []);
      RunOne(c, SetCr4Pae, [LoadCr3(table)] + []);
      RunOne(c1, LoadCr3(table), []);
    } else if k == 3 {
      assert es == [SetCr4Pae] + ([LoadCr3(table)] + ([SetCr0Pg] + []));
      RunOne(c, SetCr4Pae, [LoadCr3(table)] + ([SetCr0Pg] + []));
      RunOne(c1, LoadCr3(table), [SetCr0Pg] + []);
      RunOne(c2, SetCr0Pg, []);
    }
  }

  /** After `enable` paging and PAE are on, CR3 holds the table, and every
      other bit of CR0 and CR4 is what it was. */
  lemma EnableSets(c: Cpu, table: u32, i: nat)
    ensures var d := Run(c, Enable(table));
      && PagingOn(d) && PaeOn(d) && d.cr3 == table
      && (i != CR0_PG ==> Bit(d.cr0, i) == Bit(c.cr0, i))
      && (i != CR4_PAE ==> Bit(d.cr4, i) == Bit(c.cr4, i))
  {
    assert Enable(table)[..3] == Enable(table);
    EnablePrefix(c, table, 3);
    SetBit(c.cr4, CR4_PAE, CR4_PAE);
    SetBit(c.cr4, CR4_PAE, i);
    SetBit(c.cr0, CR0_PG, CR0_PG);
    SetBit(c.cr0, CR0_PG, i);
  }

  /** Paging is never switched on under 32-bit paging: in every state
      `enable` passes through, PG implies PAE and the new CR3, provided
      paging was off to begin with. */
  lemma EnableNeverLegacy(c: Cpu, table: u32, k: nat)
    requires !PagingOn(c) && k <= 3
    ensures var d := Run(c, Enable(table)[..k]);
      PagingOn(d) ==> PaeOn(d) && d.cr3 == table
  {
    EnablePrefix(c, table, k);
    SetBit(c.cr4, CR4_PAE, CR4_PAE);
    if k == 3 {
      SetBit(c.cr0, CR0_PG, CR0_PG);
    }
  }

  /** `update` changes CR3 and nothing else. */
  lemma UpdateOnlyCr3(c: Cpu, table: u32)
    ensures Run(c, Update(table)) == c.(cr3 := table)
  {
    assert Update(table) == [LoadCr3(table)] + [];
    RunOne(c, LoadCr3(table), []);
  }
}
