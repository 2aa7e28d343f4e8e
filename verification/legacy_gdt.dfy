/** The older eight-slot boot GDT (src/bios/i386/src/dt/gdt.rs), the only one
    that holds the 16-bit SWITCH and NORMAL segments used on the way back to
    real mode, and an LDT descriptor. Its layout constants come from
    src/bios/layout/src/lib.rs; `GDT_SIZE`, `LDT_START` and `LDT_SIZE` are
    not defined there, so the table length and the LDT's place and size are
    parameters. */
module LegacyGdt {
  import opened Bits
  import opened Descriptors
  import opened Tables
  import opened GdtCommit
  import opened BootGdt

  const CODE_END: nat := 0x8_0000
  const DATA_END: nat := 0x9_C000
  const STACK_START: nat := 0x9_C000
  const VIDEO_START: nat := 0xB_8000
  /** `80 * 25 * 2` bytes of text-mode video memory. */
  const VIDEO_SIZE: nat := 4000
  const NORMAL_END: nat := 0x1_0000

  /** `SEGC_READ | SEG_CODE` */
  function SwitchPerm(): (p: u8)
    ensures p == 10
  {
    assert !Bit(2, 3);
    OrPow2(SEGC_READ, 3);
    Or(SEGC_READ, SEG_CODE)
  }

  function CodeDescriptor(): u64
  {
    PackDesc(0, CODE_END - 1, CodePerm(), TYPE_CD, Ring0, true, ATTR_SEG32, 0)
  }

  function DataDescriptor(): u64
  {
    PackDesc(0, DATA_END - 1, SEGD_WRITE, TYPE_CD, Ring0, true, ATTR_SEG32, 0)
  }

  function StackDescriptor(): u64
  {
    PackDesc(0, STACK_START, StackPerm(), TYPE_CD, Ring0, true, ATTR_SEG32, 0)
  }

  function VideoDescriptor(): u64
  {
    PackDesc(VIDEO_START, VIDEO_SIZE - 1, SEGD_WRITE, TYPE_CD, Ring0, true, ATTR_SEG32, 0)
  }

  function SwitchDescriptor(): u64
  {
    PackDesc(0, NORMAL_END - 1, SwitchPerm(), TYPE_CD, Ring0, true, ATTR_SEG16, 0)
  }

  function NormalDescriptor(): u64
  {
    PackDesc(0, NORMAL_END - 1, SEGD_WRITE, TYPE_CD, Ring0, true, ATTR_SEG16, 0)
  }

  /** `LDT_SIZE - 1` is evaluated at compile time, so an empty LDT would not
      build. */
  function LdtDescriptor(ldtStart: u32, ldtSize: nat): u64
    requires 1 <= ldtSize <= 0x1_0000_0000
  {
    PackDesc(ldtStart, ldtSize - 1, SEG_LDT, TYPE_SYS, Ring0, true, 0, 0)
  }

  /** `init_gdt()`: eight descriptors, then zeros up to `GDT_MAX_LEN`. */
  function InitGdt(maxLen: nat, ldtStart: u32, ldtSize: nat): (g: seq<u64>)
    requires 8 <= maxLen && 1 <= ldtSize <= 0x1_0000_0000
    ensures |g| == maxLen
  {
    Filled([NullDescriptor(), CodeDescriptor(), DataDescriptor(), StackDescriptor(), VideoDescriptor(),
            SwitchDescriptor(), NormalDescriptor(), LdtDescriptor(ldtStart, ldtSize)], maxLen)
  }

  /** `[0; n]` with its first slots assigned from `init`. */
  function Filled(init: seq<u64>, n: nat): (g: seq<u64>)
    requires |init| <= n
    ensures |g| == n && g[..|init|] == init
    ensures forall i | |init| <= i < n :: g[i] == 0
  {
    init + Zeros(n - |init|)
  }

  /** `GDT_TABLE`: the cursor starts past the eight hard-coded slots. */
  function GdtTable(maxLen: nat, ldtStart: u32, ldtSize: nat): (t: Table)
    requires 8 <= maxLen && 1 <= ldtSize <= 0x1_0000_0000
    ensures |t.slots| == maxLen && t.cur == 8
  {
    Table(InitGdt(maxLen, ldtStart, ldtSize), 8)
  }

  /** `GDTDescriptor::update`: no check of the table, the limit computed in
      16-bit arithmetic, and `lgdt` always issued. */
  function Update(t: Table): (r: (Pointer, seq<Event>))
    ensures r.1 == [LoadGdt(r.0)] && r.0.base == t.slots
  {
    var p := Pointer(Limit16(t.cur), t.slots);
    (p, [LoadGdt(p)])
  }

  /** The initial `GDT_DESCRIPTOR`: `GDT_RESERVED_LEN as u16 * 8 - 1`. */
  function InitialPointer(maxLen: nat, ldtStart: u32, ldtSize: nat): Pointer
    requires 8 <= maxLen && 1 <= ldtSize <= 0x1_0000_0000
  {
    Pointer(Limit16(8), InitGdt(maxLen, ldtStart, ldtSize))
  }

  // ---------------------------------------------------------------------
  // The table

  /** The eight selectors NULL..LDT are the slot numbers times eight. */
  lemma SelectorValues()
    ensures SelectorOf(0) == 0x00 && SelectorOf(1) == 0x08 && SelectorOf(2) == 0x10 && SelectorOf(3) == 0x18
    ensures SelectorOf(4) == 0x20 && SelectorOf(5) == 0x28 && SelectorOf(6) == 0x30 && SelectorOf(7) == 0x38
  {
    BootGdt.SelectorValues();
    SlotSelector(4);
    SlotSelector(5);
    SlotSelector(6);
    SlotSelector(7);
  }

  /** Slots 0..7 hold the null descriptor and the seven named segments. */
  lemma InitGdtSlots(maxLen: nat, ldtStart: u32, ldtSize: nat)
    requires 8 <= maxLen && 1 <= ldtSize <= 0x1_0000_0000
    ensures InitGdt(maxLen, ldtStart, ldtSize)[..8] ==
            [NullDescriptor(), CodeDescriptor(), DataDescriptor(), StackDescriptor(), VideoDescriptor(),
             SwitchDescriptor(), NormalDescriptor(), LdtDescriptor(ldtStart, ldtSize)]
  {
    FilledEight(NullDescriptor(), CodeDescriptor(), DataDescriptor(), StackDescriptor(), VideoDescriptor(),
                SwitchDescriptor(), NormalDescriptor(), LdtDescriptor(ldtStart, ldtSize), maxLen);
  }

  lemma FilledEight(a: u64, b: u64, c: u64, d: u64, e: u64, f: u64, g: u64, h: u64, n: nat)
    requires 8 <= n
    ensures Filled([a, b, c, d, e, f, g, h], n)[..8] == [a, b, c, d, e, f, g, h]
  {
  }

  /** Slot 0 is the all-zero null descriptor. */
  lemma NullSlot(maxLen: nat, ldtStart: u32, ldtSize: nat)
    requires 8 <= maxLen && 1 <= ldtSize <= 0x1_0000_0000
    ensures InitGdt(maxLen, ldtStart, ldtSize)[0] == 0
  {
    InitGdtSlots(maxLen, ldtStart, ldtSize);
    NullDescriptorZero();
  }

  /** The initial pointer covers the eight hard-coded slots; `update` loads
      `cur * 8 - 1` over the table, whatever the table holds, and after a
      successful checked commit the two agree. */
  lemma UpdateUnchecked(t: Table)
    requires 1 <= |t.slots|
    ensures Limit16(8) == 63
    ensures 0 < t.cur <= 0x2000 ==> Update(t).0.limit + 1 == t.cur * 8
    ensures t.cur == 0 ==> Update(t).0.limit == 0xFFFF
    ensures GdtCommit.Update(t).0.Ok? ==> GdtCommit.Update(t).1 == Update(t).1
  {
  }

  // ---------------------------------------------------------------------
  // The descriptors, decoded

  const CODE_SEGMENT: Segment := Segment(0, 0x7_FFFF, 10, 1, 0, true, 4, 0)
  const DATA_SEGMENT: Segment := Segment(0, 0x9_BFFF, 2, 1, 0, true, 4, 0)
  const STACK_SEGMENT: Segment := Segment(0, 0x9_C000, 6, 1, 0, true, 4, 0)
  const VIDEO_SEGMENT: Segment := Segment(0xB_8000, 0xF9F, 2, 1, 0, true, 4, 0)
  const SWITCH_SEGMENT: Segment := Segment(0, 0xFFFF, 10, 1, 0, true, 0, 0)
  const NORMAL_SEGMENT: Segment := Segment(0, 0xFFFF, 2, 1, 0, true, 0, 0)

  lemma CodeDecodes()
    ensures DecodeDesc(CodeDescriptor()) == CODE_SEGMENT
  {
    DescIs(0, CODE_END - 1, CodePerm(), TYPE_CD, Ring0, true, ATTR_SEG32, 0,
           CODE_SEGMENT);
  }

  lemma DataDecodes()
    ensures DecodeDesc(DataDescriptor()) == DATA_SEGMENT
  {
    DescIs(0, DATA_END - 1, SEGD_WRITE, TYPE_CD, Ring0, true, ATTR_SEG32, 0,
           DATA_SEGMENT);
  }

  lemma StackDecodes()
    ensures DecodeDesc(StackDescriptor()) == STACK_SEGMENT
  {
    DescIs(0, STACK_START, StackPerm(), TYPE_CD, Ring0, true, ATTR_SEG32, 0,
           STACK_SEGMENT);
  }

  lemma VideoDecodes()
    ensures DecodeDesc(VideoDescriptor()) == VIDEO_SEGMENT
  {
    DescIs(VIDEO_START, VIDEO_SIZE - 1, SEGD_WRITE, TYPE_CD, Ring0, true, ATTR_SEG32, 0,
           VIDEO_SEGMENT);
  }

  lemma SwitchDecodes()
    ensures DecodeDesc(SwitchDescriptor()) == SWITCH_SEGMENT
  {
    DescIs(0, NORMAL_END - 1, SwitchPerm(), TYPE_CD, Ring0, true, ATTR_SEG16, 0,
           SWITCH_SEGMENT);
  }

  lemma NormalDecodes()
    ensures DecodeDesc(NormalDescriptor()) == NORMAL_SEGMENT
  {
    DescIs(0, NORMAL_END - 1, SEGD_WRITE, TYPE_CD, Ring0, true, ATTR_SEG16, 0,
           NORMAL_SEGMENT);
  }

  /** The LDT descriptor: a present system segment of type 2 at `LDT_START`
      with limit `LDT_SIZE - 1` (an LDT of at most 1 MiB fits the 20-bit
      limit field). */
  lemma LdtDecodes(ldtStart: u32, ldtSize: nat, dpl: Privilege, present: bool)
    requires 1 <= ldtSize <= 0x10_0000 && dpl == Ring0 && present
    ensures DecodeDesc(LdtDescriptor(ldtStart, ldtSize)) == Segment(ldtStart, ldtSize - 1, 2, 0, 0, true, 0, 0)
  {
    DescIs(ldtStart, ldtSize - 1, SEG_LDT, TYPE_SYS, dpl, present, 0, 0,
           Segment(ldtStart, ldtSize - 1, 2, 0, 0, true, 0, 0));
  }

  /** What each kind test reads from a decoded segment. */
  lemma Kinds(seg: Segment)
    requires seg.s == 1
    ensures seg.segType == 10 ==> IsCode(seg) && ReadWrite(seg)
    ensures seg.segType == 2 ==> IsData(seg) && ReadWrite(seg) && !ExpandDown(seg)
    ensures seg.segType == 6 ==> IsData(seg) && ReadWrite(seg) && ExpandDown(seg)
    ensures seg.attrs == 4 ==> Is32(seg)
    ensures seg.attrs == 0 ==> !Is32(seg)
  {
  }

  lemma SwitchKinds(seg: Segment)
    requires seg == SWITCH_SEGMENT
    ensures IsCode(seg) && ReadWrite(seg) && !Is32(seg) && ByteLimit(seg) == 0xFFFF && seg.base == 0
  {
    Kinds(seg);
  }

  lemma NormalKinds(seg: Segment)
    requires seg == NORMAL_SEGMENT
    ensures IsData(seg) && ReadWrite(seg) && !Is32(seg) && ByteLimit(seg) == 0xFFFF && seg.base == 0
  {
    Kinds(seg);
  }

  lemma StackKinds(seg: Segment)
    requires seg == STACK_SEGMENT
    ensures ExpandDown(seg) && ReadWrite(seg) && Is32(seg) && seg.limit == STACK_START
  {
    Kinds(seg);
  }

  /** The SWITCH segment meets the three conditions for returning to real
      mode: 16-bit readable code, a limit of 0xFFFF bytes, base 0. */
  lemma SwitchIsRealModeCode()
    ensures IsCode(DecodeDesc(SwitchDescriptor())) && ReadWrite(DecodeDesc(SwitchDescriptor()))
    ensures !Is32(DecodeDesc(SwitchDescriptor()))
    ensures ByteLimit(DecodeDesc(SwitchDescriptor())) == 0xFFFF && DecodeDesc(SwitchDescriptor()).base == 0
  {
    var seg := DecodeDesc(SwitchDescriptor());
    SwitchDecodes();
    SwitchKinds(seg);
  }

  /** The NORMAL segment is 16-bit writable data over the same bytes. */
  lemma NormalIsRealModeData()
    ensures IsData(DecodeDesc(NormalDescriptor())) && ReadWrite(DecodeDesc(NormalDescriptor()))
    ensures !Is32(DecodeDesc(NormalDescriptor()))
    ensures ByteLimit(DecodeDesc(NormalDescriptor())) == 0xFFFF && DecodeDesc(NormalDescriptor()).base == 0
  {
    var seg := DecodeDesc(NormalDescriptor());
    NormalDecodes();
    NormalKinds(seg);
  }

  /** The stack segment is expand-down writable data with limit
      `STACK_START`, so its valid offsets run from `STACK_START + 1` up. */
  lemma StackIsExpandDown()
    ensures ExpandDown(DecodeDesc(StackDescriptor())) && ReadWrite(DecodeDesc(StackDescriptor()))
    ensures Is32(DecodeDesc(StackDescriptor())) && DecodeDesc(StackDescriptor()).limit == STACK_START
  {
    var seg := DecodeDesc(StackDescriptor());
    StackDecodes();
    StackKinds(seg);
  }
}
