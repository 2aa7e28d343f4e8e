/** The boot loader's initial GDT (bootloader/shared/src/gdt.rs): a null
    descriptor, flat 32-bit code and data segments and an expand-down stack
    segment, all ring 0, in a 32-slot table whose cursor starts past the
    eight hard-coded slots. */
module BootGdt {
  import opened Bits
  import opened Bitwise
  import opened Descriptors
  import opened Tables
  import opened Layout
  import opened GdtCommit
  import opened Results

  /** `GDT_SIZE / size_of::<Descriptor>()`: 256 bytes of 8-byte descriptors. */
  const GDT_MAX_LEN: nat := 32
  const GDT_RESERVED_LEN: nat := 8

  /** The slot count is the GDT region's size in descriptors. */
  lemma MaxLen()
    ensures GDT_MAX_LEN == GDT_SIZE / 8
  {
  }

  /** `SEG_CODE | SEGC_READ` */
  function CodePerm(): (p: u8)
    ensures p == 10
  {
    assert !Bit(8, 1);
    OrPow2(SEG_CODE, 1);
    Or(SEG_CODE, SEGC_READ)
  }

  /** `SEGD_DOWN | SEGD_WRITE` */
  function StackPerm(): (p: u8)
    ensures p == 6
  {
    assert !Bit(4, 1);
    OrPow2(SEGD_DOWN, 1);
    Or(SEGD_DOWN, SEGD_WRITE)
  }

  function NullDescriptor(): u64
  {
    PackDesc(0, 0, 0, 0, Ring0, false, 0, 0)
  }

  function CodeDescriptor(): u64
  {
    PackDesc(0, CODE_END - 1, CodePerm(), TYPE_CD, Ring0, true, ATTR_SEG32, 0)
  }

  function DataDescriptor(): u64
  {
    PackDesc(0, DATA_END - 1, SEGD_WRITE, TYPE_CD, Ring0, true, ATTR_SEG32, 0)
  }

  function StackDescriptor(): u64
  {
    PackDesc(0, 0, StackPerm(), TYPE_CD, Ring0, true, ATTR_SEG32, 0)
  }

  /** `init_gdt()`: four descriptors, the other slots zero. */
  function InitGdt(): (g: seq<u64>)
    ensures |g| == GDT_MAX_LEN
  {
    GdtOf(NullDescriptor(), CodeDescriptor(), DataDescriptor(), StackDescriptor())
  }

  /** `[0; GDT_MAX_LEN]` with slots 0..3 assigned. */
  function GdtOf(nullDesc: u64, code: u64, data: u64, stack: u64): (g: seq<u64>)
    ensures |g| == GDT_MAX_LEN
    ensures g[0] == nullDesc && g[1] == code && g[2] == data && g[3] == stack
    ensures forall i | 4 <= i < GDT_MAX_LEN :: g[i] == 0
  {
    [nullDesc, code, data, stack] + Zeros(GDT_MAX_LEN - 4)
  }

  /** `[0; n]` */
  function Zeros(n: nat): (z: seq<u64>)
    ensures |z| == n && forall i | 0 <= i < n :: z[i] == 0
  {
    if n == 0 then [] else [0] + Zeros(n - 1)
  }

  /** `GDT_TABLE` */
  function GdtTable(): (t: Table)
    ensures |t.slots| == GDT_MAX_LEN && t.cur == GDT_RESERVED_LEN
  {
    Table(InitGdt(), GDT_RESERVED_LEN)
  }

  /** `GDTSelector`: the selector of GDT slot `slot`, table indicator GDT,
      requested privilege ring 0. */
  function SelectorOf(slot: u16): u16
  {
    PackSelector(slot, GDT, Ring0)
  }

  /** A ring-0 GDT selector is its slot times eight. */
  lemma SlotSelector(slot: u16)
    requires slot < 0x2000
    ensures SelectorOf(slot) == slot * 8
  {
    ModSmall(slot, 0x2000);
  }

  /** The four hard-coded selectors are 0x00, 0x08, 0x10 and 0x18. */
  lemma SelectorValues()
    ensures SelectorOf(0) == 0x00 && SelectorOf(1) == 0x08 && SelectorOf(2) == 0x10 && SelectorOf(3) == 0x18
  {
    SlotSelector(0);
    SlotSelector(1);
    SlotSelector(2);
    SlotSelector(3);
  }

  /** Each selector names its own slot, in the GDT, at ring 0. */
  lemma SelectorNamesSlot(slot: u16)
    requires slot < 4
    ensures DecodeSelector(SelectorOf(slot)) == SelectorFields(slot, GDT, Ring0)
  {
    SelectorRoundTrip(slot, GDT, Ring0);
    ModSmall(slot, 0x2000);
  }

  /** A present ring-0 32-bit segment with base 0. */
  lemma FlatDecodes(limit: u32, perm: u8, dpl: Privilege, present: bool, granularity: u8)
    requires dpl == Ring0 && present && granularity < 2
    ensures DecodeDesc(PackDesc(0, limit, perm, TYPE_CD, dpl, present, ATTR_SEG32, granularity)) ==
            Segment(0, limit % 0x10_0000, perm % 16, 1, 0, true, 4, granularity)
  {
    DescRoundTrip(0, limit, perm, TYPE_CD, dpl, present, ATTR_SEG32, granularity);
    FlatFields(DecodeDesc(PackDesc(0, limit, perm, TYPE_CD, dpl, present, ATTR_SEG32, granularity)),
               limit, perm, dpl, present, granularity);
  }

  lemma FlatFields(seg: Segment, limit: u32, perm: u8, dpl: Privilege, present: bool, granularity: u8)
    requires dpl == Ring0 && present && granularity < 2
    requires seg == Segment(0, limit % 0x10_0000, perm % 16, TYPE_CD % 2, Level(dpl), present,
                            ATTR_SEG32 % 8, granularity % 2)
    ensures seg == Segment(0, limit % 0x10_0000, perm % 16, 1, 0, true, 4, granularity)
  {
  }

  /** Reads the limit and type fields of a flat segment as plain numbers. */
  lemma FlatValues(seg: Segment, limit: nat, perm: nat, granularity: nat, lim20: nat)
    requires (limit == 0xFFFF_FFFE && lim20 == 0xF_FFFE) || (limit == lim20 && limit < 0x10_0000)
    requires perm < 16
    requires seg == Segment(0, limit % 0x10_0000, perm % 16, 1, 0, true, 4, granularity)
    ensures seg == Segment(0, lim20, perm, 1, 0, true, 4, granularity)
  {
  }

  /** A flat segment whose limit and type fields are the given numbers. */
  lemma FlatIs(limit: u32, perm: u8, dpl: Privilege, present: bool, granularity: u8, lim20: nat, p: nat)
    requires dpl == Ring0 && present && granularity < 2
    requires (limit == 0xFFFF_FFFE && lim20 == 0xF_FFFE) || (limit == lim20 && limit < 0x10_0000)
    requires perm == p && p < 16
    ensures DecodeDesc(PackDesc(0, limit, perm, TYPE_CD, dpl, present, ATTR_SEG32, granularity)) ==
            Segment(0, lim20, p, 1, 0, true, 4, granularity)
  {
    FlatDecodes(limit, perm, dpl, present, granularity);
    FlatValues(DecodeDesc(PackDesc(0, limit, perm, TYPE_CD, dpl, present, ATTR_SEG32, granularity)),
               limit, perm, granularity, lim20);
  }

  /** Slot 0 is the all-zero null descriptor. */
  lemma NullDescriptorZero()
    ensures NullDescriptor() == 0
  {
    NullDesc(0, 0, 0, 0, 0, 0);
  }

  /** The code segment: readable code, present, ring 0, 32-bit, base 0,
      G = 0, limit field the low 20 bits of `CODE_END - 1`. */
  lemma CodeDescriptorDecodes()
    ensures DecodeDesc(CodeDescriptor()) == Segment(0, 0xF_FFFE, 10, 1, 0, true, 4, 0)
  {
    FlatIs(CODE_END - 1, CodePerm(), Ring0, true, 0, 0xF_FFFE, 10);
  }

  /** The data segment: writable data, otherwise as the code segment. */
  lemma DataDescriptorDecodes()
    ensures DecodeDesc(DataDescriptor()) == Segment(0, 0xF_FFFE, 2, 1, 0, true, 4, 0)
  {
    FlatIs(DATA_END - 1, SEGD_WRITE, Ring0, true, 0, 0xF_FFFE, 2);
  }

  /** The stack segment: expand-down writable data with limit 0. */
  lemma StackDescriptorDecodes()
    ensures DecodeDesc(StackDescriptor()) == Segment(0, 0, 6, 1, 0, true, 4, 0)
  {
    FlatIs(0, StackPerm(), Ring0, true, 0, 0, 6);
  }

  /** `init_gdt`: slot 0 null, slots 1..3 the code, data and stack
      segments. */
  lemma InitGdtSlots()
    ensures |InitGdt()| == 32 && InitGdt()[0] == 0
    ensures InitGdt()[1] == CodeDescriptor() && InitGdt()[2] == DataDescriptor() && InitGdt()[3] == StackDescriptor()
  {
    NullDescriptorZero();
  }

  /** `init_gdt`: 32 slots, of which 4..31 are zero. */
  lemma InitGdtZeros()
    ensures |InitGdt()| == 32 && forall i | 4 <= i < 32 :: InitGdt()[i] == 0
  {
  }

  lemma StackSelectorRpl()
    ensures DecodeSelector(SelectorOf(3)).rpl == Ring0
  {
    SelectorNamesSlot(3);
  }

  lemma StackSlotDpl()
    ensures DecodeDesc(InitGdt()[3]).dpl == Level(Ring0)
  {
    InitGdtSlots();
    StackDescriptorDecodes();
  }

  /** The stack selector's RPL equals the DPL of the descriptor in the slot it
      names, both ring 0, as loading SS requires. */
  lemma StackPrivilegesAgree()
    ensures DecodeSelector(SelectorOf(3)).index == 3
    ensures DecodeSelector(SelectorOf(3)).rpl == Ring0
    ensures DecodeDesc(InitGdt()[3]).dpl == Level(Ring0)
  {
    SelectorNamesSlot(3);
    StackSelectorRpl();
    StackSlotDpl();
  }

  /** A 32-slot table with a null slot 0 and cursor 8: the first `add` lands
      in slot 8 and a commit loads a pointer with limit 63 over the whole
      table. */
  lemma ReservedStart(g: seq<u64>, entry: u64)
    requires |g| == 32 && g[0] == 0
    ensures Valid(Table(g, 8)) && Entries(Table(g, 8)) == g[..8]
    ensures Add(Table(g, 8), entry) == (Table(g[8 := entry], 9), Ok(8))
    ensures Update(Table(g, 8)) == (Ok(()), [LoadGdt(Pointer(63, g))])
  {
    UpdateLimit(Table(g, 8));
  }

  /** `GDT_TABLE` starts with cursor 8 over `init_gdt()`. */
  lemma GdtTableStart(entry: u64)
    ensures Valid(GdtTable()) && Entries(GdtTable()) == InitGdt()[..8]
    ensures Add(GdtTable(), entry) == (Table(InitGdt()[8 := entry], 9), Ok(8))
    ensures Update(GdtTable()) == (Ok(()), [LoadGdt(Pointer(63, InitGdt()))])
  {
    InitGdtSlots();
    ReservedStart(InitGdt(), entry);
  }

  /** The byte limit of a segment whose limit field is 0xFFFFF in 4 KiB
      units is the largest 32-bit offset. */
  lemma PageGranularLimit(seg: Segment)
    requires seg.limit == 0xF_FFFF && seg.granularity == 1
    ensures ByteLimit(seg) == 0xFFFF_FFFF
  {
  }

  /** With G clear the limit field counts bytes. */
  lemma ByteGranularLimit(seg: Segment)
    requires seg.granularity == 0
    ensures ByteLimit(seg) == seg.limit
  {
  }

  lemma CodeByteLimit()
    ensures ByteLimit(DecodeDesc(CodeDescriptor())) == 0xF_FFFE
  {
    CodeDescriptorDecodes();
    ByteGranularLimit(DecodeDesc(CodeDescriptor()));
  }

  lemma DataByteLimit()
    ensures ByteLimit(DecodeDesc(DataDescriptor())) == 0xF_FFFE
  {
    DataDescriptorDecodes();
    ByteGranularLimit(DecodeDesc(DataDescriptor()));
  }

  /** As written, the "4G" code and data segments span just under 1 MiB. */
  lemma FlatSegmentsAsWritten()
    ensures ByteLimit(DecodeDesc(CodeDescriptor())) == 0xF_FFFE
    ensures ByteLimit(DecodeDesc(DataDescriptor())) == 0xF_FFFE
  {
    CodeByteLimit();
    DataByteLimit();
  }

  /** The 4 GiB flat segment the comment describes: limit field 0xFFFFF in
      4 KiB units. */
  function FlatCodeDescriptor(): u64
  {
    PackDesc(0, 0xF_FFFF, CodePerm(), TYPE_CD, Ring0, true, ATTR_SEG32, 1)
  }

  function FlatDataDescriptor(): u64
  {
    PackDesc(0, 0xF_FFFF, SEGD_WRITE, TYPE_CD, Ring0, true, ATTR_SEG32, 1)
  }

  lemma FlatCodeDecodes()
    ensures DecodeDesc(FlatCodeDescriptor()) == Segment(0, 0xF_FFFF, 10, 1, 0, true, 4, 1)
  {
    FlatIs(0xF_FFFF, CodePerm(), Ring0, true, 1, 0xF_FFFF, 10);
  }

  lemma FlatDataDecodes()
    ensures DecodeDesc(FlatDataDescriptor()) == Segment(0, 0xF_FFFF, 2, 1, 0, true, 4, 1)
  {
    FlatIs(0xF_FFFF, SEGD_WRITE, Ring0, true, 1, 0xF_FFFF, 2);
  }

  /** The corrected code segment covers every 32-bit offset and differs from
      the written one only in the limit field and G. */
  lemma FlatCodeCovers4G()
    ensures DecodeDesc(FlatCodeDescriptor()) == DecodeDesc(CodeDescriptor()).(limit := 0xF_FFFF, granularity := 1)
    ensures ByteLimit(DecodeDesc(FlatCodeDescriptor())) == 0xFFFF_FFFF
  {
    FlatCodeDecodes();
    CodeDescriptorDecodes();
    PageGranularLimit(DecodeDesc(FlatCodeDescriptor()));
  }

  /** The same for the data segment. */
  lemma FlatDataCovers4G()
    ensures DecodeDesc(FlatDataDescriptor()) == DecodeDesc(DataDescriptor()).(limit := 0xF_FFFF, granularity := 1)
    ensures ByteLimit(DecodeDesc(FlatDataDescriptor())) == 0xFFFF_FFFF
  {
    FlatDataDecodes();
    DataDescriptorDecodes();
    PageGranularLimit(DecodeDesc(FlatDataDescriptor()));
  }
}
