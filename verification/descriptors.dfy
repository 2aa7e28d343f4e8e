/** Segment descriptors, gates and selectors (`i386/src/dt/packers.rs`), with
    the type codes of `i386/src/mem/dt/consts.rs`.

    Every encoder is a fixed chain of `mask_assign` steps starting from 0, so
    each is written as `AssignAll(0, <its steps>)`. Each has a decoder that
    reads the fields back at the places the Intel SDM Vol. 3A gives them
    (section 3.4.5 for segment descriptors, 7.2.2 for TSS descriptors, 7.2.5
    for task gates, 5.8.3 for call gates, 3.4.2 for selectors); the round-trip
    lemmas say that decoding an encoded value returns each input cut to its
    field width. */
module Descriptors {
  import opened Bits
  import opened Bitwise

  // ---------------------------------------------------------------------
  // Type codes and flags

  /** Code segment (type bit 3). */
  const SEG_CODE: u8 := 0x8
  /** Expand-down data segment. */
  const SEGD_DOWN: u8 := 0x4
  /** Writable data segment. */
  const SEGD_WRITE: u8 := 0x2
  const SEG_ACCESSED: u8 := 0x1
  /** Conforming code segment. */
  const SEGC_CONFORM: u8 := 0x4
  /** Readable code segment. */
  const SEGC_READ: u8 := 0x2

  /** System segment and gate types. */
  const SEG_LDT: u8 := 2
  const SEG_CALL_GATE32: u8 := 12
  const SEG_AVAIL_TSS32: u8 := 9
  const SEG_TASK_GATE: u8 := 5

  /** The S flag: system segment or code/data segment. */
  const TYPE_SYS: u8 := 0
  const TYPE_CD: u8 := 1

  /** The attribute nibble's three low bits: AVL, L and D/B. */
  const ATTR_AVL: u8 := 0x1
  const ATTR_CODE64: u8 := 0x2
  const ATTR_SEG32: u8 := 0x4
  const ATTR_SEG16: u8 := 0x0

  /** Privilege levels, `repr(u8)` 0 to 3. */
  datatype Privilege = Ring0 | Ring1 | Ring2 | Ring3

  function Level(p: Privilege): (n: u64)
    ensures n < 4
  {
    match p
    case Ring0 => 0
    case Ring1 => 1
    case Ring2 => 2
    case Ring3 => 3
  }

  /** The table a selector points into, `repr(u8)` GDT = 0, LDT = 1. */
  datatype TableKind = GDT | LDT

  function TableBit(t: TableKind): (n: u64)
    ensures n < 2
  {
    if t == GDT then 0 else 1
  }

  // ---------------------------------------------------------------------
  // pack_desc

  /** The ten `mask_assign` steps of `pack_desc`, in source order, with the
      privilege and present flag already widened to u64. `usize` is 32 bits
      wide on this target, hence the u32 base and limit. */
  function DescSteps(base: u32, limit: u32, perm: u8, sType: u8, dpl: u64, p: u64,
                     attrs: u8, granularity: u8): seq<Assign>
  {
    [Assign(limit, 0, 0, 16),
     Assign(base, 16, 0, 24),
     Assign(perm, 40, 0, 4),
     Assign(sType, 44, 0, 1),
     Assign(dpl, 45, 0, 2),
     Assign(p, 47, 0, 1),
     Assign(limit, 48, 16, 4),
     Assign(attrs, 52, 0, 3),
     Assign(granularity, 55, 0, 1),
     Assign(base, 56, 24, 8)]
  }

  lemma DescStepsLayout(base: u32, limit: u32, perm: u8, sType: u8, dpl: u64, p: u64,
                        attrs: u8, granularity: u8)
    ensures AllDefined(DescSteps(base, limit, perm, sType, dpl, p, attrs, granularity))
    ensures Layout(DescSteps(base, limit, perm, sType, dpl, p, attrs, granularity))
  {
  }

  /** `pack_desc`: the ten steps applied to a zero word. */
  function PackDesc(base: u32, limit: u32, perm: u8, sType: u8, privilege: Privilege,
                    present: bool, attrs: u8, granularity: u8): u64
  {
    DescStepsLayout(base, limit, perm, sType, Level(privilege), BoolBit(present), attrs, granularity);
    AssignAll(0, DescSteps(base, limit, perm, sType, Level(privilege), BoolBit(present), attrs, granularity))
  }

  /** Decoding a packed descriptor gives back every argument cut to its
      field's width; the 32-bit base and the 20-bit limit reassemble from
      their two pieces. */
  lemma DescRoundTrip(base: u32, limit: u32, perm: u8, sType: u8, privilege: Privilege,
                      present: bool, attrs: u8, granularity: u8)
    ensures DecodeDesc(PackDesc(base, limit, perm, sType, privilege, present, attrs, granularity)) ==
            Segment(base, limit % 0x10_0000, perm % 16, sType % 2, Level(privilege),
                    present, attrs % 8, granularity % 2)
  {
    var fs := DescSteps(base, limit, perm, sType, Level(privilege), BoolBit(present), attrs, granularity);
    DescStepsLayout(base, limit, perm, sType, Level(privilege), BoolBit(present), attrs, granularity);
    AssignAllFields(0, fs);
    var d := AssignAll(0, fs);
    DescStepFacts(d, base, limit, perm, sType, Level(privilege), BoolBit(present), attrs, granularity);
    DecodeDescFields(d, base, limit, perm, sType, Level(privilege), BoolBit(present), attrs, granularity);
  }

  /** The fields of a segment descriptor as the processor reads them. */
  datatype Segment = Segment(base: nat, limit: nat, segType: nat, s: nat, dpl: nat,
                             present: bool, attrs: nat, granularity: nat)

  /** The descriptor fields as the processor reads them; each fits its
      width. */
  function DecodeDesc(d: u64): (seg: Segment)
    ensures seg.base < 0x1_0000_0000 && seg.limit < 0x10_0000 && seg.segType < 16 && seg.s < 2
    ensures seg.dpl < 4 && seg.attrs < 8 && seg.granularity < 2
  {
    Pow2Values();
    ExtractBound(d, 0, 16);
    ExtractBound(d, 16, 24);
    ExtractBound(d, 40, 4);
    ExtractBound(d, 44, 1);
    ExtractBound(d, 45, 2);
    ExtractBound(d, 48, 4);
    ExtractBound(d, 52, 3);
    ExtractBound(d, 55, 1);
    ExtractBound(d, 56, 8);
    Segment(Extract(d, 16, 24) + Extract(d, 56, 8) * 0x100_0000,
            Extract(d, 0, 16) + Extract(d, 48, 4) * 0x1_0000,
            Extract(d, 40, 4), Extract(d, 44, 1), Extract(d, 45, 2),
            Extract(d, 47, 1) == 1, Extract(d, 52, 3), Extract(d, 55, 1))
  }

  /** The chain's field facts, one per step, at their literal places. */
  lemma DescStepFacts(d: u64, base: u32, limit: u32, perm: u8, sType: u8, dpl: u64, p: u64,
                      attrs: u8, granularity: u8)
    requires var fs := DescSteps(base, limit, perm, sType, dpl, p, attrs, granularity);
      forall j | 0 <= j < |fs| :: Extract(d, fs[j].destStart, fs[j].len) == Extract(fs[j].src, fs[j].srcStart, fs[j].len)
    ensures Extract(d, 0, 16) == Extract(limit, 0, 16) && Extract(d, 16, 24) == Extract(base, 0, 24)
    ensures Extract(d, 40, 4) == Extract(perm, 0, 4) && Extract(d, 44, 1) == Extract(sType, 0, 1)
    ensures Extract(d, 45, 2) == Extract(dpl, 0, 2) && Extract(d, 47, 1) == Extract(p, 0, 1)
    ensures Extract(d, 48, 4) == Extract(limit, 16, 4) && Extract(d, 52, 3) == Extract(attrs, 0, 3)
    ensures Extract(d, 55, 1) == Extract(granularity, 0, 1) && Extract(d, 56, 8) == Extract(base, 24, 8)
  {
    var fs := DescSteps(base, limit, perm, sType, dpl, p, attrs, granularity);
    assert fs[0] == Assign(limit, 0, 0, 16) && fs[1] == Assign(base, 16, 0, 24);
    assert fs[2] == Assign(perm, 40, 0, 4) && fs[3] == Assign(sType, 44, 0, 1);
    assert fs[4] == Assign(dpl, 45, 0, 2) && fs[5] == Assign(p, 47, 0, 1);
    assert fs[6] == Assign(limit, 48, 16, 4) && fs[7] == Assign(attrs, 52, 0, 3);
    assert fs[8] == Assign(granularity, 55, 0, 1) && fs[9] == Assign(base, 56, 24, 8);
  }

  /** Any word holding these fields decodes to them. */
  lemma DecodeDescFields(d: u64, base: u32, limit: u32, perm: u8, sType: u8, dpl: u64, p: u64,
                         attrs: u8, granularity: u8)
    requires dpl < 4 && p < 2
    requires Extract(d, 0, 16) == Extract(limit, 0, 16) && Extract(d, 16, 24) == Extract(base, 0, 24)
    requires Extract(d, 40, 4) == Extract(perm, 0, 4) && Extract(d, 44, 1) == Extract(sType, 0, 1)
    requires Extract(d, 45, 2) == Extract(dpl, 0, 2) && Extract(d, 47, 1) == Extract(p, 0, 1)
    requires Extract(d, 48, 4) == Extract(limit, 16, 4) && Extract(d, 52, 3) == Extract(attrs, 0, 3)
    requires Extract(d, 55, 1) == Extract(granularity, 0, 1) && Extract(d, 56, 8) == Extract(base, 24, 8)
    ensures DecodeDesc(d) ==
            Segment(base, limit % 0x10_0000, perm % 16, sType % 2, dpl,
                    p == 1, attrs % 8, granularity % 2)
  {
    Pow2Values();
    JoinAt(d, limit, 0, 48, 16, 4, 0x1_0000, 0x10_0000);
    JoinAt(d, base, 16, 56, 24, 8, 0x100_0000, 0x1_0000_0000);
    ReadAt(d, perm, 40, 4, 16);
    ReadAt(d, sType, 44, 1, 2);
    ReadAt(d, dpl, 45, 2, 4);
    ReadAt(d, p, 47, 1, 2);
    ReadAt(d, attrs, 52, 3, 8);
    ReadAt(d, granularity, 55, 1, 2);
    ModSmall(base, 0x1_0000_0000);
    ModSmall(dpl, 4);
    ModSmall(p, 2);
  }

  /** With every input zero or false, `pack_desc` gives the null
      descriptor 0. */
  lemma NullDesc(base: u32, limit: u32, perm: u8, sType: u8, attrs: u8, granularity: u8)
    requires base == 0 && limit == 0 && perm == 0 && sType == 0 && attrs == 0 && granularity == 0
    ensures PackDesc(base, limit, perm, sType, Ring0, false, attrs, granularity) == 0
  {
    var fs := DescSteps(base, limit, perm, sType, Level(Ring0), BoolBit(false), attrs, granularity);
    DescStepsLayout(base, limit, perm, sType, Level(Ring0), BoolBit(false), attrs, granularity);
    AssignAllZero(fs);
  }

  // ---------------------------------------------------------------------
  // pack_tss_desc and pack_task_gate

  /** The TSS type nibble: available 32-bit TSS, with bit 1 the busy flag. */
  function TssType(busy: bool): u64
  {
    Or(SEG_AVAIL_TSS32, Shl(BoolBit(busy), 1))
  }

  lemma TssTypeValue(busy: bool)
    ensures TssType(busy) == if busy then 11 else 9
  {
    assert !Bit(9, 1);
    OrFlag(SEG_AVAIL_TSS32, BoolBit(busy), 1);
  }

  /** `pack_tss_desc` writes a system descriptor of type 9, or 11 with the
      busy flag, with AVL as its only attribute. */
  function PackTssDesc(base: u32, limit: u32, dpl: Privilege, present: bool, busy: bool, avl: bool,
                       granularity: u8): (d: u64)
    ensures DecodeDesc(d) ==
            Segment(base, limit % 0x10_0000, if busy then 11 else 9, 0, Level(dpl), present,
                    BoolBit(avl), granularity % 2)
  {
    TssTypeValue(busy);
    var perm: u8 := TssType(busy);
    OrZero(BoolBit(avl));
    var attrs: u8 := Or(0, BoolBit(avl));
    ModSmall(perm, 16);
    ModSmall(attrs, 8);
    DescRoundTrip(base, limit, perm, TYPE_SYS, dpl, present, attrs, granularity);
    PackDesc(base, limit, perm, TYPE_SYS, dpl, present, attrs, granularity)
  }

  /** `pack_task_gate`: a task gate holds a TSS selector where a
      descriptor holds base bits 0..15. It decodes as type 5, system, with
      zero limit, attributes, granularity and upper base bits. */
  function PackTaskGate(tssDesc: u16, dpl: Privilege, present: bool): (d: u64)
    ensures DecodeDesc(d) == Segment(tssDesc, 0, 5, 0, Level(dpl), present, 0, 0)
    ensures Extract(d, 16, 16) == tssDesc && Extract(d, 32, 8) == 0 && Extract(d, 56, 8) == 0
  {
    var d := PackDesc(tssDesc, 0, SEG_TASK_GATE, TYPE_SYS, dpl, present, 0, 0);
    TaskGateFields(tssDesc, dpl, present, d);
    d
  }

  /** The decoded fields of a task gate, and where its selector sits. */
  lemma TaskGateFields(tssDesc: u16, dpl: Privilege, present: bool, d: u64)
    requires d == PackDesc(tssDesc, 0, SEG_TASK_GATE, TYPE_SYS, dpl, present, 0, 0)
    ensures DecodeDesc(d) == Segment(tssDesc, 0, 5, 0, Level(dpl), present, 0, 0)
    ensures Extract(d, 16, 16) == tssDesc && Extract(d, 32, 8) == 0 && Extract(d, 56, 8) == 0
  {
    DescRoundTrip(tssDesc, 0, SEG_TASK_GATE, TYPE_SYS, dpl, present, 0, 0);
    SelectorField(d, tssDesc);
  }

  /** A 32-bit base below 2^16 occupies only the low half of the base field. */
  lemma SelectorField(d: u64, sel: u16)
    requires DecodeDesc(d).base == sel
    ensures Extract(d, 16, 16) == sel && Extract(d, 32, 8) == 0 && Extract(d, 56, 8) == 0
  {
    Pow2Values();
    ExtractSplit(d, 16, 16, 8);
    ExtractBelow(d, 16, 16);
    ExtractBelow(d, 16, 24);
  }

  // ---------------------------------------------------------------------
  // pack_call_gate

  /** The nine steps of `pack_call_gate`; the parameter count is 5 bits, the
      three bits above it and the S flag are written as zero and the type as
      a 32-bit call gate. */
  function CallGateSteps(seg: u16, entry: u32, dpl: u64, paramCnt: u8, valid: u64): seq<Assign>
  {
    [Assign(entry, 0, 0, 16),
     Assign(seg, 16, 0, 16),
     Assign(paramCnt, 32, 0, 5),
     Assign(0, 37, 0, 3),
     Assign(SEG_CALL_GATE32, 40, 0, 4),
     Assign(0, 44, 0, 1),
     Assign(dpl, 45, 0, 2),
     Assign(valid, 47, 0, 1),
     Assign(entry, 48, 16, 16)]
  }

  lemma CallGateStepsLayout(seg: u16, entry: u32, dpl: u64, paramCnt: u8, valid: u64)
    ensures AllDefined(CallGateSteps(seg, entry, dpl, paramCnt, valid))
    ensures Layout(CallGateSteps(seg, entry, dpl, paramCnt, valid))
  {
  }

  /** The fields of a call gate as the processor reads them. */
  datatype CallGate = CallGate(offset: nat, selector: nat, paramCount: nat, reserved: nat,
                               gateType: nat, s: nat, dpl: nat, present: bool)

  function DecodeCallGate(d: u64): CallGate
  {
    CallGate(Extract(d, 0, 16) + Extract(d, 48, 16) * 0x1_0000, Extract(d, 16, 16),
             Extract(d, 32, 5), Extract(d, 37, 3), Extract(d, 40, 4), Extract(d, 44, 1),
             Extract(d, 45, 2), Extract(d, 47, 1) == 1)
  }

  /** `pack_call_gate`. Decoding gives back the 32-bit entry offset and
      the selector whole, the parameter count modulo 32, type 12, S clear,
      the DPL and the present flag. */
  function PackCallGate(seg: u16, entry: u32, dpl: Privilege, paramCnt: u8, valid: bool): (d: u64)
    ensures DecodeCallGate(d) == CallGate(entry, seg, paramCnt % 32, 0, 12, 0, Level(dpl), valid)
  {
    var fs := CallGateSteps(seg, entry, Level(dpl), paramCnt, BoolBit(valid));
    CallGateStepsLayout(seg, entry, Level(dpl), paramCnt, BoolBit(valid));
    AssignAllFields(0, fs);
    var d := AssignAll(0, fs);
    CallGateStepFacts(d, seg, entry, Level(dpl), paramCnt, BoolBit(valid));
    DecodeCallGateFields(d, seg, entry, Level(dpl), paramCnt, BoolBit(valid));
    d
  }

  lemma CallGateStepFacts(d: u64, seg: u16, entry: u32, dpl: u64, paramCnt: u8, valid: u64)
    requires var fs := CallGateSteps(seg, entry, dpl, paramCnt, valid);
      forall j | 0 <= j < |fs| :: Extract(d, fs[j].destStart, fs[j].len) == Extract(fs[j].src, fs[j].srcStart, fs[j].len)
    ensures Extract(d, 0, 16) == Extract(entry, 0, 16) && Extract(d, 16, 16) == Extract(seg, 0, 16)
    ensures Extract(d, 32, 5) == Extract(paramCnt, 0, 5) && Extract(d, 37, 3) == Extract(0, 0, 3)
    ensures Extract(d, 40, 4) == Extract(12, 0, 4) && Extract(d, 44, 1) == Extract(0, 0, 1)
    ensures Extract(d, 45, 2) == Extract(dpl, 0, 2) && Extract(d, 47, 1) == Extract(valid, 0, 1)
    ensures Extract(d, 48, 16) == Extract(entry, 16, 16)
  {
    var fs := CallGateSteps(seg, entry, dpl, paramCnt, valid);
    assert fs[0] == Assign(entry, 0, 0, 16) && fs[1] == Assign(seg, 16, 0, 16);
    assert fs[2] == Assign(paramCnt, 32, 0, 5) && fs[3] == Assign(0, 37, 0, 3);
    assert fs[4] == Assign(12, 40, 0, 4) && fs[5] == Assign(0, 44, 0, 1);
    assert fs[6] == Assign(dpl, 45, 0, 2) && fs[7] == Assign(valid, 47, 0, 1);
    assert fs[8] == Assign(entry, 48, 16, 16);
  }

  lemma DecodeCallGateFields(d: u64, seg: u16, entry: u32, dpl: u64, paramCnt: u8, valid: u64)
    requires dpl < 4 && valid < 2
    requires Extract(d, 0, 16) == Extract(entry, 0, 16) && Extract(d, 16, 16) == Extract(seg, 0, 16)
    requires Extract(d, 32, 5) == Extract(paramCnt, 0, 5) && Extract(d, 37, 3) == Extract(0, 0, 3)
    requires Extract(d, 40, 4) == Extract(12, 0, 4) && Extract(d, 44, 1) == Extract(0, 0, 1)
    requires Extract(d, 45, 2) == Extract(dpl, 0, 2) && Extract(d, 47, 1) == Extract(valid, 0, 1)
    requires Extract(d, 48, 16) == Extract(entry, 16, 16)
    ensures DecodeCallGate(d) == CallGate(entry, seg, paramCnt % 32, 0, 12, 0, dpl, valid == 1)
  {
    Pow2Values();
    JoinAt(d, entry, 0, 48, 16, 16, 0x1_0000, 0x1_0000_0000);
    ReadAt(d, seg, 16, 16, 0x1_0000);
    ReadAt(d, paramCnt, 32, 5, 32);
    ReadAt(d, 0, 37, 3, 8);
    ReadAt(d, 12, 40, 4, 16);
    ReadAt(d, 0, 44, 1, 2);
    ReadAt(d, dpl, 45, 2, 4);
    ReadAt(d, valid, 47, 1, 2);
    ModSmall(entry, 0x1_0000_0000);
    ModSmall(seg, 0x1_0000);
    ModSmall(dpl, 4);
    ModSmall(valid, 2);
  }

  // ---------------------------------------------------------------------
  // pack_selector

  /** The three steps of `pack_selector`. */
  function SelectorSteps(index: u16, table: u64, rpl: u64): seq<Assign>
  {
    [Assign(rpl, 0, 0, 2), Assign(table, 2, 0, 1), Assign(index, 3, 0, 13)]
  }

  /** A chain of steps where each result is cast to u16 (`as u16` keeps the
      low 16 bits) before the next step. */
  function AssignAll16(dest: u64, fs: seq<Assign>): (r: u64)
    requires AllDefined(fs)
    ensures dest < 0x1_0000 ==> r < 0x1_0000
    decreases |fs|
  {
    if |fs| == 0 then dest
    else
      var a := fs[0];
      AssignAll16(MaskAssign(dest, a.src, a.destStart, a.srcStart, a.len) % 0x1_0000, fs[1..])
  }

  /** The casts cut nothing when every field lies in the low 16 bits. */
  lemma {:induction false} AssignAll16Same(dest: u64, fs: seq<Assign>)
    requires AllDefined(fs) && dest < 0x1_0000
    requires forall k | 0 <= k < |fs| :: fs[k].destStart + fs[k].len <= 16
    ensures AssignAll16(dest, fs) == AssignAll(dest, fs)
    decreases |fs|
  {
    if |fs| > 0 {
      var a := fs[0];
      var next := MaskAssign(dest, a.src, a.destStart, a.srcStart, a.len);
      Pow2Values();
      MaskAssignBelow(dest, a.src, a.destStart, a.srcStart, a.len, 16);
      ModSmall(next, 0x1_0000);
      Tail(fs);
      AssignAll16Same(next, fs[1..]);
    }
  }

  /** `pack_selector`: the place value index * 8 + table * 4 + rpl, the
      index taken modulo 2^13; the u16 casts never cut anything. */
  function PackSelector(index: u16, table: TableKind, rpl: Privilege): (s: u16)
    ensures s == (index % 0x2000) * 8 + TableBit(table) * 4 + Level(rpl)
  {
    var fs := SelectorSteps(index, TableBit(table), Level(rpl));
    SelectorStepsLayout(index, TableBit(table), Level(rpl));
    Chain16Place(fs);
    SelectorSum(fs, index, TableBit(table), Level(rpl));
    AssignAll16(0, fs)
  }

  /** The fields of a selector: index, table indicator and requested
      privilege level. */
  datatype SelectorFields = SelectorFields(index: nat, table: TableKind, rpl: Privilege)

  function DecodeSelector(s: u16): (f: SelectorFields)
    ensures f.index < 0x2000
  {
    SelectorFields(s / 8, if s / 4 % 2 == 0 then GDT else LDT, PrivilegeOf(s % 4))
  }

  function PrivilegeOf(n: nat): (p: Privilege)
    requires n < 4
    ensures Level(p) == n
  {
    if n == 0 then Ring0 else if n == 1 then Ring1 else if n == 2 then Ring2 else Ring3
  }

  lemma SelectorStepsLayout(index: u16, t: u64, l: u64)
    ensures AllDefined(SelectorSteps(index, t, l)) && Layout(SelectorSteps(index, t, l))
    ensures forall k | 0 <= k < 3 :: SelectorSteps(index, t, l)[k].destStart + SelectorSteps(index, t, l)[k].len <= 16
  {
  }

  /** A cast chain starting from 0 whose fields lie in the low 16 bits adds
      up its fields. */
  lemma Chain16Place(fs: seq<Assign>)
    requires AllDefined(fs) && Layout(fs)
    requires forall k | 0 <= k < |fs| :: fs[k].destStart + fs[k].len <= 16
    ensures AssignAll16(0, fs) == FieldSum(fs)
  {
    AssignAll16Same(0, fs);
    forall k | 0 <= k < |fs|
      ensures Extract(0, fs[k].destStart, fs[k].len) == 0
    {
      ExtractAbove(0, fs[k].destStart, fs[k].len);
    }
    AssignAllPlace(0, fs);
  }

  lemma SelectorSum(fs: seq<Assign>, index: u16, t: u64, l: u64)
    requires fs == SelectorSteps(index, t, l) && t < 2 && l < 4
    ensures FieldSum(fs) == (index % 0x2000) * 8 + t * 4 + l
  {
    assert FieldSum(fs[1..][1..][1..]) == 0;
    assert FieldSum(fs[1..][1..]) == Extract(index, 0, 13) * Pow2(3);
    assert FieldSum(fs[1..]) == Extract(t, 0, 1) * Pow2(2) + Extract(index, 0, 13) * Pow2(3);
    assert FieldSum(fs) == Extract(l, 0, 2) * Pow2(0) + Extract(t, 0, 1) * Pow2(2) + Extract(index, 0, 13) * Pow2(3);
    FieldValues(index, t, l);
  }

  lemma FieldValues(index: u16, t: u64, l: u64)
    requires t < 2 && l < 4
    ensures Extract(l, 0, 2) * Pow2(0) + Extract(t, 0, 1) * Pow2(2) + Extract(index, 0, 13) * Pow2(3) ==
            (index % 0x2000) * 8 + t * 4 + l
  {
    Pow2Values();
    ExtractLow(l, 2);
    ExtractLow(t, 1);
    ExtractLow(index, 13);
    ModSmall(l, 4);
    ModSmall(t, 2);
  }

  /** Reading the three fields of index * 8 + table * 4 + rpl. */
  lemma DecodeSelectorValue(s: u16, index: nat, t: nat, l: nat)
    requires index < 0x2000 && t < 2 && l < 4 && s == index * 8 + t * 4 + l
    ensures DecodeSelector(s).index == index
    ensures DecodeSelector(s).table == if t == 0 then GDT else LDT
    ensures Level(DecodeSelector(s).rpl) == l
  {
    DivModUnique(s, 8, index, t * 4 + l);
    DivModUnique(s, 4, index * 2 + t, l);
    DivModUnique(index * 2 + t, 2, index, t);
  }

  /** Decoding an encoded selector returns its fields, the index modulo
      2^13. */
  lemma SelectorRoundTrip(index: u16, table: TableKind, rpl: Privilege)
    ensures DecodeSelector(PackSelector(index, table, rpl)) == SelectorFields(index % 0x2000, table, rpl)
  {
    var s := PackSelector(index, table, rpl);
    DecodeSelectorValue(s, index % 0x2000, TableBit(table), Level(rpl));
    LevelInjective(DecodeSelector(s).rpl, rpl);
  }

  lemma LevelInjective(p: Privilege, q: Privilege)
    requires Level(p) == Level(q)
    ensures p == q
  {
  }

  /** Every 16-bit selector is the encoding of its own fields. */
  lemma SelectorComplete(s: u16)
    ensures var f := DecodeSelector(s); PackSelector(f.index, f.table, f.rpl) == s
  {
    var f := DecodeSelector(s);
    SelectorDigits(s);
  }

  lemma SelectorDigits(s: u16)
    ensures s == DecodeSelector(s).index % 0x2000 * 8 + TableBit(DecodeSelector(s).table) * 4 + Level(DecodeSelector(s).rpl)
  {
    var a, b := s / 4, s % 4;
    var h, t := a / 2, a % 2;
    assert s == 4 * a + b && a == 2 * h + t;
    DivModUnique(s, 8, h, 4 * t + b);
    ModSmall(h, 0x2000);
  }

  // ---------------------------------------------------------------------
  // Reading fields back

  /** A field written from bit 0 of x reads back as x modulo 2^len. */
  lemma ReadAt(d: nat, x: nat, start: nat, len: nat, p: nat)
    requires Extract(d, start, len) == Extract(x, 0, len)
    requires p == Pow2(len)
    ensures Extract(d, start, len) == x % p
  {
    ExtractLow(x, len);
  }

  /** Two fields written from bits [0, a) and [a, a + b) of x read back,
      joined, as x modulo 2^(a+b). */
  lemma JoinAt(d: nat, x: nat, lo: nat, hi: nat, a: nat, b: nat, pa: nat, pab: nat)
    requires Extract(d, lo, a) == Extract(x, 0, a) && Extract(d, hi, b) == Extract(x, a, b)
    requires pa == Pow2(a) && pab == Pow2(a + b)
    ensures Extract(d, lo, a) + Extract(d, hi, b) * pa == x % pab
  {
    ExtractSplit(x, 0, a, b);
    ExtractLow(x, a + b);
  }

  // ---------------------------------------------------------------------
  // What a decoded segment means (Intel SDM Vol. 3A section 3.4.5.1)

  /** A code segment: S set and type bit 3 set. */
  predicate IsCode(seg: Segment)
  {
    seg.s == 1 && seg.segType >= 8
  }

  /** A data segment: S set and type bit 3 clear. */
  predicate IsData(seg: Segment)
  {
    seg.s == 1 && seg.segType < 8
  }

  /** Type bit 1: read enable for code, write enable for data. */
  predicate ReadWrite(seg: Segment)
  {
    seg.segType / 2 % 2 == 1
  }

  /** Type bit 2 of a data segment: expansion direction down. */
  predicate ExpandDown(seg: Segment)
  {
    IsData(seg) && seg.segType / 4 % 2 == 1
  }

  /** The D/B flag: 32-bit default operand size and stack pointer. */
  predicate Is32(seg: Segment)
  {
    seg.attrs / 4 % 2 == 1
  }

  /** The largest offset of an expand-up segment: the limit field, counted in
      4 KiB units when G is set. */
  function ByteLimit(seg: Segment): nat
  {
    if seg.granularity == 1 then seg.limit * 0x1000 + 0xFFF else seg.limit
  }

  /** Fields that already fit their widths decode unchanged. */
  lemma DescIs(base: u32, limit: u32, perm: u8, sType: u8, privilege: Privilege, present: bool,
               attrs: u8, granularity: u8, seg: Segment)
    requires limit < 0x10_0000 && perm < 16 && sType < 2 && attrs < 8 && granularity < 2
    requires seg == Segment(base, limit, perm, sType, Level(privilege), present, attrs, granularity)
    ensures DecodeDesc(PackDesc(base, limit, perm, sType, privilege, present, attrs, granularity)) == seg
  {
    DescRoundTrip(base, limit, perm, sType, privilege, present, attrs, granularity);
    FieldsFit(DecodeDesc(PackDesc(base, limit, perm, sType, privilege, present, attrs, granularity)),
              limit, perm, sType, attrs, granularity);
  }

  /** As `DescIs`, for a limit of any width: it decodes cut to 20 bits. */
  lemma DescCut(base: u32, limit: u32, perm: u8, sType: u8, privilege: Privilege, present: bool,
                attrs: u8, granularity: u8, seg: Segment)
    requires perm < 16 && sType < 2 && attrs < 8 && granularity < 2
    requires seg == Segment(base, limit % 0x10_0000, perm, sType, Level(privilege), present, attrs, granularity)
    ensures DecodeDesc(PackDesc(base, limit, perm, sType, privilege, present, attrs, granularity)) == seg
  {
    DescRoundTrip(base, limit, perm, sType, privilege, present, attrs, granularity);
    FieldsFit(DecodeDesc(PackDesc(base, limit, perm, sType, privilege, present, attrs, granularity)).(limit := 0),
              0, perm, sType, attrs, granularity);
  }

  /** Every 64-bit word is a descriptor: `pack_desc` of its own decoded
      fields gives it back, so decoding is one-to-one on words. */
  lemma DescComplete(d: u64)
    ensures var seg := DecodeDesc(d);
      PackDesc(seg.base, seg.limit, seg.segType, seg.s, PrivilegeOf(seg.dpl), seg.present,
               seg.attrs, seg.granularity) == d
  {
    var seg := DecodeDesc(d);
    var e := PackDesc(seg.base, seg.limit, seg.segType, seg.s, PrivilegeOf(seg.dpl), seg.present,
                      seg.attrs, seg.granularity);
    ModSmall(seg.limit, 0x10_0000);
    ModSmall(seg.segType, 16);
    ModSmall(seg.s, 2);
    ModSmall(seg.attrs, 8);
    ModSmall(seg.granularity, 2);
    DescRoundTrip(seg.base, seg.limit, seg.segType, seg.s, PrivilegeOf(seg.dpl), seg.present,
                  seg.attrs, seg.granularity);
    assert DecodeDesc(e) == seg;
    DecodeInjective(e, d);
  }

  /** Two words with the same decoded fields are the same word: the ten
      fields cover all 64 bits. */
  lemma DecodeInjective(d: u64, e: u64)
    requires DecodeDesc(d) == DecodeDesc(e)
    ensures d == e
  {
    Pow2Values();
    BaseEqual(d, e);
    LimitEqual(d, e);
    FlagEqual(d, e, 47);
    assert SameFields(d, e);
    forall i: nat
      ensures Bit(d, i) == Bit(e, i)
    {
      SameBit(d, e, i);
    }
    BitsEqual(d, e);
  }

  /** Every field of `d` equals the same field of `e`. */
  predicate SameFields(d: u64, e: u64)
  {
    && Extract(d, 0, 16) == Extract(e, 0, 16) && Extract(d, 16, 24) == Extract(e, 16, 24)
    && Extract(d, 40, 4) == Extract(e, 40, 4) && Extract(d, 44, 1) == Extract(e, 44, 1)
    && Extract(d, 45, 2) == Extract(e, 45, 2) && Extract(d, 47, 1) == Extract(e, 47, 1)
    && Extract(d, 48, 4) == Extract(e, 48, 4) && Extract(d, 52, 3) == Extract(e, 52, 3)
    && Extract(d, 55, 1) == Extract(e, 55, 1) && Extract(d, 56, 8) == Extract(e, 56, 8)
  }

  /** Words that agree on every field agree on every bit. */
  lemma SameBit(d: u64, e: u64, i: nat)
    requires SameFields(d, e)
    ensures Bit(d, i) == Bit(e, i)
  {
    if i >= 64 {
      BitU64(d, i);
      BitU64(e, i);
    } else {
      var f := FieldAt(i);
      ExtractBits(d, f.0, f.1, i - f.0);
      ExtractBits(e, f.0, f.1, i - f.0);
    }
  }

  /** The descriptor field holding bit i. */
  function FieldAt(i: nat): (r: (nat, nat))
    requires i < 64
    ensures r.0 <= i < r.0 + r.1
    ensures r in {(0, 16), (16, 24), (40, 4), (44, 1), (45, 2), (47, 1), (48, 4), (52, 3), (55, 1), (56, 8)}
  {
    if i < 16 then (0, 16) else if i < 40 then (16, 24) else if i < 44 then (40, 4)
    else if i < 45 then (44, 1) else if i < 47 then (45, 2) else if i < 48 then (47, 1)
    else if i < 52 then (48, 4) else if i < 55 then (52, 3) else if i < 56 then (55, 1) else (56, 8)
  }

  /** The two pieces of the base are equal when the bases are. */
  lemma BaseEqual(d: u64, e: u64)
    requires DecodeDesc(d).base == DecodeDesc(e).base
    ensures Extract(d, 16, 24) == Extract(e, 16, 24) && Extract(d, 56, 8) == Extract(e, 56, 8)
  {
    Pow2Values();
    ExtractBound(d, 16, 24);
    ExtractBound(e, 16, 24);
    var a, b := Extract(d, 16, 24), Extract(d, 56, 8);
    var x, y := Extract(e, 16, 24), Extract(e, 56, 8);
    assert a + b * 0x100_0000 == x + y * 0x100_0000;
    DivModUnique(a + b * 0x100_0000, 0x100_0000, b, a);
    DivModUnique(x + y * 0x100_0000, 0x100_0000, y, x);
  }

  /** The two pieces of the limit are equal when the limits are. */
  lemma LimitEqual(d: u64, e: u64)
    requires DecodeDesc(d).limit == DecodeDesc(e).limit
    ensures Extract(d, 0, 16) == Extract(e, 0, 16) && Extract(d, 48, 4) == Extract(e, 48, 4)
  {
    Pow2Values();
    ExtractBound(d, 0, 16);
    ExtractBound(e, 0, 16);
    var a, b := Extract(d, 0, 16), Extract(d, 48, 4);
    var x, y := Extract(e, 0, 16), Extract(e, 48, 4);
    assert a + b * 0x1_0000 == x + y * 0x1_0000;
    DivModUnique(a + b * 0x1_0000, 0x1_0000, b, a);
    DivModUnique(x + y * 0x1_0000, 0x1_0000, y, x);
  }

  /** The present flag is a one-bit field, so equal flags are equal bits. */
  lemma FlagEqual(d: u64, e: u64, at: nat)
    requires at == 47 && DecodeDesc(d).present == DecodeDesc(e).present
    ensures Extract(d, at, 1) == Extract(e, at, 1)
  {
    Pow2Values();
    ExtractBound(d, at, 1);
    ExtractBound(e, at, 1);
  }

  lemma FieldsFit(seg: Segment, limit: nat, perm: nat, sType: nat, attrs: nat, granularity: nat)
    requires limit < 0x10_0000 && perm < 16 && sType < 2 && attrs < 8 && granularity < 2
    requires seg.limit == limit % 0x10_0000 && seg.segType == perm % 16 && seg.s == sType % 2
    requires seg.attrs == attrs % 8 && seg.granularity == granularity % 2
    ensures seg.limit == limit && seg.segType == perm && seg.s == sType
    ensures seg.attrs == attrs && seg.granularity == granularity
  {
  }
}
