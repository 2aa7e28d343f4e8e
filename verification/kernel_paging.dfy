/** The kernel's fixed paging setup of bootloader/stage_3/src/paging.rs: a
    page directory `KERNEL_PDT` that maps the first 4 MiB onto themselves
    with two 2 MiB pages, and `enable_paging`, which fills the page
    directory pointer table `KERNEL_PDPT` and then runs `enable`.

    Where the two tables sit in memory is decided by the linker, so their
    addresses are parameters. `PDTable` is aligned to 4 KiB and the
    bootloader runs below 4 GiB, which gives the requires on `pdtAddr`. */
module KernelPaging {
  import opened Bits
  import opened Bitwise
  import opened Pae

  /** `PATMemoryType::new(false, false, false)`: PWT, PCD and PAT clear. */
  const WRITE_BACK: MemType := MemType(false, false, false)

  /** `0 * MB` and `2 * MB`. */
  const PAGE0: u64 := 0
  const PAGE1: u64 := 0x20_0000

  /** One kernel page: writable, supervisor only, write-back, not global,
      executable. P, R/W and PS are set, U/S and XD clear, and over a
      2 MiB-aligned address the entry is the address plus 0x83. */
  function KernelPage(phys: u64): (k: u64)
    ensures Bit(k, 0) && Bit(k, 1) && !Bit(k, 2) && Bit(k, 7) && !Bit(k, 63)
    ensures phys % 0x20_0000 == 0 && phys < 0x8000_0000_0000_0000 ==> k == phys + 0x83
  {
    var k := NewPdePage(true, false, WRITE_BACK, false, phys, false);
    if phys % 0x20_0000 == 0 && phys < 0x8000_0000_0000_0000 then
      PdePageValue(true, false, WRITE_BACK, false, phys, false);
      k
    else
      k
  }

  /** `KERNEL_PDT`: `with_entries` of the two pages. */
  const KERNEL_PDT: seq<u64> := Filled(PDE_NUM, [KernelPage(PAGE0), KernelPage(PAGE1)])

  /** A directory of two kernel pages over 2 MiB-aligned addresses holds
      each address plus 0x83. Stated for any two addresses, so that the
      two constant ones are only substituted in. */
  lemma TwoPages(a: u64, b: u64)
    requires a % 0x20_0000 == 0 && a < 0x8000_0000_0000_0000
    requires b % 0x20_0000 == 0 && b < 0x8000_0000_0000_0000
    ensures Filled(PDE_NUM, [KernelPage(a), KernelPage(b)])[0] == a + 0x83
    ensures Filled(PDE_NUM, [KernelPage(a), KernelPage(b)])[1] == b + 0x83
  {
  }

  /** A directory of two kernel pages is empty after them, whatever the
      two addresses. */
  lemma EmptyAfterTwo(a: u64, b: u64)
    ensures |Filled(PDE_NUM, [KernelPage(a), KernelPage(b)])| == PDE_NUM
    ensures forall i | 2 <= i < PDE_NUM :: Filled(PDE_NUM, [KernelPage(a), KernelPage(b)])[i] == EMPTY_ENTRY
  {
  }

  lemma Slot0()
    ensures |KERNEL_PDT| == PDE_NUM && KERNEL_PDT[0] == 0x83
  {
    TwoPages(PAGE0, PAGE1);
  }

  lemma Slot1()
    ensures |KERNEL_PDT| == PDE_NUM && KERNEL_PDT[1] == 0x20_0083
  {
    TwoPages(PAGE0, PAGE1);
  }

  lemma SlotsEmpty()
    ensures |KERNEL_PDT| == PDE_NUM && forall i | 2 <= i < PDE_NUM :: KERNEL_PDT[i] == EMPTY_ENTRY
  {
    EmptyAfterTwo(PAGE0, PAGE1);
  }

  /** A directory laid out like `KERNEL_PDT`: slot 0 is 0x83, slot 1 is
      0x200083 and the other 510 slots are empty. */
  predicate KernelShape(pdt: seq<u64>)
  {
    |pdt| == PDE_NUM && pdt[0] == 0x83 && pdt[1] == 0x20_0083
    && forall i | 2 <= i < PDE_NUM :: pdt[i] == EMPTY_ENTRY
  }

  /** Both bases are 2 MiB aligned, so `KERNEL_PDT` has that layout. */
  lemma KernelPdtValues()
    ensures KernelShape(KERNEL_PDT)
  {
    Slot0();
    Slot1();
    SlotsEmpty();
  }

  // ---------------------------------------------------------------------
  // Translation through a 2 MiB page (Intel SDM Vol. 3A section 4.4.2)

  datatype Walk = Fault | Page(phys: nat) | ViaTable(tablePhys: nat)

  /** The directory step of a PAE walk: `pdt` is the page directory the
      PDPTE points at. Bits 29:21 of the address pick the PDE; a present
      PDE with PS set maps a 2 MiB page whose frame is bits 51:21, one
      without PS points at a page table (not walked further here). */
  function WalkDir(pdpte: u64, pdt: seq<u64>, addr: u32): Walk
    requires |pdt| == PDE_NUM
  {
    if !Bit(pdpte, 0) then Fault
    else
      var pde := pdt[addr / 0x20_0000 % 0x200];
      if !Bit(pde, 0) then Fault
      else if Bit(pde, 7) then Page(Extract(pde, 21, 31) * 0x20_0000 + addr % 0x20_0000)
      else ViaTable(Extract(pde, 12, 40) * 0x1000)
  }

  /** Bits 31:30 of the address pick the PDPTE. */
  function PdptIndex(addr: u32): nat
  {
    addr / 0x4000_0000
  }

  /** The frame of a large page whose base is below 2^52. */
  lemma LargeFrame(base: nat, low: nat)
    requires base % 0x20_0000 == 0 && base < 0x10_0000_0000_0000 && low < 0x20_0000
    ensures Extract(base + low, 21, 31) * 0x20_0000 == base
  {
    var x := base + low;
    Pow2Values();
    Pow2Add(21, 31);
    HalfIsDiv(x, 21);
    LowIsMod(x / 0x20_0000, 31);
    assert x / 0x20_0000 == base / 0x20_0000;
    DivBound(base, 0x20_0000, Pow2(31));
    ModSmall(base / 0x20_0000, Pow2(31));
  }

  /** P and PS of a kernel page entry. */
  lemma KernelPageBits(phys: u64)
    requires phys % 0x20_0000 == 0 && phys < 0x8000_0000_0000_0000
    ensures Bit(phys + 0x83, 0) && Bit(phys + 0x83, 7)
  {
    var k := KernelPage(phys);
  }

  /** A present PDE with PS set maps the address into its 2 MiB frame. */
  lemma WalkLarge(pdpte: u64, pdt: seq<u64>, addr: u32, pde: u64)
    requires |pdt| == PDE_NUM && Bit(pdpte, 0)
    requires pdt[addr / 0x20_0000 % 0x200] == pde && Bit(pde, 0) && Bit(pde, 7)
    ensures WalkDir(pdpte, pdt, addr) == Page(Extract(pde, 21, 31) * 0x20_0000 + addr % 0x20_0000)
  {
  }

  lemma WalkEmpty(pdpte: u64, pdt: seq<u64>, addr: u32)
    requires |pdt| == PDE_NUM && pdt[addr / 0x20_0000 % 0x200] == EMPTY_ENTRY
    ensures WalkDir(pdpte, pdt, addr) == Fault
  {
  }

  /** The directory slot of an address in the first gigabyte. */
  lemma LowSlot(addr: u32)
    requires addr < 0x4000_0000
    ensures addr / 0x4000_0000 == 0
    ensures addr / 0x20_0000 % 0x200 == addr / 0x20_0000
  {
  }

  lemma InPage(addr: u32, slot: nat)
    requires slot == addr / 0x20_0000
    ensures addr == slot * 0x20_0000 + addr % 0x20_0000
  {
  }

  /** Any directory whose first two slots hold the two kernel pages maps
      the first 4 MiB onto themselves. */
  lemma IdentityThrough(pdpte: u64, pdt: seq<u64>, addr: u32)
    requires |pdt| == PDE_NUM && pdt[0] == 0x83 && pdt[1] == 0x20_0083
    requires Bit(pdpte, 0) && addr < 0x40_0000
    ensures WalkDir(pdpte, pdt, addr) == Page(addr)
  {
    LowSlot(addr);
    var slot := addr / 0x20_0000;
    InPage(addr, slot);
    var base: u64 := if slot == 0 then PAGE0 else PAGE1;
    assert pdt[slot] == base + 0x83;
    KernelPageBits(base);
    WalkLarge(pdpte, pdt, addr, base + 0x83);
    LargeFrame(base, 0x83);
  }

  /** Any directory whose slots from 2 on are empty maps nothing else in
      the first gigabyte. */
  lemma NothingAbove(pdpte: u64, pdt: seq<u64>, addr: u32)
    requires |pdt| == PDE_NUM && forall i | 2 <= i < PDE_NUM :: pdt[i] == EMPTY_ENTRY
    requires 0x40_0000 <= addr < 0x4000_0000
    ensures WalkDir(pdpte, pdt, addr) == Fault
  {
    LowSlot(addr);
    WalkEmpty(pdpte, pdt, addr);
  }

  /** The comment's promise: through a present PDPTE pointing at
      `KERNEL_PDT`, every linear address below 4 MiB maps to itself. */
  lemma KernelIdentity(pdpte: u64, addr: u32)
    requires Bit(pdpte, 0) && addr < 0x40_0000
    ensures PdptIndex(addr) == 0
    ensures WalkDir(pdpte, KERNEL_PDT, addr) == Page(addr)
  {
    LowSlot(addr);
    KernelPdtValues();
    ShapeWalk(pdpte, KERNEL_PDT, addr);
  }

  /** Above the first 4 MiB the rest of the first gigabyte is unmapped. */
  lemma KernelOnly4M(pdpte: u64, addr: u32)
    requires 0x40_0000 <= addr < 0x4000_0000
    ensures PdptIndex(addr) == 0
    ensures WalkDir(pdpte, KERNEL_PDT, addr) == Fault
  {
    LowSlot(addr);
    KernelPdtValues();
    ShapeAbove(pdpte, KERNEL_PDT, addr);
  }

  /** A directory laid out like `KERNEL_PDT` maps nothing between 4 MiB
      and 1 GiB. */
  lemma ShapeAbove(pdpte: u64, pdt: seq<u64>, addr: u32)
    requires KernelShape(pdt) && 0x40_0000 <= addr < 0x4000_0000
    ensures WalkDir(pdpte, pdt, addr) == Fault
  {
    NothingAbove(pdpte, pdt, addr);
  }

  /** Through a present PDPTE, a directory laid out like `KERNEL_PDT` maps
      the first 4 MiB onto themselves and faults on the rest of the first
      gigabyte. */
  lemma ShapeWalk(pdpte: u64, pdt: seq<u64>, addr: u32)
    requires KernelShape(pdt) && Bit(pdpte, 0) && addr < 0x4000_0000
    ensures WalkDir(pdpte, pdt, addr) == if addr < 0x40_0000 then Page(addr) else Fault
  {
    if addr < 0x40_0000 {
      IdentityThrough(pdpte, pdt, addr);
    } else {
      ShapeAbove(pdpte, pdt, addr);
    }
  }

  // ---------------------------------------------------------------------
  // Loading the PDPTEs (Intel SDM Vol. 3A section 4.4.1)

  /** Reserved bits of a present PDPTE: 2:1, 8:5 and MAXPHYADDR to 63. */
  predicate Reserved(i: nat, maxPhys: nat)
  {
    i == 1 || i == 2 || 5 <= i <= 8 || maxPhys <= i < 64
  }

  /** A PDPTE the processor accepts: not present, or no reserved bit set. */
  predicate Loadable(e: u64, maxPhys: nat)
  {
    Bit(e, 0) ==> forall i: nat | i < 64 && Reserved(i, maxPhys) :: !Bit(e, i)
  }

  predicate AllLoadable(pdpt: seq<u64>, maxPhys: nat)
  {
    forall k | 0 <= k < |pdpt| :: Loadable(pdpt[k], maxPhys)
  }

  /** What the bootloader does, in order: writes into `KERNEL_PDPT`, then
      the control-register steps of `enable`. */
  datatype Action = WritePdpte(slot: nat, value: u64) | Control(e: Event)

  datatype Machine = Machine(pdpt: seq<u64>, cpu: Cpu)

  datatype Outcome = Running(m: Machine) | GeneralProtection

  function Controls(es: seq<Event>): (acts: seq<Action>)
    ensures |acts| == |es| && forall k | 0 <= k < |acts| :: acts[k] == Control(es[k])
  {
    if |es| == 0 then [] else [Control(es[0])] + Controls(es[1..])
  }

  /** The PDPTEs are read from the table CR3 points at on a `mov cr3` while
      PAE paging is active, and on the step that makes it active; a
      reserved bit in a present one raises #GP. The table CR3 points at is
      `m.pdpt`. A write to a slot outside the table does not happen in the
      code (the slots are the constants 0 and 1); it leaves the machine
      as it was. */
  function Act(m: Machine, a: Action, maxPhys: nat): Outcome
  {
    match a
    case WritePdpte(slot, v) =>
      Running(if slot < |m.pdpt| then m.(pdpt := m.pdpt[slot := v]) else m)
    case Control(e) =>
      var c := Step(m.cpu, e);
      var wasOn := PagingOn(m.cpu) && PaeOn(m.cpu);
      var loads := PagingOn(c) && PaeOn(c) && (e.LoadCr3? || !wasOn);
      if loads && !AllLoadable(m.pdpt, maxPhys) then GeneralProtection
      else Running(m.(cpu := c))
  }

  function Perform(m: Machine, acts: seq<Action>, maxPhys: nat): Outcome
    decreases |acts|
  {
    if |acts| == 0 then Running(m)
    else match Act(m, acts[0], maxPhys)
      case GeneralProtection => GeneralProtection
      case Running(m') => Perform(m', acts[1..], maxPhys)
  }

  /** `enable_paging` as written: PDPT[0] points at `KERNEL_PDT`, PDPT[1]
      is all ones, then `enable` with the PDPT's address. Every write comes
      before every control-register step. */
  function EnablePaging(pdtAddr: u32, pdptAddr: u32): (acts: seq<Action>)
    ensures forall i, j | 0 <= i < j < |acts| :: acts[j].WritePdpte? ==> acts[i].WritePdpte?
  {
    [WritePdpte(0, NewPdpte(WRITE_BACK, pdtAddr)), WritePdpte(1, Ones)] + Controls(Enable(pdptAddr))
  }

  /** `enable_paging` without the write of all ones into PDPT[1]. */
  function EnablePagingFixed(pdtAddr: u32, pdptAddr: u32): (acts: seq<Action>)
    ensures forall i, j | 0 <= i < j < |acts| :: acts[j].WritePdpte? ==> acts[i].WritePdpte?
  {
    [WritePdpte(0, NewPdpte(WRITE_BACK, pdtAddr))] + Controls(Enable(pdptAddr))
  }

  // ---------------------------------------------------------------------
  // Running the actions

  lemma PerformAppend(m: Machine, a: Action, rest: seq<Action>, maxPhys: nat)
    ensures Perform(m, [a] + rest, maxPhys) ==
      match Act(m, a, maxPhys)
      case GeneralProtection => GeneralProtection
      case Running(m') => Perform(m', rest, maxPhys)
  {
    assert ([a] + rest)[1..] == rest;
  }

  /** The entry `enable_paging` writes into PDPT[0] for a 4 KiB-aligned
      directory below 4 GiB: the address plus P. */
  lemma DirEntry(pdtAddr: u32)
    requires pdtAddr % 0x1000 == 0
    ensures NewPdpte(WRITE_BACK, pdtAddr) == pdtAddr + 1
  {
    PdpteValue(WRITE_BACK, pdtAddr);
  }

  /** That entry is loadable on any processor. */
  lemma DirEntryLoadable(pdtAddr: u32, maxPhys: nat)
    requires pdtAddr % 0x1000 == 0 && 36 <= maxPhys
    ensures Loadable(pdtAddr + 1, maxPhys)
  {
    Pow2Values();
    Pow2Widths();
    AlignedBits(pdtAddr, 12, 32, 0);
    assert pdtAddr % 2 == 0;
    forall i: nat | i < 64 && Reserved(i, maxPhys)
      ensures !Bit(pdtAddr + 1, i)
    {
      AlignedBits(pdtAddr, 12, 32, i);
      PlusOneBit(pdtAddr, i);
    }
  }

  /** All ones is present with every reserved bit set. */
  lemma OnesNotLoadable(maxPhys: nat)
    ensures !Loadable(Ones, maxPhys)
  {
    BitOnes(0);
    BitOnes(1);
    assert Reserved(1, maxPhys);
  }

  lemma EmptyLoadable(maxPhys: nat)
    ensures Loadable(EMPTY_ENTRY, maxPhys)
  {
  }

  /** The four PDPTEs right before `enable`, as written and as fixed. */
  function WrittenPdpt(pdtAddr: u32): seq<u64>
  {
    [pdtAddr + 1, Ones, EMPTY_ENTRY, EMPTY_ENTRY]
  }

  function FixedPdpt(pdtAddr: u32): seq<u64>
  {
    [pdtAddr + 1, EMPTY_ENTRY, EMPTY_ENTRY, EMPTY_ENTRY]
  }

  /** From `PDPTable::new()`, the writes of `enable_paging` leave PDPT[0] =
      the directory's address | 1, PDPT[1] = all ones and the rest empty. */
  lemma WritesAsWritten(cpu: Cpu, pdtAddr: u32, maxPhys: nat, rest: seq<Action>)
    requires pdtAddr % 0x1000 == 0
    ensures Perform(Machine(NewTable(PDPTE_NUM), cpu),
                    [WritePdpte(0, NewPdpte(WRITE_BACK, pdtAddr)), WritePdpte(1, Ones)] + rest, maxPhys)
         == Perform(Machine(WrittenPdpt(pdtAddr), cpu), rest, maxPhys)
  {
    var e0 := NewPdpte(WRITE_BACK, pdtAddr);
    DirEntry(pdtAddr);
    var m0 := Machine(NewTable(PDPTE_NUM), cpu);
    var m1 := Machine(NewTable(PDPTE_NUM)[0 := e0], cpu);
    ConsTwo(WritePdpte(0, e0), WritePdpte(1, Ones), rest);
    PerformAppend(m0, WritePdpte(0, e0), [WritePdpte(1, Ones)] + rest, maxPhys);
    PerformAppend(m1, WritePdpte(1, Ones), rest, maxPhys);
    WrittenShape(pdtAddr, e0);
  }

  lemma ConsTwo<T>(a: T, b: T, rest: seq<T>)
    ensures [a, b] + rest == [a] + ([b] + rest)
  {
  }

  lemma WrittenShape(pdtAddr: u32, e0: u64)
    requires e0 == pdtAddr + 1
    ensures NewTable(PDPTE_NUM)[0 := e0][1 := Ones] == WrittenPdpt(pdtAddr)
  {
  }

  lemma WritesFixed(cpu: Cpu, pdtAddr: u32, maxPhys: nat, rest: seq<Action>)
    requires pdtAddr % 0x1000 == 0
    ensures Perform(Machine(NewTable(PDPTE_NUM), cpu), [WritePdpte(0, NewPdpte(WRITE_BACK, pdtAddr))] + rest, maxPhys)
         == Perform(Machine(FixedPdpt(pdtAddr), cpu), rest, maxPhys)
  {
    var e0 := NewPdpte(WRITE_BACK, pdtAddr);
    var m0 := Machine(NewTable(PDPTE_NUM), cpu);
    PerformAppend(m0, WritePdpte(0, e0), rest, maxPhys);
    DirEntry(pdtAddr);
    FixedShape(pdtAddr, e0);
  }

  lemma FixedShape(pdtAddr: u32, e0: u64)
    requires e0 == pdtAddr + 1
    ensures NewTable(PDPTE_NUM)[0 := e0] == FixedPdpt(pdtAddr)
  {
  }

  /** Every entry of the fixed table is loadable. */
  lemma FixedLoadable(pdtAddr: u32, maxPhys: nat)
    requires pdtAddr % 0x1000 == 0 && 36 <= maxPhys
    ensures AllLoadable(FixedPdpt(pdtAddr), maxPhys)
  {
    DirEntryLoadable(pdtAddr, maxPhys);
    EmptyLoadable(maxPhys);
  }

  /** After the three steps of `enable` paging and PAE are on and CR3
      holds the table. */
  lemma EnabledState(cpu: Cpu, pdptAddr: u32)
    ensures var c := EnableState(cpu, pdptAddr, 3);
      PagingOn(c) && PaeOn(c) && c.cr3 == pdptAddr
  {
    SetBit(cpu.cr4, CR4_PAE, CR4_PAE);
    SetBit(cpu.cr0, CR0_PG, CR0_PG);
  }

  /** `enable` over a table the processor accepts: paging ends up on with
      PAE and CR3 pointing at the table, and the table is untouched. */
  lemma EnableRuns(pdpt: seq<u64>, cpu: Cpu, pdptAddr: u32, maxPhys: nat)
    requires AllLoadable(pdpt, maxPhys)
    ensures Perform(Machine(pdpt, cpu), Controls(Enable(pdptAddr)), maxPhys)
         == Running(Machine(pdpt, EnableState(cpu, pdptAddr, 3)))
  {
    var acts := Controls(Enable(pdptAddr));
    var m := Machine(pdpt, cpu);
    var m1 := m.(cpu := Step(cpu, SetCr4Pae));
    var m2 := m1.(cpu := Step(m1.cpu, LoadCr3(pdptAddr)));
    var m3 := m2.(cpu := Step(m2.cpu, SetCr0Pg));
    assert acts == [Control(SetCr4Pae)] + ([Control(LoadCr3(pdptAddr))] + ([Control(SetCr0Pg)] + []));
    PerformAppend(m, Control(SetCr4Pae), [Control(LoadCr3(pdptAddr))] + ([Control(SetCr0Pg)] + []), maxPhys);
    PerformAppend(m1, Control(LoadCr3(pdptAddr)), [Control(SetCr0Pg)] + [], maxPhys);
    PerformAppend(m2, Control(SetCr0Pg), [], maxPhys);
    EnableStateSteps(cpu, pdptAddr);
  }

  lemma EnableStateSteps(cpu: Cpu, pdptAddr: u32)
    ensures Step(Step(Step(cpu, SetCr4Pae), LoadCr3(pdptAddr)), SetCr0Pg) == EnableState(cpu, pdptAddr, 3)
  {
  }

  /** `enable` over a table with a present entry that has a reserved bit
      set, starting with paging off: the step that turns paging on raises
      #GP. */
  lemma EnableFaults(pdpt: seq<u64>, cpu: Cpu, pdptAddr: u32, maxPhys: nat)
    requires !AllLoadable(pdpt, maxPhys) && !PagingOn(cpu)
    ensures Perform(Machine(pdpt, cpu), Controls(Enable(pdptAddr)), maxPhys) == GeneralProtection
  {
    var m := Machine(pdpt, cpu);
    var c1 := Step(cpu, SetCr4Pae);
    var c2 := Step(c1, LoadCr3(pdptAddr));
    var c3 := Step(c2, SetCr0Pg);
    var m1 := m.(cpu := c1);
    var m2 := m1.(cpu := c2);
    SetBit(cpu.cr4, CR4_PAE, CR0_PG);
    SetBit(cpu.cr4, CR4_PAE, CR4_PAE);
    SetBit(cpu.cr0, CR0_PG, CR0_PG);
    assert !PagingOn(c1) && !PagingOn(c2) && PagingOn(c3) && PaeOn(c3);
    assert Controls(Enable(pdptAddr)) == [Control(SetCr4Pae)] + ([Control(LoadCr3(pdptAddr))] + ([Control(SetCr0Pg)] + []));
    PerformAppend(m, Control(SetCr4Pae), [Control(LoadCr3(pdptAddr))] + ([Control(SetCr0Pg)] + []), maxPhys);
    PerformAppend(m1, Control(LoadCr3(pdptAddr)), [Control(SetCr0Pg)] + [], maxPhys);
    PerformAppend(m2, Control(SetCr0Pg), [], maxPhys);
  }

  /** As written, `enable_paging` from an empty PDPT with paging off ends
      in #GP on the `mov cr0` that turns paging on, whatever the
      processor's MAXPHYADDR. */
  lemma EnablePagingFaults(cpu: Cpu, pdtAddr: u32, pdptAddr: u32, maxPhys: nat)
    requires pdtAddr % 0x1000 == 0 && !PagingOn(cpu)
    ensures Perform(Machine(NewTable(PDPTE_NUM), cpu), EnablePaging(pdtAddr, pdptAddr), maxPhys) == GeneralProtection
  {
    WritesAsWritten(cpu, pdtAddr, maxPhys, Controls(Enable(pdptAddr)));
    OnesNotLoadable(maxPhys);
    assert WrittenPdpt(pdtAddr)[1] == Ones;
    EnableFaults(WrittenPdpt(pdtAddr), cpu, pdptAddr, maxPhys);
  }

  /** Without the all-ones entry, `enable_paging` switches PAE paging on
      with CR3 at the PDPT, PDPT[0] pointing at `KERNEL_PDT` and the other
      three entries empty. */
  lemma EnablePagingFixedRuns(cpu: Cpu, pdtAddr: u32, pdptAddr: u32, maxPhys: nat)
    requires pdtAddr % 0x1000 == 0 && 36 <= maxPhys
    ensures var out := Perform(Machine(NewTable(PDPTE_NUM), cpu), EnablePagingFixed(pdtAddr, pdptAddr), maxPhys);
      && out.Running?
      && out.m.pdpt == FixedPdpt(pdtAddr)
      && PagingOn(out.m.cpu) && PaeOn(out.m.cpu) && out.m.cpu.cr3 == pdptAddr
  {
    WritesFixed(cpu, pdtAddr, maxPhys, Controls(Enable(pdptAddr)));
    FixedLoadable(pdtAddr, maxPhys);
    EnableRuns(FixedPdpt(pdtAddr), cpu, pdptAddr, maxPhys);
    EnabledState(cpu, pdptAddr);
  }

  /** A 4 KiB-aligned address plus 1 has bit 0 set. */
  lemma AlignedPresent(x: u32)
    requires x % 0x1000 == 0
    ensures Bit(x + 1, 0)
  {
    DirEntry(x);
    var e := NewPdpte(WRITE_BACK, x);
  }

  /** After the fixed `enable_paging` the first 4 MiB are identity mapped
      and the rest of the first gigabyte faults. */
  lemma FixedIdentity(pdtAddr: u32, addr: u32)
    requires pdtAddr % 0x1000 == 0 && addr < 0x4000_0000
    ensures PdptIndex(addr) == 0
    ensures WalkDir(FixedPdpt(pdtAddr)[0], KERNEL_PDT, addr) == if addr < 0x40_0000 then Page(addr) else Fault
  {
    var e := FixedPdpt(pdtAddr)[0];
    assert e == pdtAddr + 1;
    AlignedPresent(pdtAddr);
    LowSlot(addr);
    KernelPdtValues();
    ShapeWalk(e, KERNEL_PDT, addr);
  }
}
