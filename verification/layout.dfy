/** Physical memory layout of the boot loader (bootloader/shared/src/layout.rs).
    All values are `usize`, 32 bits wide on this target. */
module Layout {
  const I386_MAX_ADDR: nat := 0xFFFF_FFFF
  const NORMAL_START: nat := 0
  /** The real-mode switching segment must be 64 KiB. */
  const NORMAL_SIZE: nat := 0x1_0000
  const NORMAL_END: nat := NORMAL_START + NORMAL_SIZE

  const CODE_START: nat := 0
  const CODE_END: nat := I386_MAX_ADDR
  const DATA_START: nat := 0
  const DATA_END: nat := I386_MAX_ADDR

  const STACK_START: nat := 327680
  const STACK_END: nat := 393216

  const VIDEO_START: nat := 753664
  /** 80x25 text mode, two bytes a cell. */
  const VIDEO_SIZE: nat := 80 * 25 * 2
  const VIDEO_END: nat := VIDEO_START + VIDEO_SIZE

  const STAGE1_START: nat := 31744
  const STAGE1_END: nat := 32256
  const STAGE2_START: nat := 32256
  const GDT_START: nat := 65280
  const MEMINFO_START: nat := 65024
  const MEMINFO_SIZE: nat := GDT_START - MEMINFO_START
  const GDT_END: nat := 65536
  const GDT_SIZE: nat := GDT_END - GDT_START
  const STAGE2_END: nat := 65536
  const STAGE3_START: nat := 65536
  const STAGE3_END: nat := 327680

  const KERNEL_START: nat := 1048576
  const KERNEL_END: nat := 2097152

  const REAL_MODE_MAX_ADDRESS: nat := 0x10_0000

  const CODE_SIZE: nat := CODE_END - CODE_START
  const DATA_SIZE: nat := DATA_END - DATA_START
  const STACK_SIZE: nat := STACK_END - STACK_START
  const STAGE1_SIZE: nat := STAGE1_END - STAGE1_START
  const STAGE2_SIZE: nat := STAGE2_END - STAGE2_START
  const STAGE3_SIZE: nat := STAGE3_END - STAGE3_START
  const KERNEL_SIZE: nat := KERNEL_END - KERNEL_START

  /** A half-open region [start, end). */
  datatype Region = Region(start: nat, end: nat)

  predicate Within(inner: Region, outer: Region)
  {
    outer.start <= inner.start && inner.end <= outer.end
  }

  predicate Disjoint(a: Region, b: Region)
  {
    a.end <= b.start || b.end <= a.start
  }

  /** The regions the START/END pairs draw below 1 MiB, in address order:
      stages 1 to 3, the stack and the text-mode video buffer. */
  function LowRegions(): (rs: seq<Region>)
    ensures forall i | 0 <= i < |rs| :: rs[i].start < rs[i].end
  {
    [Region(STAGE1_START, STAGE1_END), Region(STAGE2_START, STAGE2_END),
     Region(STAGE3_START, STAGE3_END), Region(STACK_START, STACK_END),
     Region(VIDEO_START, VIDEO_END)]
  }

  function Meminfo(): Region { Region(MEMINFO_START, GDT_START) }
  function Gdt(): Region { Region(GDT_START, GDT_END) }
  function Kernel(): Region { Region(KERNEL_START, KERNEL_END) }

  /** The regions below 1 MiB follow each other in address order without
      overlapping, and all lie below the real-mode limit, which is where
      the kernel starts. */
  lemma RegionsOrdered()
    ensures var rs := LowRegions();
      && (forall i, j | 0 <= i < j < |rs| :: rs[i].end <= rs[j].start)
      && (forall i | 0 <= i < |rs| :: rs[i].end <= REAL_MODE_MAX_ADDRESS && Disjoint(rs[i], Kernel()))
  {
  }

  /** MEMINFO and the GDT are carved out of the top of stage 2: both lie
      inside it, they do not overlap, MEMINFO is followed directly by the
      GDT, and the GDT ends where stage 2 ends. */
  lemma Stage2Tail()
    ensures var stage2 := LowRegions()[1];
      && Within(Meminfo(), stage2) && Within(Gdt(), stage2)
      && Disjoint(Meminfo(), Gdt())
      && Meminfo().end == Gdt().start && Gdt().end == stage2.end
      && STAGE2_START <= MEMINFO_START
  {
  }

  /** The stages load back to back, the stack follows stage 3, and the
      meta-data regions end where stage 2 ends. */
  lemma Contiguous()
    ensures STAGE1_END == STAGE2_START && STAGE2_END == STAGE3_START
    ensures STAGE3_END == STACK_START && STACK_END <= VIDEO_START
    ensures MEMINFO_START + MEMINFO_SIZE == GDT_START && GDT_START + GDT_SIZE == STAGE2_END
    ensures KERNEL_START == REAL_MODE_MAX_ADDRESS
  {
  }

  /** Sizes: each stage a whole number of 512-byte sectors. */
  lemma Sizes()
    ensures STAGE1_SIZE == 512 && STAGE2_SIZE == 33280 && STAGE3_SIZE == 262144
    ensures STAGE1_SIZE % 512 == 0 && STAGE2_SIZE % 512 == 0 && STAGE3_SIZE % 512 == 0
    ensures MEMINFO_SIZE == 256 && GDT_SIZE == 256
    ensures KERNEL_SIZE == 0x10_0000 && NORMAL_SIZE == 0x1_0000
    ensures STACK_SIZE == 65536 && CODE_END == 0xFFFF_FFFF
  {
  }
}
