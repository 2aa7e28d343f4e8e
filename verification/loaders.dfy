/** The three loaders of the boot chain. Stage 1 reads stage 2 from the
    disk right behind it with the BIOS (bootloader/stage_1/src/img_load.rs);
    stage 2 reads stage 3 the same way through the real-mode no-filesystem
    driver (bootloader/stage_2/src/img_load.rs); stage 3, in protected mode
    and so unable to call the BIOS, reads the kernel to 1 MiB over ATA PIO
    (bootloader/stage_3/src/load_kernel.rs). The images follow each other
    on the disk as they do in memory, so each one's first sector is the
    size of everything before it over 512. */
module Loaders {
  import opened Bits
  import opened Results
  import opened Layout
  import Disk
  import Ata
  import opened NoFs

  /** The first hard disk. */
  const STAGE_DISK: u8 := 0x80

  // ---------------------------------------------------------------------
  // Stage 1 loads stage 2

  /** The one packet stage 1 hands the BIOS: 65 sectors from LBA 1 to
      0000:7E00. */
  const STAGE2_PACKET: Disk.Dap := Disk.Dap(0x10, 0, 65, 0x7E00, 0, 1, STAGE_DISK)

  lemma Stage2Packet()
    ensures Disk.SizeToLba(STAGE1_SIZE) == 1
    ensures Disk.ReadDiskPacket((STAGE_DISK, Disk.SizeToLba(STAGE1_SIZE)), STAGE2_START, STAGE2_SIZE) == STAGE2_PACKET
    ensures Disk.Chunked(STAGE2_PACKET) == [STAGE2_PACKET]
    ensures Disk.RealAddress(STAGE2_PACKET.segment, STAGE2_PACKET.offset) == STAGE2_START
    ensures STAGE2_PACKET.sectorNum * Disk.SECTOR_SIZE == STAGE2_SIZE
  {
    PacketIs((STAGE_DISK, 1), STAGE2_START, STAGE2_SIZE, STAGE2_PACKET);
  }

  /** `load_stage2`: reset the first hard disk, then `read_disk` stage 2's
      33280 bytes from LBA 1 to STAGE2_START. `resetAx` is what the reset
      hands back in AX, `bios` answers the reads. */
  method LoadStage2(resetAx: u16, bios: Disk.Dap -> u16) returns (calls: seq<Disk.Dap>, r: Result<(), Disk.DapError>)
    ensures Disk.Ah(resetAx) != 0 ==> calls == [] && r.Err?
    ensures Disk.Ah(resetAx) == 0 ==> calls == [STAGE2_PACKET]
    ensures r.Ok? <==> Disk.Ah(resetAx) == 0 && Disk.Ah(bios(STAGE2_PACKET)) == 0
  {
    var reset := Disk.ResetDisk(resetAx);
    if reset.Err? {
      return [], reset;
    }
    Stage2Packet();
    calls, r := Disk.ReadDisk((STAGE_DISK, Disk.SizeToLba(STAGE1_SIZE)), STAGE2_START, STAGE2_SIZE, bios);
  }

  // ---------------------------------------------------------------------
  // Stage 2 loads stage 3

  /** Stage 3's first sector: (512 + 33280) / 512. */
  const STAGE3_LBA: u64 := 66

  /** The packet `read_disk` builds for stage 3: 512 sectors from LBA 66 to
      1000:0000. */
  const STAGE3_PACKET: Disk.Dap := Disk.Dap(0x10, 0, 512, 0, 0x1000, STAGE3_LBA, STAGE_DISK)

  lemma Stage3Packet()
    ensures Disk.SizeToLba(STAGE1_SIZE + STAGE2_SIZE) == STAGE3_LBA
    ensures Disk.ReadDiskPacket((STAGE_DISK, STAGE3_LBA), STAGE3_START, STAGE3_SIZE) == STAGE3_PACKET
  {
    PacketIs((STAGE_DISK, STAGE3_LBA), STAGE3_START, STAGE3_SIZE, STAGE3_PACKET);
  }

  lemma PacketIs(addr: (u8, u64), dest: u32, len: u32, d: Disk.Dap)
    requires d == Disk.Dap(0x10, 0, len / 512 % 0x1_0000, dest % 0x1_0000, dest / 0x1_0000 % 16 * 0x1000, addr.1, addr.0)
    ensures Disk.ReadDiskPacket(addr, dest, len) == d
  {
    Disk.ReadDiskFields(addr, dest, len);
  }

  /** Stage 3 arrives in four full calls: call k reads 128 sectors from LBA
      66 + 128k into segment 0x1000 * (k + 1), offset 0, which is
      STAGE3_START + 64 KiB * k. */
  lemma Stage3Calls()
    ensures var ps := Disk.Chunked(STAGE3_PACKET);
      && |ps| == 4
      && (forall k | 0 <= k < 4 ::
            && ps[k].sectorNum == 128 && ps[k].startLba == 66 + 128 * k
            && ps[k].segment == 0x1000 * (k + 1) && ps[k].offset == 0 && ps[k].diskId == STAGE_DISK
            && Disk.RealAddress(ps[k].segment, ps[k].offset) == STAGE3_START + 0x1_0000 * k)
      && ps[0].startLba == 66 && ps[1].startLba == 194 && ps[2].startLba == 322 && ps[3].startLba == 450
  {
    var d := STAGE3_PACKET;
    Disk.ChunkedCount(d);
    Disk.CallsValue(d.sectorNum);
    Disk.ChunkedSizes(d);
    Disk.ChunkedLbas(d);
    Disk.ChunkedSegments(d);
    Disk.ChunkedKeeps(d);
    var ps := Disk.Chunked(d);
    forall k | 0 <= k < 4
      ensures ps[k].startLba == 66 + 128 * k && ps[k].segment == 0x1000 * (k + 1)
    {
      ModSmall(66 + 128 * k, 0x1_0000_0000_0000_0000);
      ModSmall(0x1000 + 0x1000 * k, 0x1_0000);
    }
  }

  /** `load_stage3`: open the first hard disk with `NoFSReal::new` (a reset)
      and read STAGE3_SIZE bytes from LBA 66 to STAGE3_START. Errors are
      handed on as they are. */
  method LoadStage3(resetAx: u16, bios: Disk.Dap -> u16)
    returns (calls: seq<Disk.Dap>, r: Result<(), FsError<Disk.DapError>>)
    ensures Disk.Ah(resetAx) != 0 ==> calls == [] && r == Err(DiskError(Disk.DiskError))
    ensures Disk.Ah(resetAx) == 0 ==>
      1 <= |calls| <= 4 && calls == Disk.Chunked(STAGE3_PACKET)[..|calls|]
    ensures r.Ok? <==>
      (Disk.Ah(resetAx) == 0 && |calls| == 4 && forall k | 0 <= k < 4 :: Disk.Ah(bios(calls[k])) == 0)
    ensures r.Err? ==> r.error == DiskError(Disk.DiskError)
  {
    var fs := RealNew(STAGE_DISK, resetAx);
    if fs.Err? {
      return [], Err(fs.error);
    }
    var startLba := Disk.SizeToLba(STAGE1_SIZE + STAGE2_SIZE);
    Stage3Packet();
    Stage3Calls();
    var res;
    calls, res := RealRead(fs.value, startLba, STAGE3_START, STAGE3_SIZE, bios);
    r := if res.Ok? then Ok(()) else Err(res.error);
  }

  // ---------------------------------------------------------------------
  // Stage 3 loads the kernel

  /** The kernel's first sector: (512 + 33280 + 262144) / 512. */
  const KERNEL_LBA: u64 := 578

  lemma KernelLba()
    ensures Disk.SizeToLba(STAGE1_SIZE + STAGE2_SIZE + STAGE3_SIZE) == KERNEL_LBA
    ensures KERNEL_SIZE / Disk.SECTOR_SIZE == 2048 && KERNEL_SIZE % Disk.SECTOR_SIZE == 0
  {
  }

  /** `load_kernel(fs)`: read KERNEL_SIZE bytes from LBA 578 to
      KERNEL_START over ATA and turn an error into its message. Gives the
      transfer asked of the drive, if any, and the result. */
  function LoadKernel(fs: NoFsProtected, ata: (u64, u64) -> Result<(), Ata.AtaError>)
    : (r: (Option<(u64, u64)>, Result<(), string>))
    ensures r.0.Some? && r.0.value.0 == KERNEL_LBA
    ensures KERNEL_LBA <= fs.sectorNum ==>
      r.0.value.1 == if fs.sectorNum - KERNEL_LBA < 2048 then fs.sectorNum - KERNEL_LBA else 2048
    ensures r.1.Ok? <==> ata(KERNEL_LBA, r.0.value.1).Ok?
    ensures r.1.Err? ==> r.1.error == Ata.Message(ata(KERNEL_LBA, r.0.value.1).error)
  {
    KernelLba();
    var (request, res) := ProtectedRead(fs, Disk.SizeToLba(STAGE1_SIZE + STAGE2_SIZE + STAGE3_SIZE), KERNEL_SIZE, ata);
    (request, if res.Ok? then Ok(()) else Err(FsMessage(res.error)))
  }

  /** The whole kernel arrives when the disk holds all of its 2048
      sectors. */
  lemma KernelWhole(fs: NoFsProtected, ata: (u64, u64) -> Result<(), Ata.AtaError>)
    requires KERNEL_LBA + 2048 <= fs.sectorNum
    ensures LoadKernel(fs, ata).0 == Some((KERNEL_LBA, 2048))
  {
  }

  /** A disk shorter than stage 1 to 3 together still gets a request for
      sectors from LBA 578 on, all past its end. */
  lemma KernelPastEnd(fs: NoFsProtected, ata: (u64, u64) -> Result<(), Ata.AtaError>)
    requires fs.sectorNum < KERNEL_LBA
    ensures LoadKernel(fs, ata).0 == Some((KERNEL_LBA, 2048))
  {
    KernelLba();
    ReadPastEnd(fs, KERNEL_LBA, KERNEL_SIZE);
  }
}
