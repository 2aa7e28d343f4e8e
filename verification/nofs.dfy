/** The "no file system" drivers (i386/src/fs/nofs/real.rs and
    i386/src/fs/nofs/protected.rs): a file is identified by the LBA of its
    first sector and read straight off the disk. In real mode the disk is
    reached through the BIOS (module Disk), in protected mode through ATA
    PIO, whose identify and read transfers are parameters here. The error
    type is `FSError` of i386/src/fs.rs. */
module NoFs {
  import opened Bits
  import opened Results
  import Disk
  import Ata
  import opened U8x

  /** `FSError<E>` */
  datatype FsError<E> = UnknownError | NoEnoughSpace | FileNotFound | NotImplemented | DiskError(e: E)

  /** `alloc`, `extend`, `delete` and `write` of both drivers: nothing but
      reading is implemented. */
  function Alloc<E>(size: u32): Result<u64, FsError<E>> { Err(NotImplemented) }
  function Extend<E>(orig: u64, newSize: u32): Result<u64, FsError<E>> { Err(NotImplemented) }
  function Delete<E>(id: u64): Result<(), FsError<E>> { Err(NotImplemented) }
  function Write<E>(id: u64, src: seq<u8>): Result<u32, FsError<E>> { Err(NotImplemented) }

  // ---------------------------------------------------------------------
  // Real mode

  datatype NoFsReal = NoFsReal(drive: u8)

  /** `NoFSReal::new`: reset the drive; keep it only if the reset worked.
      `resetAx` is what the BIOS reset hands back in AX. */
  function RealNew(drive: u8, resetAx: u16): (r: Result<NoFsReal, FsError<Disk.DapError>>)
    ensures r.Ok? <==> resetAx < 0x100
    ensures r.Ok? ==> r.value.drive == drive
    ensures r.Err? ==> r.error == DiskError(Disk.DiskError)
  {
    match Disk.ResetDisk(resetAx)
    case Err(e) => Err(DiskError(e))
    case Ok(_) => Ok(NoFsReal(drive))
  }

  /** `NoFSReal::read(id, dest)` for a buffer of `len` bytes at `dest`:
      one `read_disk` of the whole buffer from sector `id`; on success the
      buffer's length. */
  method RealRead(fs: NoFsReal, id: u64, dest: u32, len: u32, bios: Disk.Dap -> u16)
    returns (calls: seq<Disk.Dap>, r: Result<u32, FsError<Disk.DapError>>)
    ensures var plan := Disk.Chunked(Disk.ReadDiskPacket((fs.drive, id), dest, len));
      && 1 <= |calls| <= |plan| && calls == plan[..|calls|]
      && (r.Ok? <==> calls == plan && forall k | 0 <= k < |calls| :: Disk.Ah(bios(calls[k])) == 0)
    ensures calls[0].startLba == id && calls[0].diskId == fs.drive
    ensures r.Ok? ==> r.value == len
    ensures r.Err? ==> r.error == DiskError(Disk.DiskError)
  {
    var res;
    calls, res := Disk.ReadDisk((fs.drive, id), dest, len, bios);
    Disk.ChunkedKeeps(Disk.ReadDiskPacket((fs.drive, id), dest, len));
    if res.Ok? {
      r := Ok(len);
    } else {
      r := Err(DiskError(Disk.DiskError));
    }
  }

  // ---------------------------------------------------------------------
  // Protected mode

  datatype NoFsProtected = NoFsProtected(drive: Ata.AtaDriver, sectorNum: u64)

  /** The drive's sector count as `new` assembles it from IDENTIFY DEVICE
      bytes 200 to 205 (words 100 to 102, the 48-bit "total number of
      user addressable logical sectors" of the ATA/ATAPI Command Set):
      `res[200] | res[201] << 8 | ... | res[205] << 40`, the 48-bit
      little-endian number in those bytes. */
  function Capacity(res: seq<u8>): (c: u64)
    requires |res| >= 206
    ensures c == LeValue(res[200..206]) < 0x1_0000_0000_0000
  {
    Pow2Values();
    var x1 := Or(res[200], Shl(res[201], 8));
    OrByte(res[200], res[201], 8);
    var x2 := Or(x1, Shl(res[202], 16));
    OrByte(x1, res[202], 16);
    var x3 := Or(x2, Shl(res[203], 24));
    OrByte(x2, res[203], 24);
    var x4 := Or(x3, Shl(res[204], 32));
    OrByte(x3, res[204], 32);
    OrByte(x4, res[205], 40);
    LeSix(res[200..206]);
    Or(x4, Shl(res[205], 40))
  }

  /** Or-ing a byte shifted up past everything in `x` adds it. */
  lemma OrByte(x: nat, b: u8, k: nat)
    requires k + 8 <= 64 && x < Pow2(k)
    ensures Or(x, Shl(b, k)) == x + b * Pow2(k) < Pow2(k + 8)
  {
    ByteShiftBound(b, k);
    ShlExact(b, k);
    forall i: nat
      ensures Bit(Or(x, Shl(b, k)), i) == Bit(Dbl(b, k) + x, i)
    {
      BitOr(x, Shl(b, k), i);
      BitShl(b, k, i);
      BitConcat(b, x, k, i);
      if i >= k {
        BitsAbove(x, k, i);
        if i >= 64 {
          Pow2Widths();
          BitsAbove(b, 8, i - k);
        }
      }
    }
    BitsEqual(Or(x, Shl(b, k)), Dbl(b, k) + x);
    DblIsMul(b, k);
    Pow2Add(k, 8);
    Pow2Widths();
    assert x + b * Pow2(k) < Pow2(k) + 255 * Pow2(k);
  }

  /** A byte moved up by k stays below 2^(k+8), so within 64 bits. */
  lemma ByteShiftBound(b: u8, k: nat)
    requires k + 8 <= 64
    ensures b * Pow2(k) <= 255 * Pow2(k) < Pow2(k + 8) <= Pow2(64)
  {
    var p := Pow2(k);
    MulMono(b, 255, p);
    Pow2Add(k, 8);
    Pow2Widths();
    assert Pow2(k + 8) == p * 256;
    if k + 8 < 64 {
      Pow2Below(k + 8, 64);
    }
  }

  lemma MulMono(a: nat, b: nat, p: nat)
    requires a <= b
    ensures a * p <= b * p
  {
    assert b * p == a * p + (b - a) * p;
  }

  /** A byte shifted by at most 56 loses nothing. */
  lemma ShlExact(b: u8, k: nat)
    requires k + 8 <= 64
    ensures Shl(b, k) == Dbl(b, k)
  {
    DblIsMul(b, k);
    ByteShiftBound(b, k);
    LowId(Dbl(b, k), 64);
  }

  lemma LeSix(b: seq<u8>)
    requires |b| == 6
    ensures LeValue(b) == b[0] as nat + b[1] as nat * 0x100 + b[2] as nat * 0x1_0000
      + b[3] as nat * 0x100_0000 + b[4] as nat * 0x1_0000_0000 + b[5] as nat * 0x100_0000_0000
  {
    assert LeValue(b[5..]) == b[5] + 256 * LeValue(b[6..]);
    assert LeValue(b[4..]) == b[4] + 256 * LeValue(b[5..]);
    assert LeValue(b[3..]) == b[3] + 256 * LeValue(b[4..]);
    assert LeValue(b[2..]) == b[2] + 256 * LeValue(b[3..]);
    assert LeValue(b[1..]) == b[1] + 256 * LeValue(b[2..]);
  }

  /** `NoFSProtected::new(drive)`: identify the drive and keep its sector
      count; an identify error is handed on and nothing is built. The
      identify data is 256 words. */
  function ProtectedNew(drive: Ata.AtaDriver, identify: Result<seq<u8>, Ata.AtaError>)
    : (r: Result<NoFsProtected, FsError<Ata.AtaError>>)
    requires identify.Ok? ==> |identify.value| == 512
    ensures identify.Err? ==> r == Err(DiskError(identify.error))
    ensures identify.Ok? ==>
      (r.Ok? && r.value.drive == drive && r.value.sectorNum == LeValue(identify.value[200..206]))
  {
    match identify
    case Err(e) => Err(DiskError(e))
    case Ok(res) =>
      Ok(NoFsProtected(drive, Capacity(res)))
  }

  /** The number of sectors `read` asks the drive for: the buffer's
      sectors, cut to the sectors left after `lba`. The distance
      `sector_num - lba` is a u64 subtraction, wrapping when `lba` is past
      the end. An unaligned buffer is refused. */
  function ReadCount(fs: NoFsProtected, lba: u64, len: u32): (r: Result<u64, FsError<Ata.AtaError>>)
    ensures r.Err? <==> len % Disk.SECTOR_SIZE != 0
    ensures r.Err? ==> r.error == DiskError(Ata.BufferNotAligned)
    ensures r.Ok? && lba <= fs.sectorNum ==>
      r.value == if len / Disk.SECTOR_SIZE <= fs.sectorNum - lba then len / Disk.SECTOR_SIZE else fs.sectorNum - lba
  {
    if !Disk.IsSectorAligned(len) then Err(DiskError(Ata.BufferNotAligned))
    else
      var sectors := Disk.SizeToLba(len);
      var remained := (fs.sectorNum as int - lba as int) % 0x1_0000_0000_0000_0000;
      Ok(if sectors > remained then remained else sectors)
  }

  /** `NoFSProtected::read(lba, dest)` for a buffer of `len` bytes, against
      a drive whose `pio_read_sectors(lba, count)` answers `ata(lba,
      count)`. Gives the transfer it asks for, if any, and the result: the
      bytes read, `lba_to_size(count)` converted to usize. */
  function ProtectedRead(fs: NoFsProtected, lba: u64, len: u32, ata: (u64, u64) -> Result<(), Ata.AtaError>)
    : (r: (Option<(u64, u64)>, Result<u32, FsError<Ata.AtaError>>))
    ensures r.0.None? <==> len % Disk.SECTOR_SIZE != 0
    ensures r.0.None? ==> r.1 == Err(DiskError(Ata.BufferNotAligned))
    ensures r.0.Some? ==> r.0.value == (lba, ReadCount(fs, lba, len).value)
    ensures r.0.Some? && ata(lba, r.0.value.1).Err? ==> r.1 == Err(DiskError(ata(lba, r.0.value.1).error))
    ensures r.0.Some? && ata(lba, r.0.value.1).Ok? ==>
      r.1.Ok? && r.1.value == r.0.value.1 * Disk.SECTOR_SIZE <= len
  {
    match ReadCount(fs, lba, len)
    case Err(e) => (None, Err(e))
    case Ok(n) =>
      match ata(lba, n)
      case Err(e) => (Some((lba, n)), Err(DiskError(e)))
      case Ok(_) =>
        var size := Disk.LbaToSize(n);
        ReadCountBound(fs, lba, len);
        (Some((lba, n)), if size < 0x1_0000_0000 then Ok(size) else Err(UnknownError))
  }

  /** The count never exceeds the buffer, so the conversion back to usize
      cannot fail. */
  lemma ReadCountBound(fs: NoFsProtected, lba: u64, len: u32)
    requires ReadCount(fs, lba, len).Ok?
    ensures ReadCount(fs, lba, len).value * Disk.SECTOR_SIZE <= len
    ensures Disk.LbaToSize(ReadCount(fs, lba, len).value) == ReadCount(fs, lba, len).value * Disk.SECTOR_SIZE
  {
  }

  /** What a protected read returns: the buffer's length while the disk has
      that many sectors left after `lba`, otherwise the bytes up to the end
      of the disk. */
  lemma ProtectedReadSize(fs: NoFsProtected, lba: u64, len: u32, ata: (u64, u64) -> Result<(), Ata.AtaError>)
    requires len % Disk.SECTOR_SIZE == 0 && lba <= fs.sectorNum
    requires ata(lba, ReadCount(fs, lba, len).value).Ok?
    ensures var rem := (fs.sectorNum - lba) * Disk.SECTOR_SIZE;
      ProtectedRead(fs, lba, len, ata).1 == Ok(if len <= rem then len else rem)
  {
  }

  // ---------------------------------------------------------------------
  // Reading from past the end of the disk

  /** As written, an `lba` past the last sector makes `sector_num - lba`
      wrap to a huge count, so the clamp lets through a read of at least
      one sector, every one of them past the end of the disk. */
  lemma ReadPastEnd(fs: NoFsProtected, lba: u64, len: u32)
    requires fs.sectorNum < lba && Disk.SECTOR_SIZE <= len && len % Disk.SECTOR_SIZE == 0
    ensures ReadCount(fs, lba, len).Ok? && ReadCount(fs, lba, len).value >= 1
    ensures lba < 0x1_0000_0000_0000_0000 - 0x80_0000 + fs.sectorNum ==>
      ReadCount(fs, lba, len).value == len / Disk.SECTOR_SIZE
  {
    var wrapped := fs.sectorNum as int - lba as int + 0x1_0000_0000_0000_0000;
    assert 1 <= wrapped < 0x1_0000_0000_0000_0000;
    DivModUnique(wrapped, 0x1_0000_0000_0000_0000, 0, wrapped);
    assert (fs.sectorNum as int - lba as int) % 0x1_0000_0000_0000_0000 == wrapped;
  }

  /** The count `read` evidently intends: an `lba` past the end is refused
      with the driver's own `LBATooLarge`. */
  function ReadCountFixed(fs: NoFsProtected, lba: u64, len: u32): (r: Result<u64, FsError<Ata.AtaError>>)
    ensures r.Err? <==> len % Disk.SECTOR_SIZE != 0 || lba > fs.sectorNum
    ensures r.Ok? ==> lba + r.value <= fs.sectorNum && r.value * Disk.SECTOR_SIZE <= len
    ensures r.Ok? ==> r.value == len / Disk.SECTOR_SIZE || lba + r.value == fs.sectorNum
  {
    if !Disk.IsSectorAligned(len) then Err(DiskError(Ata.BufferNotAligned))
    else if lba > fs.sectorNum then Err(DiskError(Ata.LbaTooLarge))
    else
      var sectors := Disk.SizeToLba(len);
      var remained := fs.sectorNum - lba;
      Ok(if sectors > remained then remained else sectors)
  }

  /** Where the code does not wrap, it asks for the corrected count. */
  lemma ReadCountAgrees(fs: NoFsProtected, lba: u64, len: u32)
    requires lba <= fs.sectorNum
    ensures ReadCount(fs, lba, len) == ReadCountFixed(fs, lba, len)
  {
  }

  // ---------------------------------------------------------------------
  // Error messages

  /** `Into<String> for FSError<T>`: a disk error's own message, otherwise
      "FS Error". */
  function FsMessage(e: FsError<Ata.AtaError>): (m: string)
    ensures e.DiskError? ==> m == Ata.Message(e.e)
    ensures !e.DiskError? ==> m == "FS Error"
  {
    match e
    case DiskError(x) => Ata.Message(x)
    case _ => "FS Error"
  }

  /** A disk error's message can be told apart from every other error's. */
  lemma FsMessagesDistinct(e1: FsError<Ata.AtaError>, e2: FsError<Ata.AtaError>)
    requires e1.DiskError? && FsMessage(e1) == FsMessage(e2)
    ensures e1 == e2
  {
    if e2.DiskError? {
      Ata.MessagesDistinct(e1.e, e2.e);
    }
  }
}
