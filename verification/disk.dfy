/** BIOS disk access in real mode (i386/src/bios/disk.rs) and the sector
    helpers it shares with i386/src/utils/disk.rs. A read is described to
    the BIOS by a 16-byte Disk Address Packet and carried out by INT 13h
    function 42h, "Extended Read Sectors From Drive", of the BIOS Enhanced
    Disk Drive services; the packet is split into calls of at most 128
    sectors (64 KiB). The BIOS is a parameter: a function from the packet
    of a call to the AX register it hands back. `usize` is 32 bits wide on
    this target. */
module Disk {
  import opened Bits
  import opened Results

  const SECTOR_SIZE: nat := 512
  const SECTOR_ALIGN: nat := 9
  const MAX_READ_BYTES: nat := 0x1_0000

  /** The most sectors one call may carry: 64 KiB of them. */
  const MAX_READ_SECTORS: u16 := 128

  /** `MAX_READ_SECTORS = (MAX_READ_BYTES >> SECTOR_ALIGN) as u16`. */
  lemma MaxReadSectors()
    ensures Low(Shr(MAX_READ_BYTES, SECTOR_ALIGN), 16) == MAX_READ_SECTORS
    ensures MAX_READ_SECTORS * SECTOR_SIZE == MAX_READ_BYTES
  {
    Pow2Widths();
    Pow2Values();
    var h := Shr(MAX_READ_BYTES, SECTOR_ALIGN);
    HalfIsDiv(MAX_READ_BYTES, SECTOR_ALIGN);
    assert h == 128;
    LowIsMod(h, 16);
    ModSmall(h, Pow2(16));
  }

  // ---------------------------------------------------------------------
  // Sector helpers

  /** `size_to_lba`: `src >> 9`, the whole sectors in `src` bytes. */
  function SizeToLba(src: u32): (lba: u64)
    ensures lba == src / SECTOR_SIZE
  {
    HalfIsDiv(src, SECTOR_ALIGN);
    Pow2Values();
    Shr(src, SECTOR_ALIGN)
  }

  /** `lba_to_size`: `lba << 9` on u64, so the bytes of `lba` sectors,
      wrapping at 2^64. */
  function LbaToSize(lba: u64): (size: u64)
    ensures size == lba * SECTOR_SIZE % 0x1_0000_0000_0000_0000
    ensures lba < 0x80_0000_0000_0000 ==> size == lba * SECTOR_SIZE
  {
    ShlValue(lba, SECTOR_ALIGN);
    Pow2Values();
    Pow2Widths();
    SmallSize(lba);
    Shl(lba, SECTOR_ALIGN)
  }

  lemma SmallSize(lba: u64)
    ensures lba < 0x80_0000_0000_0000 ==> lba * SECTOR_SIZE % 0x1_0000_0000_0000_0000 == lba * SECTOR_SIZE
  {
    if lba < 0x80_0000_0000_0000 {
      assert lba * 512 < 0x1_0000_0000_0000_0000;
      ModSmall(lba * 512, 0x1_0000_0000_0000_0000);
    }
  }

  /** `is_sector_aligned`: `src & 511 == 0`. */
  function IsSectorAligned(src: u32): (b: bool)
    ensures b <==> src % SECTOR_SIZE == 0
  {
    AndLowMask(src, SECTOR_ALIGN);
    Pow2Values();
    And(src, SECTOR_SIZE - 1) == 0
  }

  lemma ShlValue(x: u64, s: nat)
    requires s < 64
    ensures Shl(x, s) == x * Pow2(s) % Pow2(64)
  {
    LowIsMod(Dbl(x, s), 64);
    DblIsMul(x, s);
    assert Shl(x, s) == Low(Dbl(x, s), 64);
  }

  /** Masking with 2^k - 1 keeps the value modulo 2^k. */
  lemma AndLowMask(x: nat, k: nat)
    requires k < 64
    ensures And(x, Pow2(k) - 1) == x % Pow2(k)
  {
    forall i: nat
      ensures Bit(And(x, Pow2(k) - 1), i) == Bit(Low(x, k), i)
    {
      BitAnd(x, Pow2(k) - 1, i);
      BitLowOnes(k, i);
      BitLow(x, k, i);
    }
    BitsEqual(And(x, Pow2(k) - 1), Low(x, k));
    LowIsMod(x, k);
  }

  /** Converting a size to sectors and back is exact precisely for sizes
      that are whole sectors. */
  lemma SizeRoundTrip(n: u32)
    ensures LbaToSize(SizeToLba(n)) == n <==> IsSectorAligned(n)
  {
    var l := SizeToLba(n);
    assert l * SECTOR_SIZE <= n;
    ModSmall(l * SECTOR_SIZE, 0x1_0000_0000_0000_0000);
  }

  /** Converting sectors to a size and back is exact while the size fits. */
  lemma LbaRoundTrip(lba: u64)
    requires lba * SECTOR_SIZE < 0x1_0000_0000
    ensures LbaToSize(lba) < 0x1_0000_0000 && SizeToLba(LbaToSize(lba)) == lba
  {
  }

  // ---------------------------------------------------------------------
  // Viewing a buffer as sectors

  /** `as_chunks::<512>`: the whole 512-byte chunks of `s` and what is left
      over after them. */
  function AsChunks(s: seq<u8>): (r: (seq<seq<u8>>, seq<u8>))
    ensures |r.0| == |s| / SECTOR_SIZE && |r.1| == |s| % SECTOR_SIZE
    ensures forall i | 0 <= i < |r.0| :: |r.0[i]| == SECTOR_SIZE
    decreases |s|
  {
    if |s| < SECTOR_SIZE then ([], s)
    else
      var rest := AsChunks(s[SECTOR_SIZE..]);
      ([s[..SECTOR_SIZE]] + rest.0, rest.1)
  }

  /** The bytes of a sequence of chunks, one after the other. */
  function Flatten(cs: seq<seq<u8>>): seq<u8>
  {
    if |cs| == 0 then [] else cs[0] + Flatten(cs[1..])
  }

  /** The chunks followed by the remainder give back the buffer. */
  lemma {:induction false} AsChunksCover(s: seq<u8>)
    ensures Flatten(AsChunks(s).0) + AsChunks(s).1 == s
    decreases |s|
  {
    if |s| >= SECTOR_SIZE {
      AsChunksCover(s[SECTOR_SIZE..]);
      var rest := AsChunks(s[SECTOR_SIZE..]);
      assert AsChunks(s).0 == [s[..SECTOR_SIZE]] + rest.0;
      assert Flatten(AsChunks(s).0) == s[..SECTOR_SIZE] + Flatten(rest.0);
      assert s == s[..SECTOR_SIZE] + s[SECTOR_SIZE..];
    }
  }

  /** `slice_as_sectors`: nothing when the length is not a whole number of
      sectors, otherwise the buffer cut into its sectors. */
  function SliceAsSectors(src: seq<u8>): (r: Option<seq<seq<u8>>>)
    requires |src| < 0x1_0000_0000
    ensures r.None? <==> |src| % SECTOR_SIZE != 0
    ensures r.Some? ==> |r.value| == |src| / SECTOR_SIZE && Flatten(r.value) == src
    ensures r.Some? ==> forall i | 0 <= i < |r.value| :: |r.value[i]| == SECTOR_SIZE
  {
    AsChunksCover(src);
    if !IsSectorAligned(|src|) then None else Some(AsChunks(src).0)
  }

  // ---------------------------------------------------------------------
  // The Disk Address Packet

  datatype DapError = DiskError

  /** The packet, field by field. `buffer_ptr` is the pair (offset,
      segment): in memory the offset comes first. */
  datatype Dap = Dap(selfSize: u8, reserved: u8, sectorNum: u16, offset: u16, segment: u16,
                     startLba: u64, diskId: u8)

  /** `DAP::new((disk_id, start_lba), buffer, len)`: the sector count is
      `(len >> 9) as u16`. */
  function NewDap(disk: (u8, u64), buffer: (u16, u16), len: u32): (d: Dap)
    ensures d.selfSize == 0x10 && d.reserved == 0
    ensures d.sectorNum == len / SECTOR_SIZE % 0x1_0000
    ensures d.offset == buffer.0 && d.segment == buffer.1
    ensures d.startLba == disk.1 && d.diskId == disk.0
  {
    Pow2Widths();
    LowIsMod(SizeToLba(len), 16);
    Dap(0x10, 0, Low(SizeToLba(len), 16), buffer.0, buffer.1, disk.1, disk.0)
  }

  /** The linear address a real-mode `segment:offset` names. */
  function RealAddress(segment: u16, offset: u16): nat
  {
    segment * 16 + offset
  }

  /** The buffer pair `read_disk` builds from the buffer address `dest`:
      `(dest as u16, ((dest >> 16) as u16) << 12)`, the shift being on u16. */
  function BufferPtr(dest: u32): (p: (u16, u16))
    ensures p.0 == dest % 0x1_0000 && p.1 == dest / 0x1_0000 % 16 * 0x1000
  {
    Pow2Widths();
    HalfIsDiv(dest, 16);
    LowIsMod(dest, 16);
    var block := Low(Shr(dest, 16), 16);
    LowIsMod(Shr(dest, 16), 16);
    SegmentOfBlock(block);
    ModMod(dest / 0x1_0000);
    (Low(dest, 16), Low(Shl(block, 12), 16))
  }

  lemma ModMod(x: nat)
    ensures x % 0x1_0000 % 16 == x % 16
  {
    var q := x / 0x1_0000;
    var r := x % 0x1_0000;
    assert x == 16 * (0x1000 * q + r / 16) + r % 16;
    DivModUnique(x, 16, 0x1000 * q + r / 16, r % 16);
  }

  /** `(block as u16) << 12` on u16 keeps the low four bits of the block. */
  lemma SegmentOfBlock(block: u16)
    ensures Low(Shl(block, 12), 16) == block % 16 * 0x1000
  {
    Pow2Values();
    Pow2Widths();
    ShlValue(block, 12);
    var x := block * 0x1000;
    ModSmall(x, Pow2(64));
    LowIsMod(Shl(block, 12), 16);
    DivModUnique(x, 0x1_0000, block / 16, block % 16 * 0x1000);
  }

  /** Cutting at 1 MiB: the 64 KiB block number modulo 16 and the offset in
      the block. */
  lemma SplitMiB(dest: nat)
    ensures dest % 0x10_0000 == dest / 0x1_0000 % 16 * 0x1_0000 + dest % 0x1_0000
  {
    var q := dest / 0x1_0000;
    var r := dest % 0x1_0000;
    assert dest == (q / 16) * 0x10_0000 + (q % 16 * 0x1_0000 + r);
    DivModUnique(dest, 0x10_0000, q / 16, q % 16 * 0x1_0000 + r);
  }

  /** The pair names the buffer's address reduced modulo 1 MiB, so the
      buffer itself whenever it starts below 1 MiB. */
  lemma BufferPtrAddress(dest: u32)
    ensures RealAddress(BufferPtr(dest).1, BufferPtr(dest).0) == dest % 0x10_0000
    ensures dest < 0x10_0000 ==> RealAddress(BufferPtr(dest).1, BufferPtr(dest).0) == dest
  {
    SplitMiB(dest);
    if dest < 0x10_0000 {
      ModSmall(dest, 0x10_0000);
    }
  }

  /** `read_disk`'s packet for the buffer at `dest` of `len` bytes: from
      the given disk and LBA into the real-mode address that is `dest`
      modulo 1 MiB (the sector count is `NewDap`'s). */
  function ReadDiskPacket(addr: (u8, u64), dest: u32, len: u32): (d: Dap)
    ensures d.selfSize == 0x10 && d.reserved == 0 && d.diskId == addr.0 && d.startLba == addr.1
    ensures RealAddress(d.segment, d.offset) == dest % 0x10_0000
  {
    BufferPtrAddress(dest);
    NewDap(addr, BufferPtr(dest), len)
  }

  /** The packet field by field. */
  lemma ReadDiskFields(addr: (u8, u64), dest: u32, len: u32)
    ensures ReadDiskPacket(addr, dest, len)
      == Dap(0x10, 0, len / SECTOR_SIZE % 0x1_0000, dest % 0x1_0000, dest / 0x1_0000 % 16 * 0x1000, addr.1, addr.0)
  {
  }

  // ---------------------------------------------------------------------
  // Status words

  /** The AH byte of the AX register the BIOS hands back: `res >> 8`. */
  function Ah(ax: u16): (ah: u8)
    ensures ah == ax / 0x100
  {
    Pow2Values();
    HalfIsDiv(ax, 8);
    Shr(ax, 8)
  }

  /** `extended_read_sectors` and `reset_disk` both succeed exactly when
      AH comes back 0. */
  function Status(ax: u16): (r: Result<(), DapError>)
    ensures r.Ok? <==> ax < 0x100
  {
    if Ah(ax) == 0 then Ok(()) else Err(DiskError)
  }

  /** `reset_disk(disk_id)` against a BIOS whose INT 13h function 00h hands
      back `ax`. */
  function ResetDisk(ax: u16): (r: Result<(), DapError>)
    ensures r.Ok? <==> Ah(ax) == 0
  {
    Status(ax)
  }

  // ---------------------------------------------------------------------
  // Chunked reads

  /** The packet for the next call after a full one: the segment moves on
      64 KiB (`+= 0x1000`, wrapping on u16), the LBA on 128 sectors. */
  function Advance(d: Dap): (n: Dap)
    requires d.sectorNum > MAX_READ_SECTORS
    ensures n.sectorNum == d.sectorNum - MAX_READ_SECTORS
    ensures n.segment == (d.segment + 0x1000) % 0x1_0000
    ensures n.startLba == (d.startLba + MAX_READ_SECTORS) % 0x1_0000_0000_0000_0000
    ensures n.offset == d.offset && n.diskId == d.diskId && n.selfSize == d.selfSize
  {
    d.(segment := (d.segment + 0x1000) % 0x1_0000,
       startLba := (d.startLba + MAX_READ_SECTORS) % 0x1_0000_0000_0000_0000,
       sectorNum := d.sectorNum - MAX_READ_SECTORS)
  }

  /** The packets `DAP::read` passes to the BIOS when every call succeeds:
      full 128-sector packets while more than 128 remain, then the rest. */
  function Chunked(d: Dap): (ps: seq<Dap>)
    ensures 1 <= |ps| && ps[0].startLba == d.startLba
    decreases d.sectorNum
  {
    if d.sectorNum > MAX_READ_SECTORS then [d.(sectorNum := MAX_READ_SECTORS)] + Chunked(Advance(d))
    else [d]
  }

  /** The sectors the packets ask for, added up. */
  function TotalSectors(ps: seq<Dap>): nat
  {
    if |ps| == 0 then 0 else ps[0].sectorNum + TotalSectors(ps[1..])
  }

  /** ⌈n / 128⌉, at least 1: the number of calls for n sectors. */
  function Calls(n: nat): nat
  {
    if n <= MAX_READ_SECTORS then 1 else 1 + Calls(n - MAX_READ_SECTORS)
  }

  lemma {:induction false} CallsValue(n: nat)
    ensures Calls(n) == if n == 0 then 1 else (n + MAX_READ_SECTORS - 1) / MAX_READ_SECTORS
    decreases n
  {
    if n > MAX_READ_SECTORS {
      CallsValue(n - MAX_READ_SECTORS);
    }
  }

  lemma ChunkedStep(d: Dap)
    requires d.sectorNum > MAX_READ_SECTORS
    ensures Chunked(d) == [d.(sectorNum := MAX_READ_SECTORS)] + Chunked(Advance(d))
    ensures Chunked(d)[1..] == Chunked(Advance(d))
  {
  }

  /** A chunked read of n sectors makes ⌈n/128⌉ calls, one for an empty
      read. */
  lemma {:induction false} ChunkedCount(d: Dap)
    ensures |Chunked(d)| == Calls(d.sectorNum)
    decreases d.sectorNum
  {
    if d.sectorNum > MAX_READ_SECTORS {
      ChunkedStep(d);
      ChunkedCount(Advance(d));
    }
  }

  /** The sector counts of the calls add up to the packet's. */
  lemma {:induction false} ChunkedTotal(d: Dap)
    ensures TotalSectors(Chunked(d)) == d.sectorNum
    decreases d.sectorNum
  {
    if d.sectorNum > MAX_READ_SECTORS {
      ChunkedStep(d);
      ChunkedTotal(Advance(d));
    }
  }

  /** Every call but the last carries 128 sectors, and the last at most
      128. */
  lemma {:induction false} ChunkedSizes(d: Dap)
    ensures var ps := Chunked(d);
      && ps[|ps| - 1].sectorNum <= MAX_READ_SECTORS
      && forall k | 0 <= k < |ps| - 1 :: ps[k].sectorNum == MAX_READ_SECTORS
    decreases d.sectorNum
  {
    if d.sectorNum > MAX_READ_SECTORS {
      ChunkedStep(d);
      ChunkedSizes(Advance(d));
    }
  }

  /** Call k starts at LBA + 128k, wrapping at 2^64. */
  lemma {:induction false} ChunkedLbas(d: Dap)
    ensures var ps := Chunked(d);
      forall k | 0 <= k < |ps| :: ps[k].startLba == (d.startLba + k * MAX_READ_SECTORS) % 0x1_0000_0000_0000_0000
    decreases d.sectorNum
  {
    if d.sectorNum > MAX_READ_SECTORS {
      var n := Advance(d);
      ChunkedStep(d);
      ChunkedLbas(n);
      var ps := Chunked(d);
      forall k | 1 <= k < |ps|
        ensures ps[k].startLba == (d.startLba + k * MAX_READ_SECTORS) % 0x1_0000_0000_0000_0000
      {
        assert ps[k] == Chunked(n)[k - 1];
        NextPlace(d.startLba, MAX_READ_SECTORS, k, 0x1_0000_0000_0000_0000);
      }
    }
  }

  /** Call k goes to segment + 0x1000k, wrapping at 2^16. */
  lemma {:induction false} ChunkedSegments(d: Dap)
    ensures var ps := Chunked(d);
      forall k | 0 <= k < |ps| :: ps[k].segment == (d.segment + k * 0x1000) % 0x1_0000
    decreases d.sectorNum
  {
    ModSmall(d.segment, 0x1_0000);
    if d.sectorNum > MAX_READ_SECTORS {
      var n := Advance(d);
      ChunkedStep(d);
      ChunkedSegments(n);
      var ps := Chunked(d);
      forall k | 1 <= k < |ps|
        ensures ps[k].segment == (d.segment + k * 0x1000) % 0x1_0000
      {
        assert ps[k] == Chunked(n)[k - 1];
        NextPlace(d.segment, 0x1000, k, 0x1_0000);
      }
    }
  }

  /** Offset, drive, packet size and the reserved byte stay as they are. */
  lemma {:induction false} ChunkedKeeps(d: Dap)
    ensures var ps := Chunked(d);
      forall k | 0 <= k < |ps| ::
        && ps[k].offset == d.offset && ps[k].diskId == d.diskId
        && ps[k].selfSize == d.selfSize && ps[k].reserved == d.reserved
    decreases d.sectorNum
  {
    if d.sectorNum > MAX_READ_SECTORS {
      ChunkedStep(d);
      ChunkedKeeps(Advance(d));
    }
  }

  /** One step of `k` strides, taken after one stride that wrapped. */
  lemma NextPlace(x: nat, stride: nat, k: nat, m: nat)
    requires 0 < m && 1 <= k
    ensures ((x + stride) % m + (k - 1) * stride) % m == (x + k * stride) % m
  {
    WrapAdd(x, stride, (k - 1) * stride, m);
    assert stride + (k - 1) * stride == k * stride;
  }

  /** Adding in two steps, wrapping after each, is adding once. */
  lemma WrapAdd(x: nat, a: nat, b: nat, m: nat)
    requires 0 < m
    ensures ((x + a) % m + b) % m == (x + a + b) % m
  {
    var q := (x + a) / m;
    assert x + a + b == q * m + ((x + a) % m + b);
    DivModAddMultiple((x + a) % m + b, q, m);
  }

  lemma DivModAddMultiple(y: nat, q: nat, m: nat)
    requires 0 < m
    ensures (q * m + y) % m == y % m
  {
    DivModUnique(q * m + y, m, q + y / m, y % m);
  }

  lemma AppendStep<T>(a: seq<T>, x: T, b: seq<T>, c: seq<T>)
    requires a + ([x] + b) == c
    ensures (a + [x]) + b == c
  {
    assert (a + [x]) + b == a + ([x] + b);
  }

  lemma PrefixOf<T>(a: seq<T>, b: seq<T>, c: seq<T>)
    requires a + b == c
    ensures |a| <= |c| && a == c[..|a|]
  {
    assert c[..|a|] == (a + b)[..|a|];
  }

  /** `DAP::read` as a loop: call the BIOS with a full packet while more
      than 128 sectors remain, then once with the rest, stopping at the
      first call whose AH is not 0. `calls` lists the packets handed to the
      BIOS, in order. */
  method Read(d: Dap, bios: Dap -> u16) returns (calls: seq<Dap>, r: Result<(), DapError>)
    ensures 1 <= |calls| <= |Chunked(d)| && calls == Chunked(d)[..|calls|]
    ensures forall k | 0 <= k < |calls| - 1 :: Ah(bios(calls[k])) == 0
    ensures r == Status(bios(calls[|calls| - 1]))
    ensures r.Ok? ==> calls == Chunked(d)
  {
    var cur := d;
    calls := [];
    while cur.sectorNum > MAX_READ_SECTORS
      invariant calls + Chunked(cur) == Chunked(d)
      invariant forall k | 0 <= k < |calls| :: Ah(bios(calls[k])) == 0
      decreases cur.sectorNum
    {
      var p := cur.(sectorNum := MAX_READ_SECTORS);
      ChunkedStep(cur);
      AppendStep(calls, p, Chunked(Advance(cur)), Chunked(d));
      var res := Status(bios(p));
      calls := calls + [p];
      if res.Err? {
        PrefixOf(calls, Chunked(Advance(cur)), Chunked(d));
        return calls, res;
      }
      cur := Advance(cur);
    }
    assert Chunked(cur) == [cur];
    calls := calls + [cur];
    r := Status(bios(cur));
  }

  /** `read_disk(addr, buffer)` for a buffer of `len` bytes at `dest`. */
  method ReadDisk(addr: (u8, u64), dest: u32, len: u32, bios: Dap -> u16)
    returns (calls: seq<Dap>, r: Result<(), DapError>)
    ensures 1 <= |calls| <= |Chunked(ReadDiskPacket(addr, dest, len))|
    ensures calls == Chunked(ReadDiskPacket(addr, dest, len))[..|calls|]
    ensures r.Ok? <==> calls == Chunked(ReadDiskPacket(addr, dest, len)) && forall k | 0 <= k < |calls| :: Ah(bios(calls[k])) == 0
  {
    calls, r := Read(ReadDiskPacket(addr, dest, len), bios);
    if r.Err? && calls == Chunked(ReadDiskPacket(addr, dest, len)) {
      assert Ah(bios(calls[|calls| - 1])) != 0;
    }
  }

  // ---------------------------------------------------------------------
  // Wrap-arounds in the packet fields

  /** As written, a buffer of 32 MiB is 65536 sectors, which `as u16`
      turns into 0: the BIOS is called once, for no sectors at all, and the
      read reports success. */
  lemma SectorCountTruncates(addr: (u8, u64), dest: u32, len: u32)
    requires len / SECTOR_SIZE == 0x1_0000
    ensures var d := ReadDiskPacket(addr, dest, len);
      && d.sectorNum == 0 && Chunked(d) == [d] && TotalSectors(Chunked(d)) == 0
  {
    var d := ReadDiskPacket(addr, dest, len);
    assert d.sectorNum == 0;
    EmptyPacket(d);
  }

  /** A packet for no sectors is passed on as it is and asks for nothing. */
  lemma EmptyPacket(d: Dap)
    requires d.sectorNum == 0
    ensures Chunked(d) == [d] && TotalSectors(Chunked(d)) == 0
  {
    assert TotalSectors([d]) == d.sectorNum + TotalSectors([]);
  }

  lemma LastSegmentWraps(d: Dap)
    requires d.segment == 0xF000 && d.sectorNum > MAX_READ_SECTORS
    ensures Advance(d).segment == 0
  {
  }

  /** As written, a buffer of more than 64 KiB starting in the last 64 KiB
      below 1 MiB gets a second call at segment 0xF000 + 0x1000, which
      wraps to 0: its data lands at the start of memory instead of right
      after the first 64 KiB. */
  lemma SegmentWraps(addr: (u8, u64), dest: u32, len: u32)
    requires dest / 0x1_0000 == 0xF && MAX_READ_SECTORS < len / SECTOR_SIZE < 0x1_0000
    ensures var ps := Chunked(ReadDiskPacket(addr, dest, len));
      && 2 <= |ps|
      && RealAddress(ps[0].segment, ps[0].offset) == dest
      && RealAddress(ps[1].segment, ps[1].offset) == dest % 0x1_0000
      && dest % 0x1_0000 != dest + MAX_READ_BYTES
  {
    var d := ReadDiskPacket(addr, dest, len);
    BufferPtrAddress(dest);
    assert d.segment == 0xF000;
    ModSmall(len / SECTOR_SIZE, 0x1_0000);
    assert d.sectorNum > MAX_READ_SECTORS;
    var ps := Chunked(d);
    var second := Advance(d);
    assert ps[1] == Chunked(second)[0];
    LastSegmentWraps(d);
    assert second.offset == dest % 0x1_0000;
    assert ps[1].segment == 0 && ps[1].offset == dest % 0x1_0000;
  }

  // ---------------------------------------------------------------------
  // Reads that neither truncate nor wrap

  /** The packet for `n` sectors from `lba` into the buffer at `dest`. */
  function Packet(diskId: u8, lba: u64, dest: u32, n: u16): (d: Dap)
    ensures d.sectorNum == n && d.startLba == lba && d.diskId == diskId
    ensures dest < 0x10_0000 ==> RealAddress(d.segment, d.offset) == dest
  {
    BufferPtrAddress(dest);
    var p := BufferPtr(dest);
    Dap(0x10, 0, n, p.0, p.1, lba, diskId)
  }

  /** Room below 1 MiB for `n` sectors at `dest`, and LBAs for them. */
  predicate Reachable(lba: nat, dest: nat, n: nat)
  {
    dest < 0x10_0000 && dest + n * SECTOR_SIZE <= 0x10_0000 && lba + n < 0x1_0000_0000_0000_0000
  }

  /** The calls a read of `n` sectors should make: 128 sectors at a time,
      each call's buffer 64 KiB past the previous one's. */
  function FixedPlan(diskId: u8, lba: u64, dest: u32, n: nat): (ps: seq<Dap>)
    requires Reachable(lba, dest, n)
    ensures 1 <= |ps| == Calls(n)
    decreases n
  {
    if n > MAX_READ_SECTORS then
      [Packet(diskId, lba, dest, MAX_READ_SECTORS)]
        + FixedPlan(diskId, lba + MAX_READ_SECTORS, dest + MAX_READ_BYTES, n - MAX_READ_SECTORS)
    else [Packet(diskId, lba, dest, n)]
  }

  /** `read_disk` as its doc comments describe it: the packets for the
      whole buffer, or nothing when the buffer is out of real-mode reach. */
  function ReadDiskFixed(addr: (u8, u64), dest: u32, len: u32): (r: Option<seq<Dap>>)
    ensures r.None? <==> !Reachable(addr.1, dest, len / SECTOR_SIZE)
  {
    if Reachable(addr.1, dest, len / SECTOR_SIZE) then Some(FixedPlan(addr.0, addr.1, dest, len / SECTOR_SIZE))
    else None
  }

  /** The planned calls ask for every sector of the buffer. */
  lemma {:induction false} FixedPlanTotal(diskId: u8, lba: u64, dest: u32, n: nat)
    requires Reachable(lba, dest, n)
    ensures TotalSectors(FixedPlan(diskId, lba, dest, n)) == n
    decreases n
  {
    if n > MAX_READ_SECTORS {
      FixedPlanStep(diskId, lba, dest, n);
      FixedPlanTotal(diskId, lba + MAX_READ_SECTORS, dest + MAX_READ_BYTES, n - MAX_READ_SECTORS);
    }
  }

  lemma FixedPlanStep(diskId: u8, lba: u64, dest: u32, n: nat)
    requires Reachable(lba, dest, n) && n > MAX_READ_SECTORS
    ensures Reachable(lba + MAX_READ_SECTORS, dest + MAX_READ_BYTES, n - MAX_READ_SECTORS)
    ensures var ps := FixedPlan(diskId, lba, dest, n);
      && ps[0] == Packet(diskId, lba, dest, MAX_READ_SECTORS)
      && ps[1..] == FixedPlan(diskId, lba + MAX_READ_SECTORS, dest + MAX_READ_BYTES, n - MAX_READ_SECTORS)
  {
  }

  /** Call k reads from sector lba + 128k on: consecutive sectors. */
  lemma {:induction false} FixedPlanLbas(diskId: u8, lba: u64, dest: u32, n: nat)
    requires Reachable(lba, dest, n)
    ensures var ps := FixedPlan(diskId, lba, dest, n);
      forall k | 0 <= k < |ps| :: ps[k].startLba == lba + k * MAX_READ_SECTORS
    decreases n
  {
    if n > MAX_READ_SECTORS {
      FixedPlanStep(diskId, lba, dest, n);
      FixedPlanLbas(diskId, lba + MAX_READ_SECTORS, dest + MAX_READ_BYTES, n - MAX_READ_SECTORS);
      var ps := FixedPlan(diskId, lba, dest, n);
      forall k | 1 <= k < |ps|
        ensures ps[k].startLba == lba + k * MAX_READ_SECTORS
      {
        assert ps[k] == ps[1..][k - 1];
        assert MAX_READ_SECTORS + (k - 1) * MAX_READ_SECTORS == k * MAX_READ_SECTORS;
      }
    }
  }

  /** Call k fills the buffer from dest + 64k KiB on: consecutive memory. */
  lemma {:induction false} FixedPlanAddresses(diskId: u8, lba: u64, dest: u32, n: nat)
    requires Reachable(lba, dest, n)
    ensures var ps := FixedPlan(diskId, lba, dest, n);
      forall k | 0 <= k < |ps| :: RealAddress(ps[k].segment, ps[k].offset) == dest + k * MAX_READ_BYTES
    decreases n
  {
    if n > MAX_READ_SECTORS {
      FixedPlanStep(diskId, lba, dest, n);
      FixedPlanAddresses(diskId, lba + MAX_READ_SECTORS, dest + MAX_READ_BYTES, n - MAX_READ_SECTORS);
      var ps := FixedPlan(diskId, lba, dest, n);
      forall k | 1 <= k < |ps|
        ensures RealAddress(ps[k].segment, ps[k].offset) == dest + k * MAX_READ_BYTES
      {
        assert ps[k] == ps[1..][k - 1];
        assert MAX_READ_BYTES + (k - 1) * MAX_READ_BYTES == k * MAX_READ_BYTES;
      }
    }
  }

  /** The 64 KiB step `DAP::read` takes between calls is the step the plan
      takes while the buffer stays below 1 MiB. */
  lemma AdvanceStep(diskId: u8, lba: u64, dest: u32, n: u16)
    requires n > MAX_READ_SECTORS && Reachable(lba, dest, n)
    ensures Advance(Packet(diskId, lba, dest, n))
      == Packet(diskId, lba + MAX_READ_SECTORS, dest + MAX_READ_BYTES, n - MAX_READ_SECTORS)
  {
    var block := dest / 0x1_0000;
    assert (dest + MAX_READ_BYTES) / 0x1_0000 == block + 1;
    assert (dest + MAX_READ_BYTES) % 0x1_0000 == dest % 0x1_0000;
    assert block + 1 < 16;
    ModSmall(block, 16);
    ModSmall(block + 1, 16);
    assert block * 0x1000 + 0x1000 < 0x1_0000;
    ModSmall(block * 0x1000 + 0x1000, 0x1_0000);
  }

  /** Wherever the code neither truncates the count nor wraps the segment,
      it makes exactly the planned calls. */
  lemma {:induction false} FixedMatchesChunked(diskId: u8, lba: u64, dest: u32, n: u16)
    requires Reachable(lba, dest, n)
    ensures Chunked(Packet(diskId, lba, dest, n)) == FixedPlan(diskId, lba, dest, n)
    decreases n
  {
    if n > MAX_READ_SECTORS {
      var d := Packet(diskId, lba, dest, n);
      ChunkedStep(d);
      AdvanceStep(diskId, lba, dest, n);
      FixedMatchesChunked(diskId, lba + MAX_READ_SECTORS, dest + MAX_READ_BYTES, n - MAX_READ_SECTORS);
    }
  }

  /** `read_disk`'s own packet is the plan's first, so for a reachable
      buffer the code and the plan agree. */
  lemma ReadDiskAgrees(addr: (u8, u64), dest: u32, len: u32)
    requires Reachable(addr.1, dest, len / SECTOR_SIZE)
    ensures ReadDiskFixed(addr, dest, len) == Some(Chunked(ReadDiskPacket(addr, dest, len)))
  {
    var n := len / SECTOR_SIZE;
    ModSmall(n, 0x1_0000);
    assert ReadDiskPacket(addr, dest, len) == Packet(addr.0, addr.1, dest, n);
    FixedMatchesChunked(addr.0, addr.1, dest, n);
  }
}
