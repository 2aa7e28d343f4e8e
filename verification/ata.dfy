/** The ATA PIO driver's port map, codes and errors
    (i386/src/driver/disk/ata.rs). The PIO transfers themselves
    (`pio_identify`, `pio_read_sectors`) are in i386/src/driver/disk/ata/pio.rs,
    which is not part of this model; callers take them as parameters. */
module Ata {
  import opened Bits

  /** Device Control register commands. */
  const SFTRST: u8 := 0x04
  const BUSRST: u8 := 0x00

  /** Command register codes: READ SECTORS EXT and IDENTIFY DEVICE. */
  const READ_EXT: u8 := 0x24
  const IDENTIFY: u8 := 0xEC

  /** Features register value selecting PIO transfers. */
  const PIO: u8 := 0x00

  /** Status register bits. */
  const ERR: u8 := 0x01
  const DRQ: u8 := 0x08
  const DF: u8 := 0x20
  const RDY: u8 := 0x40
  const BSY: u8 := 0x80

  datatype AtaError =
    | BufferNotAligned
    | BufferOverflow
    | LbaTooLarge
    | DiskError(code: u8)
    | DeviceNotExist
    | NotAtaDevice

  datatype AtaDriver = Primary | Secondary

  // ---------------------------------------------------------------------
  // Ports

  /** The first port of the bus's command block. */
  function IoBase(d: AtaDriver): u16
  {
    match d
    case Primary => 0x1F0
    case Secondary => 0x170
  }

  function DataReg(d: AtaDriver): u16 { IoBase(d) + 0 }
  function FeatureReg(d: AtaDriver): u16 { IoBase(d) + 1 }
  function ErrorReg(d: AtaDriver): u16 { IoBase(d) + 1 }
  function SectorNumReg(d: AtaDriver): u16 { IoBase(d) + 2 }
  function LbaLoReg(d: AtaDriver): u16 { IoBase(d) + 3 }
  function LbaMidReg(d: AtaDriver): u16 { IoBase(d) + 4 }
  function LbaHiReg(d: AtaDriver): u16 { IoBase(d) + 5 }
  function DriveReg(d: AtaDriver): u16 { IoBase(d) + 6 }
  function StatusReg(d: AtaDriver): u16 { IoBase(d) + 7 }
  function CommandReg(d: AtaDriver): u16 { IoBase(d) + 7 }

  /** The first port of the bus's control block: 0x376 whatever the bus. */
  function CtrlBase(d: AtaDriver): u16 { 0x376 }
  function DcrReg(d: AtaDriver): u16 { CtrlBase(d) + 0 }
  function AltStatusReg(d: AtaDriver): u16 { CtrlBase(d) + 0 }
  function Dar(d: AtaDriver): u16 { CtrlBase(d) + 1 }

  /** The command-block registers in register order: data, error/features,
      sector count, LBA low, mid and high, drive, status/command. */
  function CommandBlock(d: AtaDriver): (ports: seq<u16>)
    ensures |ports| == 8
    ensures forall i | 0 <= i < 8 :: ports[i] == IoBase(d) + i
  {
    [DataReg(d), ErrorReg(d), SectorNumReg(d), LbaLoReg(d), LbaMidReg(d), LbaHiReg(d), DriveReg(d),
     StatusReg(d)]
  }

  /** The read and write names of the shared ports agree, and the two
      buses' command blocks do not overlap. */
  lemma CommandBlocks()
    ensures forall d :: ErrorReg(d) == FeatureReg(d) && StatusReg(d) == CommandReg(d)
    ensures forall i, j | 0 <= i < 8 && 0 <= j < 8 :: CommandBlock(Primary)[i] != CommandBlock(Secondary)[j]
    ensures forall d :: DcrReg(d) == AltStatusReg(d) && Dar(d) == DcrReg(d) + 1
  {
  }

  /** As written, both buses share one control block, the one at 0x376, so
      a software reset meant for the primary bus goes to the secondary. */
  lemma SharedControlBlock()
    ensures DcrReg(Primary) == DcrReg(Secondary) == 0x376
    ensures CtrlBase(Primary) != IoBase(Primary) + 0x206
  {
  }

  /** The control block of the legacy compatibility-mode port assignment:
      0x3F6 for the primary bus, 0x376 for the secondary, 0x206 above each
      command block. */
  function CtrlBaseFixed(d: AtaDriver): (port: u16)
    ensures port == IoBase(d) + 0x206
  {
    match d
    case Primary => 0x3F6
    case Secondary => 0x376
  }

  /** With the corrected bases the buses' control registers are distinct
      and overlap neither command block; the secondary bus is unchanged. */
  lemma ControlBlocksFixed()
    ensures CtrlBaseFixed(Primary) != CtrlBaseFixed(Secondary)
    ensures CtrlBaseFixed(Secondary) == CtrlBase(Secondary)
    ensures forall d, e, i | 0 <= i < 8 ::
      (CtrlBaseFixed(d) != CommandBlock(e)[i] && CtrlBaseFixed(d) + 1 != CommandBlock(e)[i])
  {
  }

  // ---------------------------------------------------------------------
  // Status bits

  /** Testing a status mask reads exactly one bit of the status byte:
      ERR bit 0, DRQ bit 3, DF bit 5, RDY bit 6, BSY bit 7. */
  lemma StatusBits(status: u8)
    ensures (And(status, ERR) != 0) == Bit(status, 0)
    ensures (And(status, DRQ) != 0) == Bit(status, 3)
    ensures (And(status, DF) != 0) == Bit(status, 5)
    ensures (And(status, RDY) != 0) == Bit(status, 6)
    ensures (And(status, BSY) != 0) == Bit(status, 7)
  {
    Pow2Values();
    AndPow2(status, 0);
    AndPow2(status, 3);
    AndPow2(status, 5);
    AndPow2(status, 6);
    AndPow2(status, 7);
  }

  /** `x & 2^k` is non-zero exactly when bit k of x is set. */
  lemma AndPow2(x: nat, k: nat)
    requires k < 64
    ensures (And(x, Pow2(k)) != 0) == Bit(x, k)
  {
    var a := And(x, Pow2(k));
    BitAnd(x, Pow2(k), k);
    BitPow2(k, k);
    BitsAbove(0, 0, k);
    if !Bit(x, k) {
      forall i: nat
        ensures Bit(a, i) == Bit(0, i)
      {
        BitAnd(x, Pow2(k), i);
        BitPow2(k, i);
        BitsAbove(0, 0, i);
      }
      BitsEqual(a, 0);
    }
  }

  lemma BitPow2(k: nat, i: nat)
    ensures Bit(Pow2(k), i) == (i == k)
  {
    BitsAbove(0, 0, k);
    BitsAbove(0, 0, i);
    BitAddPow2(0, k, i);
  }

  // ---------------------------------------------------------------------
  // Error messages

  function DigitChar(d: nat): char
    requires d < 10
  {
    "0123456789"[d]
  }

  /** `format!("{}", n)`: the decimal digits of n, most significant first. */
  function Decimal(n: nat): (s: string)
    ensures 1 <= |s|
    ensures forall i | 0 <= i < |s| :: '0' <= s[i] <= '9'
  {
    if n < 10 then [DigitChar(n)] else Decimal(n / 10) + [DigitChar(n % 10)]
  }

  /** Reading decimal digits back into a number. */
  function ParseDecimal(s: string): nat
    requires forall i | 0 <= i < |s| :: '0' <= s[i] <= '9'
  {
    if |s| == 0 then 0 else ParseDecimal(s[..|s| - 1]) * 10 + (s[|s| - 1] as int - '0' as int)
  }

  lemma {:induction false} DecimalRoundTrip(n: nat)
    ensures ParseDecimal(Decimal(n)) == n
    decreases n
  {
    if n >= 10 {
      var s := Decimal(n);
      assert s[..|s| - 1] == Decimal(n / 10);
      DecimalRoundTrip(n / 10);
    }
  }

  const PREFIX: string := "Disk Error: "

  /** `Into<String> for ATAError`. */
  function Message(e: AtaError): (m: string)
    ensures |m| > |PREFIX| && m[..|PREFIX|] == PREFIX
  {
    match e
    case DiskError(i) => PREFIX + Decimal(i)
    case BufferOverflow => PREFIX + "Overflow"
    case LbaTooLarge => PREFIX + "LBA too large"
    case DeviceNotExist => PREFIX + "not found"
    case NotAtaDevice => PREFIX + "not ATA"
    case BufferNotAligned => PREFIX + "alignment"
  }

  /** The messages of the errors without a code go on with a letter. */
  lemma NamedNotDigit(e: AtaError)
    requires !e.DiskError?
    ensures !('0' <= Message(e)[|PREFIX|] <= '9')
  {
  }

  /** Different errors give different messages: the code of a disk error
      can be read back from its message. */
  lemma MessagesDistinct(e1: AtaError, e2: AtaError)
    requires Message(e1) == Message(e2)
    ensures e1 == e2
  {
    var m := Message(e1);
    var k := |PREFIX|;
    if e1.DiskError? && e2.DiskError? {
      assert m[k..] == Decimal(e1.code) && m[k..] == Decimal(e2.code);
      DecimalRoundTrip(e1.code);
      DecimalRoundTrip(e2.code);
    } else if e1.DiskError? {
      NamedNotDigit(e2);
    } else if e2.DiskError? {
      NamedNotDigit(e1);
    } else {
      assert m[k..] == Message(e2)[k..];
    }
  }
}
