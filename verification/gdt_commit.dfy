/** `GDTDescriptor::update` of i386/src/mem/dt/gdt.rs: check a descriptor
    table and load it into GDTR. The `lgdt` instruction is an event in the
    returned trace; the table itself is only read. */
module GdtCommit {
  import opened Bits
  import opened Results
  import opened Tables

  datatype DTError = EmptyTable | ErrorReservedEntry

  /** The six-byte operand of `lgdt`: the table's size in bytes minus one,
      and the table. */
  datatype Pointer = Pointer(limit: u16, base: seq<u64>)

  datatype Event = LoadGdt(pointer: Pointer)

  /** `cur as u16 * 8 - 1`, with u16 wrap-around at each step. */
  function Limit16(cur: nat): (r: u16)
    ensures 0 < cur <= 0x2000 ==> r + 1 == cur * 8
  {
    ((cur % 0x1_0000) * 8 % 0x1_0000 + 0xFFFF) % 0x1_0000
  }

  /** `update`: an empty table, then a non-null slot 0 (the processor
      reserves it), are refused without touching GDTR; otherwise GDTR is
      loaded once. */
  function Update(t: Table): (r: (Result<(), DTError>, seq<Event>))
    requires 1 <= |t.slots|
    ensures r.0.Err? <==> r.1 == []
    ensures t.cur == 0 ==> r.0 == Err(EmptyTable)
    ensures t.cur > 0 && t.slots[0] != 0 ==> r.0 == Err(ErrorReservedEntry)
    ensures r.0.Ok? ==> t.cur > 0 && t.slots[0] == 0 && |r.1| == 1 && r.1[0].pointer.base == t.slots
  {
    if t.cur == 0 then
      (Err(EmptyTable), [])
    else if t.slots[0] != 0 then
      (Err(ErrorReservedEntry), [])
    else
      (Ok(()), [LoadGdt(Pointer(Limit16(t.cur), t.slots))])
  }

  /** A committed table of at most 8192 entries is described by a limit of
      exactly its size in bytes minus one. */
  lemma UpdateLimit(t: Table)
    requires Valid(t) && t.cur <= 0x2000
    ensures var (res, events) := Update(t);
      res.Ok? ==> events == [LoadGdt(Pointer((t.cur * 8 - 1) as u16, t.slots))]
  {
  }

  /** A table of more than 8192 entries wraps the limit: 8193 entries give
      a limit of 7. */
  lemma LimitWraps()
    ensures Limit16(0x2001) == 7
  {
  }
}
