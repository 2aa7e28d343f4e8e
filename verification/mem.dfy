/** The address ranges of i386/src/mem.rs. `MemRange<T>` is instantiated
    with `usize` for virtual and `u64` for physical addresses; both are
    held as u64 here, and a member that needs the narrower `usize` says so
    in its requires. */
module Mem {
  import opened Bits

  /** `MemRange<T>`: `len` is stored, not derived. */
  datatype MemRange = MemRange(start: u64, end: u64, len: u64)

  /** `MemRange::new(start, end)`: the length is `end - start`, a `u64`
      subtraction, so `end` may not lie below `start`. */
  function NewRange(start: u64, end: u64): (m: MemRange)
    requires start <= end
    ensures m.start == start && m.end == end && m.start + m.len == m.end
  {
    MemRange(start, end, end - start)
  }
}
