/** `Task` of bootloader/src/bios/stage_3/src/task.rs: a task whose only
    segment is one code segment described in the LDT. `init_ldt` appends
    that descriptor to the LDT and keeps the selector `add` hands back. The
    LDT itself (`shared::ldt::LDT_TABLE`) is not part of this model, so it
    is a parameter of the operation; `transfer` is an `lldt` and a far
    return in inline assembly and is left out. */
module Tasks {
  import opened Bits
  import opened Results
  import opened Descriptors
  import opened Tables

  /** `offset` and `size` are `usize`, 32 bits wide on i386. */
  datatype Task = Task(privilege: Privilege, offset: u32, size: u32, codeSelector: u16)

  /** `Task::new`: the selector starts out as the null selector. */
  function New(privilege: Privilege, offset: u32, size: u32): (t: Task)
    ensures t.privilege == privilege && t.offset == offset && t.size == size
    ensures DecodeSelector(t.codeSelector) == SelectorFields(0, GDT, Ring0)
  {
    Task(privilege, offset, size, 0)
  }

  /** `self.size - 1`: a `usize` subtraction, which the release build
      lets wrap, so a task of size 0 gets 0xFFFF_FFFF. */
  function LastOffset(size: u32): (l: u32)
    ensures size >= 1 ==> l + 1 == size
    ensures size == 0 ==> l == 0xFFFF_FFFF
  {
    (size + 0xFFFF_FFFF) % 0x1_0000_0000
  }

  /** A task's code descriptor: base `offset`, limit `size - 1`, type 8
      (execute-only code), S set, ring 0, present, 32-bit, byte granular. */
  function CodeDesc(offset: u32, size: u32): (d: u64)
    ensures DecodeDesc(d) == CodeSegment(offset, size)
  {
    CodeFields(offset, size, LastOffset(size), SEG_CODE, TYPE_CD, Ring0, true, ATTR_SEG32, 0);
    PackDesc(offset, LastOffset(size), SEG_CODE, TYPE_CD, Ring0, true, ATTR_SEG32, 0)
  }

  /** `init_ldt`: add the code descriptor to the LDT; on overflow hand the
      error on and keep the record unchanged, otherwise store the LDT selector of the
      returned slot with RPL 0. The LDT is never reset first. */
  function InitLdt(task: Task, ldt: Table): (r: (Task, Table, Result<(), string>))
    requires 1 <= |ldt.slots|
    ensures r.2.Err? <==> ldt.cur >= |ldt.slots| - 1
    ensures r.2.Err? ==> r.0 == task && r.1 == ldt && r.2.error == OverflowMsg
    ensures r.2.Ok? ==> r.0 == task.(codeSelector := r.0.codeSelector)
  {
    var (next, res) := Add(ldt, CodeDesc(task.offset, task.size));
    match res
    case Err(e) => (task, next, Err(e))
    case Ok(idx) => (task.(codeSelector := PackSelector(idx, LDT, Ring0)), next, Ok(()))
  }

  // ---------------------------------------------------------------------
  // What `init_ldt` leaves behind

  /** On success the LDT gains exactly the code descriptor, at the old
      cursor, and the selector names that slot in the LDT with RPL 0:
      slot * 8 + 4. */
  lemma InitLdtAdds(task: Task, ldt: Table)
    requires Valid(ldt) && ldt.cur < |ldt.slots| - 1
    ensures var (t, l, res) := InitLdt(task, ldt);
      && res.Ok?
      && Valid(l)
      && Entries(l) == Entries(ldt) + [CodeDesc(task.offset, task.size)]
      && (ldt.cur < 0x2000 ==> t.codeSelector == ldt.cur * 8 + 4)
  {
    AddAppends(ldt, CodeDesc(task.offset, task.size));
    var (next, res) := Add(ldt, CodeDesc(task.offset, task.size));
    if ldt.cur < 0x2000 {
      ModSmall(ldt.cur, 0x2000);
    }
  }

  /** The stored selector decodes to the new slot, the LDT and RPL 0. */
  lemma InitLdtSelector(task: Task, ldt: Table)
    requires Valid(ldt) && ldt.cur < |ldt.slots| - 1 && ldt.cur < 0x2000
    ensures DecodeSelector(InitLdt(task, ldt).0.codeSelector) == SelectorFields(ldt.cur, LDT, Ring0)
  {
    var (next, res) := Add(ldt, CodeDesc(task.offset, task.size));
    SelectorRoundTrip(res.value, LDT, Ring0);
    ModSmall(ldt.cur, 0x2000);
  }

  /** The segment a task's code descriptor describes: base `offset`, the
      limit cut to its 20 bits, type 8, S set, ring 0, present, D/B set,
      byte granular. */
  function CodeSegment(offset: u32, size: u32): Segment
  {
    Segment(offset, LastOffset(size) % 0x10_0000, 8, 1, 0, true, 4, 0)
  }

  lemma CodeFields(offset: u32, size: u32, limit: u32, perm: u8, sType: u8, dpl: Privilege, present: bool,
                   attrs: u8, granularity: u8)
    requires limit == LastOffset(size)
    requires perm == 8 && sType == 1 && dpl == Ring0 && present && attrs == 4 && granularity == 0
    ensures DecodeDesc(PackDesc(offset, limit, perm, sType, dpl, present, attrs, granularity)) == CodeSegment(offset, size)
  {
    DescCut(offset, limit, perm, sType, dpl, present, attrs, granularity, CodeSegment(offset, size));
  }

  /** The segment is execute-only 32-bit code at ring 0 starting at
      `offset`; when `size` is 1 .. 2^20 it spans exactly `size` bytes, and
      a task of size 0 gets the largest byte-granular segment, 1 MiB. */
  lemma CodeSegmentMeaning(offset: u32, size: u32)
    ensures var seg := CodeSegment(offset, size);
      && IsCode(seg) && !ReadWrite(seg) && Is32(seg) && seg.present && seg.dpl == 0
      && seg.base == offset
      && (1 <= size <= 0x10_0000 ==> ByteLimit(seg) + 1 == size)
      && (size == 0 ==> ByteLimit(seg) == 0xF_FFFF)
  {
    var l := LastOffset(size);
    if 1 <= size <= 0x10_0000 {
      ModSmall(l, 0x10_0000);
    } else if size == 0 {
      DivModUnique(l, 0x10_0000, 0xFFF, 0xF_FFFF);
    }
  }
}
