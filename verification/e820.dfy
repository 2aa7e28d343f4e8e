/** The BIOS memory map (i386/src/driver/mem/e820.rs), queried with INT 15h
    function E820h as section 15.1 of the ACPI Specification describes:
    each call returns one address range descriptor into the buffer ES:DI,
    the signature 'SMAP' in EAX and a continuation value in EBX that the
    next call passes back; a continuation of 0 marks the last descriptor,
    and a set carry flag an error. The BIOS is a parameter here: a function
    from the continuation a call passes to what the call hands back. */
module E820 {
  import opened Bits
  import opened Results
  import Addr
  import Layout

  /** 'SMAP' */
  const SMAP: u32 := 0x534D_4150

  /** Bytes in one descriptor as the buffer lays it out. */
  const RANGE_SIZE: nat := 24

  datatype MemType = AddressRangeMemory | AddressRangeReserved | Undefined

  datatype E820Range = E820Range(base: u64, len: u64, ty: MemType)

  /** `E820MemInfo<MAX>`: the first `len` of `ranges` are valid. */
  datatype E820MemInfo = E820MemInfo(len: nat, ranges: seq<E820Range>)

  /** What one call hands back: EAX, the carry flag, BX, and the
      descriptor written to the buffer. */
  datatype Reply = Reply(magic: u32, carry: bool, next: u16, range: E820Range)

  /** `E820MemInfo::new()`: no valid range, every slot zero and undefined. */
  function New(max: nat): (info: E820MemInfo)
    ensures Valid(info) && info.len == 0 && |info.ranges| == max
    ensures forall i | 0 <= i < max :: info.ranges[i] == E820Range(0, 0, Undefined)
    ensures GetRanges(info) == Some([])
  {
    E820MemInfo(0, seq(max, _ => E820Range(0, 0, Undefined)))
  }

  /** The count stays within the array. */
  predicate Valid(info: E820MemInfo)
  {
    info.len <= |info.ranges|
  }

  // ---------------------------------------------------------------------
  // The enumeration loop

  /** The `try_fold` state: the control flow, the ranges counted so far,
      the buffer, and the continuations passed so far, in call order. */
  datatype Flow = Continue(bx: u16) | Break(code: int)
  datatype Fold = Fold(flow: Flow, count: nat, ranges: seq<E820Range>, conts: seq<u16>)

  /** `is_failed`: the DX register after `xor dx, dx; mov es, dx; setc dl`.
      The `xor` clears the carry before `setc` reads it, so as written it
      is always 0 and the BIOS's carry is never seen; the corrected reading
      takes the carry itself. */
  function IsFailed(reply: Reply, fixed: bool): (f: u16)
    ensures !fixed ==> f == 0
    ensures fixed ==> (f == 1 <==> reply.carry)
  {
    if fixed && reply.carry then 1 else 0
  }

  /** The continuation passed on call i when every call before it went on:
      0 first, then what the previous call returned. */
  function Cont(bios: u16 -> Reply, i: nat): u16
  {
    if i == 0 then 0 else bios(Cont(bios, i - 1)).next
  }

  /** A reply the loop accepts. */
  predicate Accepted(reply: Reply, fixed: bool)
  {
    reply.magic == SMAP && IsFailed(reply, fixed) != 1
  }

  /** Whether slot k's address has a 16-bit form. */
  predicate Reachable(bufAddr: nat, k: nat)
  {
    bufAddr + RANGE_SIZE * k < 0x1_0000_0000 && Addr.ToAddr16(bufAddr + RANGE_SIZE * k).Ok?
  }

  /** One pass of the closure from slot k on. `fixed` selects the corrected
      loop, which honours the carry and counts the last range. It makes at
      most one call per remaining slot, each call appending its
      continuation and writing the next slot from k on; slots before k and
      past the calls keep their contents, and the loop only runs off the
      end after calling for every slot. */
  function Step(bufAddr: nat, max: nat, bios: u16 -> Reply, fixed: bool, k: nat, acc: Fold): (q: Fold)
    requires k <= max && |acc.ranges| == max && acc.flow.Continue?
    ensures |q.ranges| == max
    ensures acc.conts <= q.conts && |q.conts| <= |acc.conts| + (max - k)
    ensures acc.count <= q.count <= acc.count + (|q.conts| - |acc.conts|)
    ensures forall i | 0 <= i < k :: q.ranges[i] == acc.ranges[i]
    ensures forall i | k + (|q.conts| - |acc.conts|) <= i < max :: q.ranges[i] == acc.ranges[i]
    ensures q.flow.Continue? ==> |q.conts| == |acc.conts| + (max - k)
    decreases max - k
  {
    if k == max then acc
    else if !Reachable(bufAddr, k) then acc.(flow := Break(-1))
    else
      var reply := bios(acc.flow.bx);
      var written := acc.(ranges := acc.ranges[k := reply.range], conts := acc.conts + [acc.flow.bx]);
      if !Accepted(reply, fixed) then written.(flow := Break(-1))
      else if reply.next == 0 then written.(flow := Break(0), count := if fixed then acc.count + 1 else acc.count)
      else Step(bufAddr, max, bios, fixed, k + 1, written.(flow := Continue(reply.next), count := acc.count + 1))
  }

  /** `get_mem_info(buf)` for a buffer whose first slot is at `bufAddr`:
      the count (None on failure), the buffer afterwards, and the
      continuations passed. */
  function GetMemInfoWith(buf: seq<E820Range>, bufAddr: nat, bios: u16 -> Reply, fixed: bool)
    : (r: (Option<nat>, seq<E820Range>, seq<u16>))
    ensures |r.1| == |buf|
  {
    var q := Step(bufAddr, |buf|, bios, fixed, 0, Fold(Continue(0), 0, buf, []));
    (if q.flow.Continue? || q.flow == Break(0) then Some(q.count) else None, q.ranges, q.conts)
  }

  /** `get_mem_info` as written: at most one call per slot, call i passing
      `Cont(i)` and filling slot i, and on success a count of the calls
      that returned a non-zero continuation; when every slot fills without
      a zero continuation the count is the number of slots. */
  function GetMemInfo(buf: seq<E820Range>, bufAddr: nat, bios: u16 -> Reply): (r: (Option<nat>, seq<E820Range>, seq<u16>))
    ensures |r.1| == |buf|
    ensures var (n, ranges, conts) := r;
      && |conts| <= |buf|
      && (forall i | 0 <= i < |conts| :: conts[i] == Cont(bios, i) && ranges[i] == bios(conts[i]).range)
      && (forall i | |conts| <= i < |buf| :: ranges[i] == buf[i])
      && (n.Some? ==> n.value <= |conts| && forall i | 0 <= i < n.value :: bios(conts[i]).next != 0)
      && (n.Some? && n.value < |conts| ==> n.value == |conts| - 1 && bios(conts[n.value]).next == 0)
      && (n.Some? && n.value == |conts| ==> n.value == |buf|)
  {
    MemInfoFinishes(buf, bufAddr, bios, false);
    GetMemInfoWith(buf, bufAddr, bios, false)
  }

  /** The loop that honours the carry and counts the last range. */
  function GetMemInfoFixed(buf: seq<E820Range>, bufAddr: nat, bios: u16 -> Reply): (r: (Option<nat>, seq<E820Range>, seq<u16>))
    ensures |r.1| == |buf|
  {
    GetMemInfoWith(buf, bufAddr, bios, true)
  }

  // ---------------------------------------------------------------------
  // What the loop does

  /** The state after k calls that all went on. */
  predicate Going(buf: seq<E820Range>, bios: u16 -> Reply, fixed: bool, k: nat, acc: Fold)
  {
    && k <= |buf| && |acc.ranges| == |buf| && |acc.conts| == k && acc.count == k
    && acc.flow == Continue(Cont(bios, k))
    && (forall i | 0 <= i < k :: acc.conts[i] == Cont(bios, i))
    && (forall i | 0 <= i < k :: Accepted(bios(acc.conts[i]), fixed) && bios(acc.conts[i]).next != 0)
    && (forall i | 0 <= i < k :: acc.ranges[i] == bios(acc.conts[i]).range)
    && (forall i | k <= i < |buf| :: acc.ranges[i] == buf[i])
  }

  /** What the loop leaves behind. Call i passes `Cont(i)`, its
      descriptor lands in slot i, every call but the last was accepted
      and went on, and slots nobody called keep their contents. It stops
      for good after all slots, at the first slot without a 16-bit
      address, at the first rejected reply, or at the first zero
      continuation; the count is the calls that went on, plus the last
      one in the corrected loop. */
  predicate Finished(buf: seq<E820Range>, bufAddr: nat, bios: u16 -> Reply, fixed: bool, q: Fold)
  {
    var n := |q.conts|;
    && n <= |buf| && |q.ranges| == |buf|
    && (forall i | 0 <= i < n :: q.conts[i] == Cont(bios, i))
    && (forall i | 0 <= i < n :: q.ranges[i] == bios(q.conts[i]).range)
    && (forall i | n <= i < |buf| :: q.ranges[i] == buf[i])
    && (forall i | 0 <= i < n - 1 :: Accepted(bios(q.conts[i]), fixed) && bios(q.conts[i]).next != 0)
    && (q.flow.Continue? ==>
          (n == |buf| && q.count == n
           && (n > 0 ==> Accepted(bios(q.conts[n - 1]), fixed) && bios(q.conts[n - 1]).next != 0)))
    && (q.flow == Break(0) ==>
          (1 <= n
           && Accepted(bios(q.conts[n - 1]), fixed) && bios(q.conts[n - 1]).next == 0
           && q.count == if fixed then n else n - 1))
    && (q.flow.Break? && q.flow.code != 0 ==>
          (q.flow.code == -1
           && ((n < |buf| && !Reachable(bufAddr, n)
                && (n > 0 ==> Accepted(bios(q.conts[n - 1]), fixed) && bios(q.conts[n - 1]).next != 0))
               || (1 <= n && !Accepted(bios(q.conts[n - 1]), fixed)))))
  }

  lemma {:induction false} StepFinishes(buf: seq<E820Range>, bufAddr: nat, bios: u16 -> Reply, fixed: bool, k: nat, acc: Fold)
    requires Going(buf, bios, fixed, k, acc)
    ensures Finished(buf, bufAddr, bios, fixed, Step(bufAddr, |buf|, bios, fixed, k, acc))
    decreases |buf| - k
  {
    if k == |buf| {
      AllSlotsFinish(buf, bufAddr, bios, fixed, acc);
    } else if !Reachable(bufAddr, k) {
      UnreachableFinishes(buf, bufAddr, bios, fixed, k, acc);
    } else {
      var reply := bios(acc.flow.bx);
      var written := acc.(ranges := acc.ranges[k := reply.range], conts := acc.conts + [acc.flow.bx]);
      if !Accepted(reply, fixed) {
        RejectedFinishes(buf, bufAddr, bios, fixed, k, acc);
      } else if reply.next == 0 {
        LastFinishes(buf, bufAddr, bios, fixed, k, acc);
      } else {
        var next := written.(flow := Continue(reply.next), count := acc.count + 1);
        GoingOn(buf, bios, fixed, k, acc);
        StepFinishes(buf, bufAddr, bios, fixed, k + 1, next);
      }
    }
  }

  /** Every slot filled and every call went on. */
  lemma AllSlotsFinish(buf: seq<E820Range>, bufAddr: nat, bios: u16 -> Reply, fixed: bool, acc: Fold)
    requires Going(buf, bios, fixed, |buf|, acc)
    ensures Finished(buf, bufAddr, bios, fixed, acc)
  {
  }

  /** Slot k has no 16-bit address: the loop breaks before calling. */
  lemma UnreachableFinishes(buf: seq<E820Range>, bufAddr: nat, bios: u16 -> Reply, fixed: bool, k: nat, acc: Fold)
    requires Going(buf, bios, fixed, k, acc) && k < |buf| && !Reachable(bufAddr, k)
    ensures Finished(buf, bufAddr, bios, fixed, acc.(flow := Break(-1)))
  {
  }

  /** Call k's reply is rejected after it wrote slot k. */
  lemma RejectedFinishes(buf: seq<E820Range>, bufAddr: nat, bios: u16 -> Reply, fixed: bool, k: nat, acc: Fold)
    requires Going(buf, bios, fixed, k, acc) && k < |buf| && !Accepted(bios(acc.flow.bx), fixed)
    ensures var reply := bios(acc.flow.bx);
      Finished(buf, bufAddr, bios, fixed,
        acc.(ranges := acc.ranges[k := reply.range], conts := acc.conts + [acc.flow.bx], flow := Break(-1)))
  {
    var q := acc.(ranges := acc.ranges[k := bios(acc.flow.bx).range], conts := acc.conts + [acc.flow.bx], flow := Break(-1));
    assert q.conts[k] == Cont(bios, k);
  }

  /** Call k's reply is accepted with continuation 0. */
  lemma LastFinishes(buf: seq<E820Range>, bufAddr: nat, bios: u16 -> Reply, fixed: bool, k: nat, acc: Fold)
    requires Going(buf, bios, fixed, k, acc) && k < |buf|
    requires Accepted(bios(acc.flow.bx), fixed) && bios(acc.flow.bx).next == 0
    ensures var reply := bios(acc.flow.bx);
      Finished(buf, bufAddr, bios, fixed,
        acc.(ranges := acc.ranges[k := reply.range], conts := acc.conts + [acc.flow.bx],
             flow := Break(0), count := if fixed then acc.count + 1 else acc.count))
  {
    var q := acc.(ranges := acc.ranges[k := bios(acc.flow.bx).range], conts := acc.conts + [acc.flow.bx]);
    assert q.conts[k] == Cont(bios, k);
  }

  /** Call k's reply is accepted with a non-zero continuation. */
  lemma GoingOn(buf: seq<E820Range>, bios: u16 -> Reply, fixed: bool, k: nat, acc: Fold)
    requires Going(buf, bios, fixed, k, acc) && k < |buf|
    requires Accepted(bios(acc.flow.bx), fixed) && bios(acc.flow.bx).next != 0
    ensures var reply := bios(acc.flow.bx);
      Going(buf, bios, fixed, k + 1,
        acc.(ranges := acc.ranges[k := reply.range], conts := acc.conts + [acc.flow.bx],
             flow := Continue(reply.next), count := acc.count + 1))
  {
  }

  /** The whole loop, from the first call on. */
  lemma MemInfoFinishes(buf: seq<E820Range>, bufAddr: nat, bios: u16 -> Reply, fixed: bool)
    ensures Finished(buf, bufAddr, bios, fixed, Step(bufAddr, |buf|, bios, fixed, 0, Fold(Continue(0), 0, buf, [])))
  {
    StepFinishes(buf, bufAddr, bios, fixed, 0, Fold(Continue(0), 0, buf, []));
  }

  /** The loop gives up exactly when a slot has no 16-bit address or a
      reply is rejected. */
  lemma MemInfoNone(buf: seq<E820Range>, bufAddr: nat, bios: u16 -> Reply, fixed: bool)
    ensures var (r, ranges, conts) := GetMemInfoWith(buf, bufAddr, bios, fixed);
      r.None? <==>
        (|conts| < |buf| && !Reachable(bufAddr, |conts|) && (|conts| == 0 || bios(conts[|conts| - 1]).next != 0))
        || (1 <= |conts| && !Accepted(bios(conts[|conts| - 1]), fixed))
  {
    MemInfoFinishes(buf, bufAddr, bios, fixed);
  }

  // ---------------------------------------------------------------------
  // The last range and the carry

  /** As written, a BIOS that describes a single range (its first reply
      already carries continuation 0) yields a count of 0 although the
      range has been written to slot 0: the range of the last call is
      never counted. */
  lemma FinalRangeUncounted(buf: seq<E820Range>, bufAddr: nat, bios: u16 -> Reply)
    requires 1 <= |buf| && Reachable(bufAddr, 0)
    requires bios(0).magic == SMAP && bios(0).next == 0
    ensures GetMemInfo(buf, bufAddr, bios).0 == Some(0)
    ensures GetMemInfo(buf, bufAddr, bios).1[0] == bios(0).range
  {
    var s := Fold(Continue(0), 0, buf, []);
    assert Step(bufAddr, |buf|, bios, false, 0, s)
      == s.(ranges := buf[0 := bios(0).range], conts := [0], flow := Break(0));
  }

  /** As written, a reply with the carry set, which section 15.1 of the ACPI
      Specification defines as an error, is accepted and counted when its
      signature is right. */
  lemma CarryIgnored(buf: seq<E820Range>, bufAddr: nat, bios: u16 -> Reply)
    requires 2 <= |buf| && Reachable(bufAddr, 0) && Reachable(bufAddr, 1)
    requires bios(0) == Reply(SMAP, true, 1, bios(0).range)
    requires bios(1).magic == SMAP && bios(1).next == 0
    ensures GetMemInfo(buf, bufAddr, bios).0 == Some(1)
    ensures GetMemInfoFixed(buf, bufAddr, bios).0 == None
  {
    var s := Fold(Continue(0), 0, buf, []);
    var w := s.(ranges := buf[0 := bios(0).range], conts := [0]);
    assert Step(bufAddr, |buf|, bios, false, 0, s)
      == Step(bufAddr, |buf|, bios, false, 1, w.(flow := Continue(1), count := 1));
  }

  /** The corrected loop counts exactly the ranges it wrote: on success
      the count is the number of calls, and each counted slot holds an
      accepted reply's descriptor. */
  lemma FixedCountsAll(buf: seq<E820Range>, bufAddr: nat, bios: u16 -> Reply)
    ensures var (r, ranges, conts) := GetMemInfoFixed(buf, bufAddr, bios);
      r.Some? ==>
        (r.value == |conts| <= |ranges|
         && forall i | 0 <= i < r.value :: ranges[i] == bios(conts[i]).range && Accepted(bios(conts[i]), true))
  {
    MemInfoFinishes(buf, bufAddr, bios, true);
  }

  // ---------------------------------------------------------------------
  // query and get_ranges

  /** `query`: run the loop on the array; the array keeps whatever the
      BIOS wrote, and `len` becomes the count, or stays as it was on
      failure. */
  function Query(info: E820MemInfo, bufAddr: nat, bios: u16 -> Reply): (r: (E820MemInfo, Option<()>))
    ensures Valid(info) ==> Valid(r.0)
    ensures |r.0.ranges| == |info.ranges|
    ensures r.1.None? ==> r.0.len == info.len
  {
    var (res, ranges, conts) := GetMemInfo(info.ranges, bufAddr, bios);
    match res
    case None => (info.(ranges := ranges), None)
    case Some(n) => (E820MemInfo(n, ranges), Some(()))
  }

  /** `get_ranges`: the first `len` ranges, or None when `len` is past the
      array, which a valid record never is. */
  function GetRanges(info: E820MemInfo): (r: Option<seq<E820Range>>)
    ensures r.Some? <==> Valid(info)
    ensures r.Some? ==> |r.value| == info.len && forall i | 0 <= i < info.len :: r.value[i] == info.ranges[i]
  {
    if info.len <= |info.ranges| then Some(info.ranges[..info.len]) else None
  }

  /** After a successful query the valid ranges are the descriptors of the
      calls that went on, in call order. */
  lemma QueryRanges(info: E820MemInfo, bufAddr: nat, bios: u16 -> Reply)
    requires Query(info, bufAddr, bios).1.Some?
    ensures var rs := GetRanges(Query(info, bufAddr, bios).0);
      && rs.Some?
      && forall i | 0 <= i < |rs.value| :: rs.value[i] == bios(Cont(bios, i)).range && bios(Cont(bios, i)).next != 0
  {
  }

  // ---------------------------------------------------------------------
  // The record in the boot loader's layout

  /** `MEMINFO_MAX = MEMINFO_SIZE / (size_of::<E820MemRange>() + 4)`
      (bootloader/shared/src/mem.rs). */
  const MEMINFO_MAX: nat := Layout.MEMINFO_SIZE / (RANGE_SIZE + 4)

  /** The first slot of the record at MEMINFO_START. `E820MemInfo` has no
      `repr`, so Rust chooses the field order; this is the layout assumed
      here, a 4-byte count padded to the 8-byte alignment of the slots. */
  const MEMINFO_RANGES: nat := Layout.MEMINFO_START + 8

  /** The other field order: the slots first, the count after them. */
  const MEMINFO_RANGES_FIRST: nat := Layout.MEMINFO_START

  /** Nine slots, and the record fits its region in either field order;
      every slot lies below 64 KiB, where the 16-bit address form names it
      exactly. */
  lemma MeminfoFits()
    ensures MEMINFO_MAX == 9 && MEMINFO_RANGES + RANGE_SIZE * MEMINFO_MAX <= Layout.MEMINFO_START + Layout.MEMINFO_SIZE
    ensures MEMINFO_RANGES_FIRST + RANGE_SIZE * MEMINFO_MAX + 4 <= Layout.MEMINFO_START + Layout.MEMINFO_SIZE
    ensures forall k | 0 <= k < MEMINFO_MAX :: Reachable(MEMINFO_RANGES, k)
    ensures forall k | 0 <= k < MEMINFO_MAX :: Reachable(MEMINFO_RANGES_FIRST, k)
  {
    Layout.Sizes();
    forall k | 0 <= k < MEMINFO_MAX
      ensures Reachable(MEMINFO_RANGES, k) && Reachable(MEMINFO_RANGES_FIRST, k)
    {
      assert MEMINFO_RANGES + RANGE_SIZE * k < 0x1_0000;
    }
  }
}
