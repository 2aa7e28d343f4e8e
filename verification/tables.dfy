/** `DescriptorTable<LEN>` of i386/src/dt.rs: a fixed array of LEN
    descriptors and a cursor `cur`; slots [0, cur) are in use and `add`
    appends at the cursor. The array is a sequence of length LEN. */
module Tables {
  import opened Bits
  import opened Results

  datatype Table = Table(slots: seq<u64>, cur: nat)

  /** The cursor invariant: at least one slot, and the cursor never reaches
      the last slot (`add` refuses at LEN - 1). */
  predicate Valid(t: Table)
  {
    1 <= |t.slots| && t.cur <= |t.slots| - 1
  }

  /** The entries in use, in the order they were added. */
  function Entries(t: Table): seq<u64>
    requires t.cur <= |t.slots|
  {
    t.slots[..t.cur]
  }

  const OverflowMsg: string := "[add] Descriptor Table Overflow.\n"

  /** `(n as u16) - 1` with u16 wrap-around. */
  function Pred16(n: nat): (r: u16)
    ensures 0 < n <= 0x1_0000 ==> r == n - 1
  {
    (n % 0x1_0000 + 0xFFFF) % 0x1_0000
  }

  /** `add`: refuse when the cursor has reached LEN - 1, otherwise write the
      entry at the cursor, advance it and return the entry's slot. */
  function Add(t: Table, entry: u64): (r: (Table, Result<u16, string>))
    requires 1 <= |t.slots|
    ensures r.1.Err? <==> t.cur >= |t.slots| - 1
    ensures r.1.Err? ==> r.0 == t && r.1.error == OverflowMsg
    ensures r.1.Ok? ==>
      && r.0.cur == t.cur + 1
      && |r.0.slots| == |t.slots|
      && r.0.slots[t.cur] == entry
      && (forall i | 0 <= i < |t.slots| && i != t.cur :: r.0.slots[i] == t.slots[i])
      && (t.cur < 0xFFFF ==> r.1.value == t.cur)
  {
    if t.cur >= |t.slots| - 1 then
      (t, Err(OverflowMsg))
    else
      var next := Table(t.slots[t.cur := entry], t.cur + 1);
      (next, Ok(Pred16(next.cur)))
  }

  /** `reset`: zero the slots in use and rewind the cursor. */
  function Reset(t: Table): (r: Table)
    requires t.cur <= |t.slots|
    ensures r.cur == 0 && |r.slots| == |t.slots|
    ensures forall i | 0 <= i < |t.slots| :: r.slots[i] == if i < t.cur then 0 else t.slots[i]
  {
    Table(seq(t.cur, _ => 0) + t.slots[t.cur..], 0)
  }

  /** What the add loop does to a valid table with c entries: it succeeds
      iff every entry fits below LEN - 1; either way the entries it managed
      to add follow the old ones, and slots past them are untouched. */
  predicate AddAllEffect(t: Table, src: seq<u64>, r: (Table, Result<(), string>))
    requires Valid(t)
  {
    var fit := if t.cur + |src| <= |t.slots| - 1 then |src| else |t.slots| - 1 - t.cur;
    && |r.0.slots| == |t.slots| && Valid(r.0)
    && (r.1.Ok? <==> t.cur + |src| <= |t.slots| - 1)
    && r.0.cur == t.cur + fit
    && Entries(r.0) == Entries(t) + src[..fit]
    && (forall i | r.0.cur <= i < |t.slots| :: r.0.slots[i] == t.slots[i])
  }

  /** The loop of `replace` after the reset: add each entry in order and stop
      at the first error, keeping what was already written. */
  function AddAll(t: Table, src: seq<u64>): (r: (Table, Result<(), string>))
    requires 1 <= |t.slots|
    ensures |r.0.slots| == |t.slots|
    ensures r.1.Err? ==> r.1.error == OverflowMsg
    ensures Valid(t) ==> AddAllEffect(t, src, r)
    decreases |src|
  {
    if |src| == 0 then
      (t, Ok(()))
    else
      var (next, res) := Add(t, src[0]);
      if res.Err? then (next, Err(res.error))
      else
        var r := AddAll(next, src[1..]);
        if Valid(t) then
          AddAppends(t, src[0]);
          AddAllStep(t, src, next, r);
          r
        else
          r
  }

  /** One successful add followed by the rest of the loop: the entries the
      rest adds come after `src[0]`. */
  lemma AddAllStep(t: Table, src: seq<u64>, next: Table, r: (Table, Result<(), string>))
    requires Valid(t) && |src| > 0 && t.cur < |t.slots| - 1
    requires next == Add(t, src[0]).0 && Valid(next)
    requires Entries(next) == Entries(t) + [src[0]]
    requires AddAllEffect(next, src[1..], r)
    ensures AddAllEffect(t, src, r)
  {
    var fit := if t.cur + |src| <= |t.slots| - 1 then |src| else |t.slots| - 1 - t.cur;
    assert src[..fit] == [src[0]] + src[1..][..fit - 1];
    assert Entries(r.0) == Entries(t) + ([src[0]] + src[1..][..fit - 1]);
  }

  /** `replace(src)` succeeds iff src fits in LEN - 1 slots; then the table
      holds exactly src. On overflow it is not rolled back: the first
      LEN - 1 entries of src are in place and the cursor is LEN - 1. */
  function Replace(t: Table, src: seq<u64>): (r: (Table, Result<(), string>))
    requires Valid(t)
    ensures |r.0.slots| == |t.slots| && Valid(r.0)
    ensures r.1.Ok? <==> |src| <= |t.slots| - 1
    ensures r.1.Ok? ==> r.0.cur == |src| && Entries(r.0) == src
    ensures r.1.Err? ==> r.0.cur == |t.slots| - 1 && Entries(r.0) == src[..|t.slots| - 1] && r.1.error == OverflowMsg
    ensures forall i | r.0.cur <= i < |t.slots| :: r.0.slots[i] == if i < t.cur then 0 else t.slots[i]
  {
    ResetEmpties(t);
    AddAll(Reset(t), src)
  }

  // ---------------------------------------------------------------------
  // The table as a list of entries

  /** `add` appends to the entries in use, and keeps the cursor invariant. */
  lemma AddAppends(t: Table, entry: u64)
    requires Valid(t)
    ensures var (next, res) := Add(t, entry);
      Valid(next) &&
      if res.Ok? then Entries(next) == Entries(t) + [entry] && (t.cur < 0xFFFF ==> res.value == t.cur)
      else next == t
  {
    var (next, res) := Add(t, entry);
    if res.Ok? {
      assert Entries(next) == Entries(t) + [entry] by {
        forall i | 0 <= i < next.cur
          ensures Entries(next)[i] == (Entries(t) + [entry])[i]
        {
        }
      }
    }
  }

  /** `reset` empties the list and keeps the cursor invariant. */
  lemma ResetEmpties(t: Table)
    requires Valid(t)
    ensures Valid(Reset(t)) && Entries(Reset(t)) == []
  {
  }

  // ---------------------------------------------------------------------
  // replace is not atomic

  /** On a two-slot table, replacing with two entries fails after the first
      entry has been written: the table is neither the old one, nor the new
      one, nor the reset one. */
  lemma ReplaceNotAtomic()
    ensures Replace(Table([0, 0], 0), [7, 8]) == (Table([7, 0], 1), Err(OverflowMsg))
    ensures Entries(Table([7, 0], 1)) == [7] != Entries(Reset(Table([0, 0], 0)))
  {
    var t := Table([0, 0], 0);
    assert Reset(t).slots == seq(0, _ => 0) + [0, 0][0..];
    assert Reset(t).slots == [0, 0];
    assert Reset(t) == t;
    assert [0, 0][0 := 7] == [7, 0];
    assert Add(t, 7) == (Table([7, 0], 1), Ok(0));
    assert [7, 8][1..] == [8];
    assert Add(Table([7, 0], 1), 8) == (Table([7, 0], 1), Err(OverflowMsg));
  }

  /** `replace` that fails as a whole: the length is checked first, and a
      list that does not fit leaves the table reset, with no entry of it
      added. */
  function ReplaceAtomic(t: Table, src: seq<u64>): (r: (Table, Result<(), string>))
    requires Valid(t)
  {
    if |src| > |t.slots| - 1 then (Reset(t), Err(OverflowMsg)) else Replace(t, src)
  }

  /** Either the table holds exactly src, or it is left reset: empty, with
      the slots that were in use zeroed and the others as they were. */
  lemma ReplaceAtomicSpec(t: Table, src: seq<u64>)
    requires Valid(t)
    ensures var (r, res) := ReplaceAtomic(t, src);
      && Valid(r)
      && (res.Ok? <==> |src| <= |t.slots| - 1)
      && (res.Ok? ==> r.cur == |src| && Entries(r) == src)
      && (res.Err? ==> r == Reset(t) && Entries(r) == [] && res.error == OverflowMsg)
  {
    ResetEmpties(t);
  }
}
