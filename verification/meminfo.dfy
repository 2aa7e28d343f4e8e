/** The usable physical memory (i386/src/mem/info.rs, i386/src/mem.rs): the
    ranges of the E820 map that the firmware marks as usable RAM, each as
    a start, an end and a length, in map order. */
module MemInfo {
  import opened Bits
  import opened Results
  import opened E820
  import opened Mem

  /** The filter of `From<E820MemInfo>`: type AddressRangeMemory. */
  predicate Usable(r: E820Range)
  {
    r.ty == AddressRangeMemory
  }

  /** `base + len` is a `u64` addition, which may not overflow. */
  predicate Fits(r: E820Range)
  {
    r.base + r.len <= 0xFFFF_FFFF_FFFF_FFFF
  }

  /** Every usable range in `rs` fits. */
  predicate AllFit(rs: seq<E820Range>)
  {
    forall i | 0 <= i < |rs| :: Usable(rs[i]) ==> Fits(rs[i])
  }

  /** The map of `From<E820MemInfo>`: start, length and end of one range. */
  function Seg(r: E820Range): (m: MemRange)
    requires Fits(r)
    ensures m == NewRange(r.base, r.base + r.len)
  {
    MemRange(r.base, r.base + r.len, r.len)
  }

  /** `filter(..).map(..).collect()`: each usable range, in order, pushed
      onto the end of the vector. */
  function Segs(rs: seq<E820Range>): (segs: seq<MemRange>)
    requires AllFit(rs)
    ensures |segs| <= |rs|
  {
    if rs == [] then []
    else
      var init := rs[..|rs| - 1];
      var last := rs[|rs| - 1];
      InitFits(rs);
      Segs(init) + (if Usable(last) then [Seg(last)] else [])
  }

  /** The positions of the usable ranges, in increasing order: every
      position is one, and every usable range's position is listed. */
  function Picks(rs: seq<E820Range>): (ps: seq<nat>)
    ensures forall j | 0 <= j < |ps| :: ps[j] < |rs| && Usable(rs[ps[j]])
    ensures forall j, k | 0 <= j < k < |ps| :: ps[j] < ps[k]
    ensures forall i | 0 <= i < |rs| && Usable(rs[i]) :: i in ps
  {
    if rs == [] then []
    else
      var ps := Picks(rs[..|rs| - 1]);
      PicksExtend(rs, ps);
      ps + (if Usable(rs[|rs| - 1]) then [|rs| - 1] else [])
  }

  /** The three clauses of Picks' contract. */
  predicate PicksOf(ps: seq<nat>, rs: seq<E820Range>)
  {
    && (forall j | 0 <= j < |ps| :: ps[j] < |rs| && Usable(rs[ps[j]]))
    && (forall j, k | 0 <= j < k < |ps| :: ps[j] < ps[k])
    && (forall i | 0 <= i < |rs| && Usable(rs[i]) :: i in ps)
  }

  /** The positions for all but the last range, followed by the last
      position when that range is usable, are the positions for all. */
  lemma PicksExtend(rs: seq<E820Range>, ps: seq<nat>)
    requires rs != [] && PicksOf(ps, rs[..|rs| - 1])
    ensures PicksOf(ps + (if Usable(rs[|rs| - 1]) then [|rs| - 1] else []), rs)
  {
    var init := rs[..|rs| - 1];
    assert forall j | 0 <= j < |ps| :: rs[ps[j]] == init[ps[j]];
    assert forall i | 0 <= i < |rs| - 1 :: rs[i] == init[i];
  }

  /** The prefix without the last range still fits. */
  lemma InitFits(rs: seq<E820Range>)
    requires rs != [] && AllFit(rs)
    ensures AllFit(rs[..|rs| - 1])
  {
    var init := rs[..|rs| - 1];
    forall i | 0 <= i < |init| && Usable(init[i])
      ensures Fits(init[i])
    {
      assert init[i] == rs[i];
    }
  }

  /** `segs[j]` is made from the range at position `ps[j]` of `rs`. */
  predicate Paired(segs: seq<MemRange>, ps: seq<nat>, rs: seq<E820Range>)
  {
    && |segs| == |ps|
    && forall j | 0 <= j < |segs| :: ps[j] < |rs| && Fits(rs[ps[j]]) && segs[j] == Seg(rs[ps[j]])
  }

  /** The segments are exactly the usable ranges, in order: the j-th
      segment is made from the j-th usable range. */
  lemma {:induction false} SegsArePicks(rs: seq<E820Range>)
    requires AllFit(rs)
    ensures Paired(Segs(rs), Picks(rs), rs)
  {
    if rs != [] {
      var init := rs[..|rs| - 1];
      var last := rs[|rs| - 1];
      InitFits(rs);
      SegsArePicks(init);
      assert Segs(rs) == Segs(init) + (if Usable(last) then [Seg(last)] else []);
      PairedExtend(Segs(init), Picks(init), rs, Usable(last));
    }
  }

  /** Pairing survives one more range, paired with its position when it is
      usable. */
  lemma PairedExtend(segs: seq<MemRange>, ps: seq<nat>, rs: seq<E820Range>, usable: bool)
    requires rs != [] && Paired(segs, ps, rs[..|rs| - 1])
    requires usable ==> Fits(rs[|rs| - 1])
    ensures var n := |rs| - 1;
      Paired(segs + (if usable then [Seg(rs[n])] else []), ps + (if usable then [n] else []), rs)
  {
    var n := |rs| - 1;
    var segs', ps' := segs + (if usable then [Seg(rs[n])] else []), ps + (if usable then [n] else []);
    forall j | 0 <= j < |segs'|
      ensures ps'[j] < |rs| && Fits(rs[ps'[j]]) && segs'[j] == Seg(rs[ps'[j]])
    {
      if j < |segs| {
        assert rs[..n][ps[j]] == rs[ps[j]];
      }
    }
  }

  /** `From<E820MemInfo<MAX>> for PhysMemInfo`: the usable ranges among
      `get_ranges()`, whose `unwrap` needs a valid record. */
  function FromE820(info: E820MemInfo): (segs: seq<MemRange>)
    requires Valid(info) && AllFit(info.ranges[..info.len])
    ensures |segs| <= info.len
  {
    Segs(GetRanges(info).value)
  }

  /** The j-th segment starts at the j-th usable range's base, has its
      length and ends at base + length; usable ranges are all there, in
      the order of the map, and nothing at or past `len` is looked at. */
  lemma FromE820Segs(info: E820MemInfo)
    requires Valid(info) && AllFit(info.ranges[..info.len])
    ensures var segs, ps := FromE820(info), Picks(info.ranges[..info.len]);
      && |segs| == |ps|
      && (forall j | 0 <= j < |segs| ::
            && ps[j] < info.len && Usable(info.ranges[ps[j]])
            && segs[j].start == info.ranges[ps[j]].base
            && segs[j].len == info.ranges[ps[j]].len
            && segs[j].end == info.ranges[ps[j]].base + info.ranges[ps[j]].len)
      && (forall j, k | 0 <= j < k < |segs| :: ps[j] < ps[k])
      && (forall i | 0 <= i < info.len && Usable(info.ranges[i]) :: i in ps)
  {
    var rs := info.ranges[..info.len];
    assert GetRanges(info).value == rs;
    SegsArePicks(rs);
    assert Paired(FromE820(info), Picks(rs), rs);
    assert forall j | 0 <= j < |Picks(rs)| :: rs[Picks(rs)[j]] == info.ranges[Picks(rs)[j]];
  }

  /** Entries at or past `len` never contribute: two records that agree
      on their first `len` ranges give the same segments. */
  lemma PastLenIgnored(a: E820MemInfo, b: E820MemInfo)
    requires Valid(a) && AllFit(a.ranges[..a.len])
    requires b.len == a.len <= |b.ranges| && b.ranges[..b.len] == a.ranges[..a.len]
    ensures AllFit(b.ranges[..b.len]) && FromE820(b) == FromE820(a)
  {
  }
}
