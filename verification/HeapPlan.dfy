/** The entries __libcfe_meminit makes of the memory regions, and what holds of the list of
    all of them. */
module HeapPlan {
  import opened Words
  import opened PairSizes

  const VA_START := 0x10_0000
  const USIZE := 0x8000_0000
  const K_NTLBENTRIES := 64
  const PA_LIMIT := 0x100_0000_0000     // physical addresses have 40 bits

  /** The two settings: MAX_WASTED_PAGESIZE_INDEX and MAX_TLB_ENTRIES_USED. */
  datatype Setup = Setup(waste: nat, entries: nat)

  predicate GoodSetup(u: Setup) {
    MIN_INDEX <= u.waste <= MAX_INDEX && 1 <= u.entries <= K_NTLBENTRIES
  }

  /** A stretch of physical memory. */
  datatype Region = Region(pa: U64, length: U64)

  /** One TLB entry: size bytes at va, half of it for each page; pa: the first page's memory.
      half: only that page is backed, and the entry is written with its valid bits clear. */
  datatype Mapping = Mapping(va: nat, pa: U64, size: nat, half: bool)

  /** Where the mapping loop stands: next entry, address mapped last, address to map next. */
  datatype Cursor = Cursor(index: nat, prev: nat, va: nat)

  const START := Cursor(0, VA_START, VA_START)

  /** va + size under the mask that clears all but the low 31 bits. */
  function NextVa(va: nat, size: nat): nat { (va + size) % USIZE }

  /** The next entry made of memLeft bytes at pa. */
  function Head(c: Cursor, pa: U64, memLeft: U64): Mapping {
    Mapping(c.va, pa, PairSize(c.va, memLeft), MIN_PAGE <= memLeft < MIN_PAIR)
  }

  function LeftAfter(memLeft: U64, m: Mapping): U64 {
    if m.half then 0 else Wrap(memLeft - m.size)
  }

  function Advance(c: Cursor, m: Mapping): Cursor {
    Cursor(c.index + 1, c.va, NextVa(c.va, m.size))
  }

  /** Whether the mapping loop goes round again. */
  predicate MoreToMap(c: Cursor, memLeft: U64, u: Setup) {
    memLeft >= Pow2(u.waste) && c.index < u.entries && c.prev <= c.va
  }

  /** The entries made of memLeft bytes at pa. */
  function MapRegion(c: Cursor, pa: U64, memLeft: U64, u: Setup): seq<Mapping>
    decreases u.entries - c.index
  {
    if MoreToMap(c, memLeft, u) then
      var m := Head(c, pa, memLeft);
      [m] + MapRegion(Advance(c, m), Wrap(pa + m.size), LeftAfter(memLeft, m), u)
    else []
  }

  /** The cursor after the entries ms. */
  function After(c: Cursor, ms: seq<Mapping>): Cursor {
    if ms == [] then c
    else
      var m := ms[|ms| - 1];
      Cursor(c.index + |ms|, m.va, NextVa(m.va, m.size))
  }

  /** The entries made of all regions, the last region first. */
  function MapAll(c: Cursor, regions: seq<Region>, u: Setup): seq<Mapping>
    decreases |regions|
  {
    if regions == [] then []
    else
      var n := |regions| - 1;
      var ms := MapRegion(c, regions[n].pa, regions[n].length, u);
      ms + MapAll(After(c, ms), regions[..n], u)
  }

  // ----- Virtual addresses

  function Total(ms: seq<Mapping>): nat {
    if ms == [] then 0 else ms[0].size + Total(ms[1..])
  }

  /** The size is legal and the address aligned to it. */
  predicate GoodMapping(m: Mapping) {
    LegalPair(m.size) && AlignedTo(m.va, m.size)
  }

  /** ms covers consecutive addresses from va on by good mappings. */
  predicate Tiles(ms: seq<Mapping>, va: nat) {
    ms != [] ==> ms[0].va == va && GoodMapping(ms[0]) && Tiles(ms[1..], va + ms[0].size)
  }

  /** How far the first j entries can reach: they at most double the address while it is
      below the largest pair, and add one such pair each after that. */
  function Reach(j: nat): nat {
    if j <= 5 then VA_START * Pow2(j) else MAX_PAIR * (j - 4)
  }

  predicate GoodCursor(c: Cursor, u: Setup) {
    && c.index <= u.entries && c.prev <= c.va && c.va % MIN_PAIR == 0
    && VA_START <= c.va <= Reach(c.index)
  }

  lemma ReachBound(j: nat)
    requires j <= K_NTLBENTRIES
    ensures Reach(j) < USIZE
    ensures j < 5 ==> Reach(j + 1) == 2 * Reach(j)
    ensures j >= 5 ==> Reach(j + 1) == Reach(j) + MAX_PAIR
  {
    assert Pow2(1) == 2 && Pow2(2) == 4 && Pow2(3) == 8 && Pow2(4) == 16;
    assert Pow2(5) == 32;
    assert j in {0, 1, 2, 3, 4, 5} || j > 5;
  }

  /** An aligned pair after j entries stays within reach of j + 1. */
  lemma ReachStep(j: nat, va: nat, p: nat)
    requires j < K_NTLBENTRIES && VA_START <= va <= Reach(j) && LegalPair(p) && AlignedTo(va, p)
    ensures va + p <= Reach(j + 1) < USIZE
  {
    AlignedBounds(va, p);
    ReachBound(j);
    ReachBound(j + 1);
  }

  /** No legal size that the address is aligned to and that fits in memLeft bytes is larger. */
  predicate Largest(m: Mapping, memLeft: nat) {
    forall q :: LegalPair(q) && AlignedTo(m.va, q) && q <= memLeft ==> q <= m.size
  }

  /** What the choice of sizes guarantees of the entry made next. */
  predicate Chosen(m: Mapping, c: Cursor, pa: U64, memLeft: U64) {
    && m.va == c.va && m.pa == pa && GoodMapping(m)
    && (m.size <= memLeft || m.size == MIN_PAIR) && Largest(m, memLeft)
    && m.half == (MIN_PAGE <= memLeft < MIN_PAIR)
  }

  /** ms is made by the mapping loop with chosen sizes, and then the loop stops. */
  predicate Follows(ms: seq<Mapping>, c: Cursor, pa: U64, memLeft: U64, u: Setup) {
    if ms == [] then !MoreToMap(c, memLeft, u)
    else
      && MoreToMap(c, memLeft, u) && Chosen(ms[0], c, pa, memLeft)
      && Follows(ms[1..], Advance(c, ms[0]), Wrap(pa + ms[0].size), LeftAfter(memLeft, ms[0]), u)
  }

  lemma HeadChosen(c: Cursor, pa: U64, memLeft: U64)
    requires c.va % MIN_PAIR == 0
    ensures Chosen(Head(c, pa, memLeft), c, pa, memLeft)
  {
    GreedyIsLargest(c.va, memLeft);
  }

  /** One more entry: the mask never alters the address, and the guard on it stays true. */
  lemma AdvanceGood(c: Cursor, m: Mapping, u: Setup)
    requires GoodSetup(u) && GoodCursor(c, u) && c.index < u.entries
    requires m.va == c.va && GoodMapping(m)
    ensures Advance(c, m).va == c.va + m.size < USIZE && GoodCursor(Advance(c, m), u)
  {
    ReachStep(c.index, c.va, m.size);
    AlignedBounds(c.va, m.size);
  }

  lemma AfterCons(c: Cursor, m: Mapping, ms: seq<Mapping>)
    requires m.va == c.va
    ensures After(c, [m] + ms) == After(Advance(c, m), ms)
  {
  }

  /** The entries ms tile the addresses from c on and end within reach. */
  predicate TilesFrom(c: Cursor, ms: seq<Mapping>, u: Setup) {
    && Tiles(ms, c.va) && GoodCursor(After(c, ms), u)
    && After(c, ms).va == c.va + Total(ms) && After(c, ms).index == c.index + |ms|
  }

  lemma TilesCons(c: Cursor, m: Mapping, ms: seq<Mapping>, u: Setup)
    requires m.va == c.va && GoodMapping(m) && Advance(c, m).va == c.va + m.size
    requires TilesFrom(Advance(c, m), ms, u)
    ensures TilesFrom(c, [m] + ms, u)
  {
    AfterCons(c, m, ms);
    assert ([m] + ms)[1..] == ms;
  }

  predicate HasHalf(ms: seq<Mapping>) {
    exists k :: 0 <= k < |ms| && ms[k].half
  }

  lemma {:induction false} MapRegionFollows(c: Cursor, pa: U64, memLeft: U64, u: Setup)
    requires GoodSetup(u) && GoodCursor(c, u)
    ensures Follows(MapRegion(c, pa, memLeft, u), c, pa, memLeft, u)
    decreases u.entries - c.index
  {
    hide PairSize, Pow2, Reach, NextVa, Wrap;
    if MoreToMap(c, memLeft, u) {
      var m := Head(c, pa, memLeft);
      HeadChosen(c, pa, memLeft);
      AdvanceGood(c, m, u);
      MapRegionFollows(Advance(c, m), Wrap(pa + m.size), LeftAfter(memLeft, m), u);
    }
  }

  lemma {:induction false} FollowsTiles(ms: seq<Mapping>, c: Cursor, pa: U64, memLeft: U64, u: Setup)
    requires GoodSetup(u) && GoodCursor(c, u) && Follows(ms, c, pa, memLeft, u)
    ensures TilesFrom(c, ms, u)
  {
    if ms != [] {
      var m := ms[0];
      AdvanceGood(c, m, u);
      FollowsTiles(ms[1..], Advance(c, m), Wrap(pa + m.size), LeftAfter(memLeft, m), u);
      TilesCons(c, m, ms[1..], u);
      assert [m] + ms[1..] == ms;
    }
  }

  lemma {:induction false} TilesConcat(a: seq<Mapping>, b: seq<Mapping>, va: nat)
    requires Tiles(a, va) && Tiles(b, va + Total(a))
    ensures Tiles(a + b, va) && Total(a + b) == Total(a) + Total(b)
  {
    if a == [] {
      assert a + b == b;
    } else {
      assert (a + b)[1..] == a[1..] + b;
      TilesConcat(a[1..], b, va + a[0].size);
    }
  }

  /** The entries for all regions tile the addresses from the cursor on, within the entries
      allowed and so below 2 GB. */
  lemma {:induction false} MapAllTiles(c: Cursor, regions: seq<Region>, u: Setup)
    requires GoodSetup(u) && GoodCursor(c, u)
    ensures TilesFrom(c, MapAll(c, regions, u), u)
    decreases |regions|
  {
    if regions != [] {
      var n := |regions| - 1;
      var a := MapRegion(c, regions[n].pa, regions[n].length, u);
      MapRegionFollows(c, regions[n].pa, regions[n].length, u);
      FollowsTiles(a, c, regions[n].pa, regions[n].length, u);
      var b := MapAll(After(c, a), regions[..n], u);
      MapAllTiles(After(c, a), regions[..n], u);
      TilesFromConcat(c, a, b, u);
    }
  }

  lemma TilesFromConcat(c: Cursor, a: seq<Mapping>, b: seq<Mapping>, u: Setup)
    requires TilesFrom(c, a, u) && TilesFrom(After(c, a), b, u)
    ensures TilesFrom(c, a + b, u)
  {
    TilesConcat(a, b, c.va);
    AfterConcat(c, a, b);
  }

  lemma AfterConcat(c: Cursor, a: seq<Mapping>, b: seq<Mapping>)
    ensures After(c, a + b) == After(After(c, a), b)
  {
    if b == [] {
      assert a + b == a;
    }
  }

  lemma StartGood(u: Setup)
    requires GoodSetup(u)
    ensures GoodCursor(START, u)
  {
  }

  predicate Maps(m: Mapping, x: int) { m.va <= x < m.va + m.size }

  lemma {:induction false} TilesInside(ms: seq<Mapping>, va: nat, k: nat)
    requires Tiles(ms, va) && k < |ms|
    ensures va <= ms[k].va && ms[k].va + ms[k].size <= va + Total(ms)
    ensures GoodMapping(ms[k])
  {
    if k > 0 {
      TilesInside(ms[1..], va + ms[0].size, k - 1);
    }
  }

  /** Every address tiled lies in exactly one entry. */
  lemma {:induction false} ExactlyOne(ms: seq<Mapping>, va: nat, x: nat) returns (k: nat)
    requires Tiles(ms, va) && va <= x < va + Total(ms)
    ensures k < |ms| && forall j :: 0 <= j < |ms| ==> (Maps(ms[j], x) <==> j == k)
  {
    if x < va + ms[0].size {
      k := 0;
      forall j | 0 < j < |ms|
        ensures !Maps(ms[j], x)
      {
        TilesInside(ms[1..], va + ms[0].size, j - 1);
      }
    } else {
      var l := ExactlyOne(ms[1..], va + ms[0].size, x);
      k := l + 1;
      assert forall j :: 0 < j < |ms| ==> ms[j] == ms[1..][j - 1];
    }
  }

  // ----- Physical memory

  /** How many of its bytes an entry backs with memory. */
  function Backed(m: Mapping): nat { if m.half then MIN_PAGE else m.size }

  function BackedTotal(ms: seq<Mapping>): nat {
    if ms == [] then 0 else Backed(ms[0]) + BackedTotal(ms[1..])
  }

  /** ms hands out the first bytes of memLeft bytes at pa, each once and in order. */
  predicate Carves(ms: seq<Mapping>, pa: nat, memLeft: nat) {
    ms != [] ==>
      && ms[0].pa == pa && Backed(ms[0]) <= memLeft
      && Carves(ms[1..], pa + ms[0].size, memLeft - Backed(ms[0]))
  }

  predicate Inside(m: Mapping, pa: nat, length: nat) {
    pa <= m.pa && m.pa + Backed(m) <= pa + length
  }

  predicate Apart(m: Mapping, m': Mapping) {
    m.pa + Backed(m) <= m'.pa || m'.pa + Backed(m') <= m.pa
  }

  lemma WasteValues(waste: nat)
    requires MIN_INDEX <= waste <= MAX_INDEX
    ensures Pow2(waste) >= MIN_PAGE && (waste > MIN_INDEX ==> Pow2(waste) >= MIN_PAIR)
  {
    PairValues();
    assert Pow2(14) == 0x4000 && Pow2(26) == 0x400_0000;
    assert waste in {12, 13, 14, 15, 16, 17, 18, 19, 20, 21, 22, 23, 24, 25, 26};
  }

  /** ms is all of memLeft bytes but less than the waste allowed, unless the TLB is full. */
  predicate UsesUp(ms: seq<Mapping>, index: nat, memLeft: nat, u: Setup) {
    && BackedTotal(ms) <= memLeft
    && (memLeft - BackedTotal(ms) < Pow2(u.waste) || index + |ms| == u.entries)
  }

  /** Memory for the entries left in the TLB cannot run past the end of the address space. */
  predicate RoomFor(pa: nat, slots: nat) { pa + slots * MAX_PAIR < W64 }

  lemma RoomLeft(pa: nat, slots: nat, size: nat)
    requires slots > 0 && RoomFor(pa, slots) && size <= MAX_PAIR
    ensures RoomFor(pa + size, slots - 1) && pa + size < W64
  {
  }

  /** One round of the mapping loop, as far as memory goes: the subtraction never wraps. */
  lemma CarveStep(m: Mapping, c: Cursor, pa: U64, memLeft: U64, u: Setup)
    requires GoodSetup(u) && MoreToMap(c, memLeft, u) && Chosen(m, c, pa, memLeft)
    requires RoomFor(pa, u.entries - c.index)
    ensures Backed(m) <= memLeft
    ensures RoomFor(pa + m.size, u.entries - c.index - 1) && Wrap(pa + m.size) == pa + m.size
    ensures if m.half then LeftAfter(memLeft, m) == 0 && memLeft - Backed(m) < Pow2(u.waste)
            else LeftAfter(memLeft, m) == memLeft - Backed(m)
  {
    WasteValues(u.waste);
    AlignedBounds(m.va, m.size);
    RoomLeft(pa, u.entries - c.index, m.size);
  }

  /** What is carved out of one region: never more than it has, and all of it except less than
      the waste allowed, unless the TLB is full. */
  lemma {:induction false} FollowsCarves(ms: seq<Mapping>, c: Cursor, pa: U64, memLeft: U64, u: Setup)
    requires GoodSetup(u) && GoodCursor(c, u) && RoomFor(pa, u.entries - c.index)
    requires Follows(ms, c, pa, memLeft, u)
    ensures Carves(ms, pa, memLeft) && UsesUp(ms, c.index, memLeft, u)
  {
    if ms != [] {
      var m := ms[0];
      CarveStep(m, c, pa, memLeft, u);
      AdvanceGood(c, m, u);
      FollowsCarves(ms[1..], Advance(c, m), pa + m.size, LeftAfter(memLeft, m), u);
      assert [m] + ms[1..] == ms;
    }
  }

  /** Entry k of a region is made only while the waste allowed is left, and is the largest that
      the address reached and the memory left allow; it is a half one when that is one page. */
  lemma {:induction false} EntryAt(ms: seq<Mapping>, c: Cursor, pa: U64, memLeft: U64, u: Setup, k: nat)
    requires GoodSetup(u) && GoodCursor(c, u) && RoomFor(pa, u.entries - c.index)
    requires Follows(ms, c, pa, memLeft, u) && k < |ms|
    ensures var left := memLeft - BackedTotal(ms[..k]);
            && left >= Pow2(u.waste) && (ms[k].half <==> left < MIN_PAIR)
            && GoodMapping(ms[k]) && Largest(ms[k], left)
    ensures ms[k].va == c.va + Total(ms[..k]) && ms[k].pa == pa + Total(ms[..k])
  {
    hide GoodMapping, Largest, Pow2, Reach;
    var m := ms[0];
    WasteValues(u.waste);
    if k == 0 {
      assert ms[..0] == [];
    } else {
      CarveStep(m, c, pa, memLeft, u);
      AdvanceGood(c, m, u);
      HalfOnlyLast(ms, c, pa, memLeft, u, 0);
      assert ms[..k][1..] == ms[1..][..k - 1] && ms[..k][0] == m;
      EntryAt(ms[1..], Advance(c, m), pa + m.size, LeftAfter(memLeft, m), u, k - 1);
    }
  }

  lemma RegionEntryAt(c: Cursor, pa: U64, length: U64, u: Setup, k: nat)
    requires GoodSetup(u) && GoodCursor(c, u) && pa < 2 * PA_LIMIT && k < |MapRegion(c, pa, length, u)|
    ensures var ms := MapRegion(c, pa, length, u);
            var left := length - BackedTotal(ms[..k]);
            && left >= Pow2(u.waste) && (ms[k].half <==> left < MIN_PAIR)
            && GoodMapping(ms[k]) && Largest(ms[k], left)
            && ms[k].va == c.va + Total(ms[..k]) && ms[k].pa == pa + Total(ms[..k])
  {
    hide MapRegion, Follows, GoodMapping, Largest, Pow2, GoodCursor;
    MapRegionFollows(c, pa, length, u);
    EntryAt(MapRegion(c, pa, length, u), c, pa, length, u, k);
  }

  lemma {:induction false} CarvedInside(ms: seq<Mapping>, pa: nat, memLeft: nat, k: nat)
    requires Carves(ms, pa, memLeft) && k < |ms|
    requires forall i :: 0 <= i < |ms| ==> ms[i].half ==> i == |ms| - 1 && ms[i].size >= MIN_PAIR
    ensures Inside(ms[k], pa, memLeft)
    ensures forall l :: k < l < |ms| ==> Apart(ms[k], ms[l])
  {
    if k > 0 {
      CarvedInside(ms[1..], pa + ms[0].size, memLeft - Backed(ms[0]), k - 1);
      assert forall l :: k < l < |ms| ==> ms[l] == ms[1..][l - 1];
    } else {
      forall l | 0 < l < |ms|
        ensures Apart(ms[0], ms[l])
      {
        CarvedInside(ms[1..], pa + ms[0].size, memLeft - Backed(ms[0]), l - 1);
      }
    }
  }

  /** Half an entry is made only for the last page of a region, and only when 4 KB pages may
      not be wasted. */
  lemma {:induction false} HalfOnlyLast(ms: seq<Mapping>, c: Cursor, pa: U64, memLeft: U64, u: Setup, i: nat)
    requires GoodSetup(u) && Follows(ms, c, pa, memLeft, u) && i < |ms|
    ensures ms[i].size >= MIN_PAIR
    ensures ms[i].half ==> i == |ms| - 1 && u.waste == MIN_INDEX
  {
    WasteValues(u.waste);
    if i > 0 {
      HalfOnlyLast(ms[1..], Advance(c, ms[0]), Wrap(pa + ms[0].size), LeftAfter(memLeft, ms[0]), u, i - 1);
    }
  }

  predicate Separate(r: Region, r': Region) {
    r.pa + r.length <= r'.pa || r'.pa + r'.length <= r.pa
  }

  predicate AllSeparate(regions: seq<Region>) {
    forall i, j :: 0 <= i < j < |regions| ==> Separate(regions[i], regions[j])
  }

  predicate AllLow(regions: seq<Region>) {
    forall i :: 0 <= i < |regions| ==> regions[i].pa < 2 * PA_LIMIT
  }

  predicate InSome(m: Mapping, regions: seq<Region>) {
    exists i :: 0 <= i < |regions| && Inside(m, regions[i].pa, regions[i].length)
  }

  function LengthTotal(regions: seq<Region>): nat {
    if regions == [] then 0
    else LengthTotal(regions[..|regions| - 1]) + regions[|regions| - 1].length
  }

  lemma RegionMemory(c: Cursor, r: Region, u: Setup)
    requires GoodSetup(u) && GoodCursor(c, u) && r.pa < 2 * PA_LIMIT
    ensures var ms := MapRegion(c, r.pa, r.length, u);
            && (forall k :: 0 <= k < |ms| ==> Inside(ms[k], r.pa, r.length))
            && AllApart(ms)
            && UsesUp(ms, c.index, r.length, u)
  {
    var ms := MapRegion(c, r.pa, r.length, u);
    MapRegionFollows(c, r.pa, r.length, u);
    FollowsCarves(ms, c, r.pa, r.length, u);
    forall i | 0 <= i < |ms|
      ensures ms[i].half ==> i == |ms| - 1 && ms[i].size >= MIN_PAIR
    {
      HalfOnlyLast(ms, c, r.pa, r.length, u, i);
    }
    forall k | 0 <= k < |ms|
      ensures Inside(ms[k], r.pa, r.length) && forall l :: k < l < |ms| ==> Apart(ms[k], ms[l])
    {
      CarvedInside(ms, r.pa, r.length, k);
    }
  }

  lemma {:induction false} BackedConcat(a: seq<Mapping>, b: seq<Mapping>)
    ensures BackedTotal(a + b) == BackedTotal(a) + BackedTotal(b)
  {
    if a == [] {
      assert a + b == b;
    } else {
      assert (a + b)[1..] == a[1..] + b;
      BackedConcat(a[1..], b);
    }
  }

  /** Entries from a, inside one region, and from b, inside others that are separate from it. */
  lemma ApartConcat(a: seq<Mapping>, b: seq<Mapping>, regions: seq<Region>, r: Region)
    requires AllSeparate(regions + [r])
    requires forall k :: 0 <= k < |a| ==> Inside(a[k], r.pa, r.length)
    requires forall k :: 0 <= k < |b| ==> InSome(b[k], regions)
    ensures forall k :: 0 <= k < |a + b| ==> InSome((a + b)[k], regions + [r])
    ensures forall k, l :: 0 <= k < |a| && 0 <= l < |b| ==> Apart(a[k], b[l])
  {
    var all := regions + [r];
    forall m | Inside(m, r.pa, r.length)
      ensures InSome(m, all)
    {
      assert all[|regions|] == r;
    }
    forall l | 0 <= l < |b|
      ensures InSome(b[l], all) && forall m :: Inside(m, r.pa, r.length) ==> Apart(m, b[l])
    {
      InAnother(b[l], regions, r);
    }
  }

  lemma InAnother(m: Mapping, regions: seq<Region>, r: Region)
    requires AllSeparate(regions + [r]) && InSome(m, regions)
    ensures InSome(m, regions + [r])
    ensures forall m' :: Inside(m', r.pa, r.length) ==> Apart(m', m)
  {
    var i :| 0 <= i < |regions| && Inside(m, regions[i].pa, regions[i].length);
    var all := regions + [r];
    assert all[i] == regions[i] && all[|regions|] == r;
    assert Separate(all[i], all[|regions|]);
  }

  predicate AllApart(ms: seq<Mapping>) {
    forall k, l :: 0 <= k < l < |ms| ==> Apart(ms[k], ms[l])
  }

  lemma AllApartConcat(a: seq<Mapping>, b: seq<Mapping>)
    requires AllApart(a) && AllApart(b)
    requires forall k, l :: 0 <= k < |a| && 0 <= l < |b| ==> Apart(a[k], b[l])
    ensures AllApart(a + b)
  {
    var ms := a + b;
    forall k, l | 0 <= k < l < |ms|
      ensures Apart(ms[k], ms[l])
    {
      if k >= |a| {
        assert ms[k] == b[k - |a|] && ms[l] == b[l - |a|];
      } else if l >= |a| {
        assert ms[k] == a[k] && ms[l] == b[l - |a|];
      }
    }
  }

  /** The entries of the last region, which is mapped first, and where they leave the cursor. */
  lemma MappedFirst(c: Cursor, regions: seq<Region>, u: Setup)
    returns (rest: seq<Region>, r: Region, a: seq<Mapping>, c': Cursor)
    requires GoodSetup(u) && GoodCursor(c, u) && regions != []
    ensures regions == rest + [r] && rest == regions[..|regions| - 1]
    ensures a == MapRegion(c, r.pa, r.length, u) && MapAll(c, regions, u) == a + MapAll(c', rest, u)
    ensures c' == After(c, a) && GoodCursor(c', u) && c'.index == c.index + |a|
  {
    hide GoodMapping, Pow2, Tiles, Wrap, MapRegion;
    rest, r := regions[..|regions| - 1], regions[|regions| - 1];
    a := MapRegion(c, r.pa, r.length, u);
    c' := After(c, a);
    MapRegionFollows(c, r.pa, r.length, u);
    FollowsTiles(a, c, r.pa, r.length, u);
  }

  /** And the memory they take. */
  lemma LastRegion(c: Cursor, regions: seq<Region>, u: Setup)
    returns (rest: seq<Region>, r: Region, a: seq<Mapping>, c': Cursor)
    requires GoodSetup(u) && GoodCursor(c, u) && AllLow(regions) && regions != []
    ensures regions == rest + [r] && rest == regions[..|regions| - 1] && AllLow(rest)
    ensures a == MapRegion(c, r.pa, r.length, u) && MapAll(c, regions, u) == a + MapAll(c', rest, u)
    ensures c' == After(c, a) && GoodCursor(c', u) && c'.index == c.index + |a|
    ensures forall k :: 0 <= k < |a| ==> Inside(a[k], r.pa, r.length)
    ensures AllApart(a) && UsesUp(a, c.index, r.length, u)
  {
    hide GoodCursor, After, AllApart, UsesUp, MapRegion, MapAll;
    rest, r, a, c' := MappedFirst(c, regions, u);
    assert regions[|rest|] == r;
    RegionMemory(c, r, u);
  }

  /** No memory is handed out twice or from outside the regions. */
  lemma {:induction false} MapAllMemory(c: Cursor, regions: seq<Region>, u: Setup)
    requires GoodSetup(u) && GoodCursor(c, u) && AllSeparate(regions) && AllLow(regions)
    ensures forall k :: 0 <= k < |MapAll(c, regions, u)| ==> InSome(MapAll(c, regions, u)[k], regions)
    ensures AllApart(MapAll(c, regions, u))
    decreases |regions|
  {
    if regions != [] {
      var rest, r, a, c' := LastRegion(c, regions, u);
      MapAllMemory(c', rest, u);
      ApartConcat(a, MapAll(c', rest, u), rest, r);
      AllApartConcat(a, MapAll(c', rest, u));
    }
  }

  /** An entry is inside one region only. */
  lemma InsideOne(m: Mapping, regions: seq<Region>, i: nat, j: nat)
    requires AllSeparate(regions) && i < |regions| && j < |regions| && Backed(m) > 0
    requires Inside(m, regions[i].pa, regions[i].length) && Inside(m, regions[j].pa, regions[j].length)
    ensures i == j
  {
  }

  /** The regions are mapped from the last one on: later entries are of earlier regions. */
  lemma {:induction false} MapAllInOrder(c: Cursor, regions: seq<Region>, u: Setup, k: nat, l: nat, i: nat, j: nat)
    requires GoodSetup(u) && GoodCursor(c, u) && AllSeparate(regions) && AllLow(regions)
    requires k <= l < |MapAll(c, regions, u)| && i < |regions| && j < |regions|
    requires Inside(MapAll(c, regions, u)[k], regions[i].pa, regions[i].length)
    requires Inside(MapAll(c, regions, u)[l], regions[j].pa, regions[j].length)
    ensures i >= j
    decreases |regions|
  {
    hide GoodCursor, After, UsesUp, MapRegion, MapAll, Follows, Tiles, Separate;
    var ms := MapAll(c, regions, u);
    MapAllTiles(c, regions, u);
    TilesInside(ms, c.va, k);
    TilesInside(ms, c.va, l);
    LegalSizes(ms[k].size);
    LegalSizes(ms[l].size);
    var rest, r, a, c' := LastRegion(c, regions, u);
    if k < |a| {
      InsideOne(ms[k], regions, i, |rest|);
    } else {
      var b := MapAll(c', rest, u);
      MapAllMemory(c', rest, u);
      assert ms[k] == b[k - |a|] && ms[l] == b[l - |a|];
      InRest(ms[k], regions, i);
      InRest(ms[l], regions, j);
      MapAllInOrder(c', rest, u, k - |a|, l - |a|, i, j);
    }
  }

  /** An entry inside one of all but the last region is not inside the last. */
  lemma InRest(m: Mapping, regions: seq<Region>, i: nat)
    requires AllSeparate(regions) && i < |regions| && Backed(m) > 0
    requires Inside(m, regions[i].pa, regions[i].length) && InSome(m, regions[..|regions| - 1])
    ensures i < |regions| - 1
  {
    var j :| 0 <= j < |regions| - 1 && Inside(m, regions[j].pa, regions[j].length);
    InsideOne(m, regions, i, j);
  }

  /** ms is all of total bytes but less than the waste allowed for each of count regions,
      unless the TLB is full. */
  predicate UsesUpAll(ms: seq<Mapping>, index: nat, total: nat, count: nat, u: Setup) {
    && BackedTotal(ms) <= total
    && (total - BackedTotal(ms) <= count * (Pow2(u.waste) - 1) || index + |ms| == u.entries)
  }

  lemma UsesUpBoth(a: seq<Mapping>, b: seq<Mapping>, index: nat, length: nat, total: nat, count: nat, u: Setup)
    requires UsesUp(a, index, length, u) && UsesUpAll(b, index + |a|, total, count, u)
    requires index + |a| == u.entries ==> b == []
    ensures UsesUpAll(a + b, index, total + length, count + 1, u)
  {
    BackedConcat(a, b);
    OneMore(count, Pow2(u.waste) - 1);
  }

  lemma {:induction false} MapAllUsesUp(c: Cursor, regions: seq<Region>, u: Setup)
    requires GoodSetup(u) && GoodCursor(c, u) && AllLow(regions)
    ensures UsesUpAll(MapAll(c, regions, u), c.index, LengthTotal(regions), |regions|, u)
    decreases |regions|
  {
    if regions == [] {
      assert 0 * (Pow2(u.waste) - 1) == 0;
    } else {
      var rest, r, a, c' := LastRegion(c, regions, u);
      MapAllUsesUp(c', rest, u);
      FullStays(c', rest, u);
      UsesUpBoth(a, MapAll(c', rest, u), c.index, r.length, LengthTotal(rest), |rest|, u);
      assert LengthTotal(regions) == LengthTotal(rest) + r.length;
    }
  }

  lemma OneMore(n: nat, w: nat)
    ensures (n + 1) * w == n * w + w
  {
  }

  /** A full TLB takes no more entries. */
  lemma FullStays(c: Cursor, regions: seq<Region>, u: Setup)
    requires GoodSetup(u) && GoodCursor(c, u)
    ensures c.index == u.entries ==> MapAll(c, regions, u) == []
  {
    MapAllTiles(c, regions, u);
  }
}
