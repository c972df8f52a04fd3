/** What the heap is good for: the entries behind its addresses, and behind the bytes that
    sbrk hands out. */
module HeapUse {
  import opened Words
  import opened PairSizes
  import opened HeapPlan
  import opened HeapRegions
  import opened HeapEntries
  import opened HeapLimit
  import opened Tlb
  import opened HalfEntries
  import TlbAlloc
  import TlbUtils

  /** The heap as meminit leaves it after mapping ms. */
  function NewHeap(ms: seq<Mapping>): Heap {
    Heap(VA_START, VA_START, TlbAlloc.HeapEnd(ms))
  }

  /** The end of the heap is the end of the last mapping, or if there is any half entry half of
      that mapping before it, and never beyond 2 GB. */
  lemma HeapShape(regions: seq<Region>, u: Setup)
    requires GoodSetup(u)
    ensures var ms := MapAll(START, regions, u);
            && TilesFrom(START, ms, u) && AllUser(ms) && GoodHeap(NewHeap(ms))
            && NewHeap(ms).end <= VA_START + Total(ms) < USIZE
            && (!HasHalf(ms) ==> NewHeap(ms).end == VA_START + Total(ms))
            && (HasHalf(ms) ==>
                  NewHeap(ms).end == VA_START + Total(ms) - ms[|ms| - 1].size / 2 > ms[|ms| - 1].va)
  {
    hide MapAll;
    var ms := MapAll(START, regions, u);
    StartGood(u);
    MapAllTiles(START, regions, u);
    TilesAreUser(ms, u);
    ReachBound(After(START, ms).index);
    if ms != [] {
      LastMapping(ms, VA_START);
      AlignedBounds(ms[|ms| - 1].va, ms[|ms| - 1].size);
    }
  }

  lemma {:induction false} LastMapping(ms: seq<Mapping>, va: nat)
    requires Tiles(ms, va) && ms != []
    ensures ms[|ms| - 1].va + ms[|ms| - 1].size == va + Total(ms) && ms[|ms| - 1].va >= va
  {
    if |ms| > 1 {
      LastMapping(ms[1..], va + ms[0].size);
    }
  }

  lemma LoHalved(frame: nat, cca: nat, dvg: nat)
    ensures (frame * 64 + cca * 8 + dvg) / 2 == frame * 32 + cca * 4 + dvg / 2
  {
    QuotientIsUnique(frame * 64 + cca * 8 + dvg, 2, frame * 32 + cca * 4 + dvg / 2, dvg % 2);
  }

  lemma LowBit(x: nat)
    ensures x % LO_COUNT % 2 == x % 2
  {
    var q, r := x / LO_COUNT, x % LO_COUNT;
    QuotientIsUnique(x, 2, LO_COUNT / 2 * q + r / 2, r % 2);
  }

  lemma ValidBit(pa: U64, cca: nat, dvg: nat)
    requires cca < 8 && dvg < 8
    ensures LoImage(pa, cca, dvg) / 2 % LO_COUNT % 2 == dvg / 2 % 2
  {
    var frame := pa / MIN_PAGE;
    LoHalved(frame, cca, dvg);
    LowBit(frame * 32 + cca * 4 + dvg / 2);
    QuotientIsUnique(frame * 32 + cca * 4 + dvg / 2, 2, frame * 16 + cca * 2 + dvg / 4, dvg / 2 % 2);
  }

  /** An access through an entry gets to memory exactly when the entry is a full one. */
  lemma ValidUnlessHalf(m: Mapping, cca: nat, x: U64)
    requires cca < 8 && UserMapping(m)
    ensures Translate(EntryOf(m, cca), x).Some? <==> !m.half
  {
    hide EntryOf, UserMapping;
    EntryValidBits(m, cca);
  }

  lemma EntryValidBits(m: Mapping, cca: nat)
    requires cca < 8 && UserMapping(m)
    ensures EntryOf(m, cca).lo0 % 2 == (if m.half then 0 else 1) == EntryOf(m, cca).lo1 % 2
  {
    hide LoImage, PageOf, Wrap, GoodMapping;
    ValidBit(m.pa, cca, if m.half then 4 else 7);
    ValidBit(Wrap(m.pa + m.size / 2), cca, 7);
  }

  /** Entry k of the TLB, and no other, covers x. */
  predicate OnlyMatch(tlb: seq<Entry>, x: U64, k: nat) {
    k < |tlb| && forall j :: 0 <= j < |tlb| ==> (Covers(tlb[j], PageOf(x)) <==> j == k)
  }

  /** No entry of s from index n on covers x. */
  predicate NoneCovers(s: seq<Entry>, n: nat, x: U64) {
    forall j :: n <= j < |s| ==> !Covers(s[j], PageOf(x))
  }

  /** Every address below the end of the heap hits exactly one entry written for it, and no
      other entry of the TLB exactly when none was left there that covers it.  The access gets
      through unless the entry is a half one. */
  lemma OneEntry(s: seq<Entry>, regions: seq<Region>, u: Setup, cca: nat, x: U64) returns (k: nat)
    requires GoodSetup(u) && cca < 8 && u.entries <= |s|
    requires VA_START <= x < NewHeap(MapAll(START, regions, u)).end
    ensures AllUser(MapAll(START, regions, u)) && k < |MapAll(START, regions, u)| <= |s|
    ensures Maps(MapAll(START, regions, u)[k], x)
    ensures OnlyMatch(Programmed(s, MapAll(START, regions, u), cca), x, k)
            <==> NoneCovers(s, |MapAll(START, regions, u)|, x)
    ensures Translate(Programmed(s, MapAll(START, regions, u), cca)[k], x).Some?
            <==> !MapAll(START, regions, u)[k].half
  {
    hide MapAll, EntryOf, Covers, PageOf, Translate;
    var ms := MapAll(START, regions, u);
    HeapShape(regions, u);
    TilesAreUser(ms, u);
    k := ExactlyOne(ms, VA_START, x);
    var tlb := Programmed(s, ms, cca);
    forall j | 0 <= j < |ms|
      ensures Covers(tlb[j], PageOf(x)) <==> j == k
    {
      EntryCovers(ms[j], cca, x);
    }
    assert forall j :: |ms| <= j < |s| ==> tlb[j] == s[j];
    ValidUnlessHalf(ms[k], cca, x);
  }

  lemma UserFreeMisses(s: seq<Entry>, n: nat, x: U64)
    requires UserFree(s) && x < USIZE
    ensures NoneCovers(s, n, x)
  {
    forall j | n <= j < |s|
      ensures !Covers(s[j], PageOf(x))
    {
      assert NotUser(s[j]);
      UserPageOf(x);
      CoversIsInterval(s[j], PageOf(x));
    }
  }

  /** Some entry matches x and lets the access through. */
  predicate Served(tlb: seq<Entry>, x: U64) {
    exists k :: 0 <= k < |tlb| && Covers(tlb[k], PageOf(x)) && Translate(tlb[k], x).Some?
  }

  /** All of the heap can be accessed. */
  ghost predicate AllServed(tlb: seq<Entry>, end: U64) {
    forall x: U64 :: VA_START <= x < end ==> Served(tlb, x)
  }

  lemma ServedUnlessHalf(s: seq<Entry>, regions: seq<Region>, u: Setup, cca: nat)
    requires GoodSetup(u) && cca < 8 && u.entries <= |s| && UserFree(s)
    ensures var ms := MapAll(START, regions, u);
            && AllUser(ms) && |ms| <= |s|
            && (AllServed(Programmed(s, ms, cca), NewHeap(ms).end) <==> !HasHalf(ms))
  {
    hide MapAll, EntryOf, Covers, PageOf, Translate, Programmed, UserFree;
    var ms := MapAll(START, regions, u);
    HeapShape(regions, u);
    TilesAreUser(ms, u);
    var tlb := Programmed(s, ms, cca);
    if HasHalf(ms) {
      var h :| 0 <= h < |ms| && ms[h].half;
      var x := ms[h].va;
      BelowEnd(ms, VA_START, h);
      var k := OneEntry(s, regions, u, cca, x);
      MapsOnce(ms, VA_START, h, k, x);
      UserFreeMisses(s, |ms|, x);
      assert OnlyMatch(tlb, x, k);
      assert !Served(tlb, x);
    } else {
      forall x: U64 | VA_START <= x < NewHeap(ms).end
        ensures Served(tlb, x)
      {
        var k := OneEntry(s, regions, u, cca, x);
        UserFreeMisses(s, |ms|, x);
        assert OnlyMatch(tlb, x, k);
      }
    }
  }

  lemma MapsOnce(ms: seq<Mapping>, va: nat, h: nat, k: nat, x: nat)
    requires Tiles(ms, va) && h < |ms| && k < |ms| && Maps(ms[h], x) && Maps(ms[k], x)
    ensures h == k
  {
    if h < k {
      TilesInOrder(ms, va, h, k);
    } else if k < h {
      TilesInOrder(ms, va, k, h);
    }
  }

  /** The memory and the settings for which part of the heap cannot be accessed. */
  predicate HasDeadPage(regions: seq<Region>, u: Setup) {
    u.waste == MIN_INDEX && LeavesHalf(VA_START, regions, u.entries)
  }

  lemma HalfIffDeadPage(regions: seq<Region>, u: Setup)
    requires GoodSetup(u)
    ensures HasHalf(MapAll(START, regions, u)) <==> HasDeadPage(regions, u)
  {
    StartGood(u);
    if u.waste == MIN_INDEX {
      HalfExactly(START, regions, u);
    } else {
      NoHalf(START, regions, u);
    }
  }

  /** All of the heap can be accessed exactly when single pages may be wasted, or no region
      leaves one over that the table still has room for. */
  lemma HeapServedExact(s: seq<Entry>, regions: seq<Region>, u: Setup, cca: nat)
    requires GoodSetup(u) && cca < 8 && u.entries <= |s| && UserFree(s)
    ensures var ms := MapAll(START, regions, u);
            && AllUser(ms) && |ms| <= |s|
            && (AllServed(Programmed(s, ms, cca), NewHeap(ms).end) <==> !HasDeadPage(regions, u))
  {
    hide MapAll, AllServed, HasHalf, HasDeadPage, Programmed;
    ServedUnlessHalf(s, regions, u, cca);
    HalfIffDeadPage(regions, u);
  }

  lemma BelowEnd(ms: seq<Mapping>, va: nat, k: nat)
    requires Tiles(ms, va) && k < |ms|
    ensures va <= ms[k].va <= ms[|ms| - 1].va && ms[k].va < ms[k].va + ms[k].size
  {
    TilesInside(ms, va, k);
    AlignedBounds(ms[k].va, ms[k].size);
    if k < |ms| - 1 {
      TilesInOrder(ms, va, k, |ms| - 1);
    }
  }

  /** Half entries are made only when single 4 KB pages may not be wasted. */
  lemma {:induction false} NoHalf(c: Cursor, regions: seq<Region>, u: Setup)
    requires GoodSetup(u) && GoodCursor(c, u) && u.waste > MIN_INDEX
    ensures !HasHalf(MapAll(c, regions, u))
    decreases |regions|
  {
    if regions != [] {
      var n := |regions| - 1;
      var r := regions[n];
      var ms := MapRegion(c, r.pa, r.length, u);
      MapRegionFollows(c, r.pa, r.length, u);
      FollowsTiles(ms, c, r.pa, r.length, u);
      forall i | 0 <= i < |ms|
        ensures !ms[i].half
      {
        HalfOnlyLast(ms, c, r.pa, r.length, u, i);
      }
      NoHalf(After(c, ms), regions[..n], u);
      HalfConcat(ms, MapAll(After(c, ms), regions[..n], u));
    }
  }

  /** Over any run of sbrk calls that never ask for less than minus the limit, every byte
      handed out hits exactly one entry of the TLB, if that held nothing at user addresses
      before.  Unless the memory leaves a dead page, that entry matches in every address space
      and lets the access through. */
  lemma GrantedByteServed(s: seq<Entry>, regions: seq<Region>, u: Setup, cca: nat, calls: seq<int>, i: nat, x: U64)
    returns (k: nat)
    requires GoodSetup(u) && cca < 8 && u.entries <= |s| && UserFree(s)
    requires AllPtrDiff(calls) && i < |calls|
    requires NeverWraps(NewHeap(MapAll(START, regions, u)), calls)
    requires InBlock(NewHeap(MapAll(START, regions, u)), calls, i, x)
    ensures AllUser(MapAll(START, regions, u)) && |MapAll(START, regions, u)| <= |s|
    ensures var tlb := Programmed(s, MapAll(START, regions, u), cca);
            && OnlyMatch(tlb, x, k)
            && (!HasDeadPage(regions, u) ==>
                  Translate(tlb[k], x).Some? && forall asid :: Matches(tlb[k], PageOf(x), asid))
  {
    hide MapAll, EntryOf, Covers, PageOf, Translate, UserFree, HasDeadPage;
    HeapShape(regions, u);
    BlockInHeap(NewHeap(MapAll(START, regions, u)), calls, i, x);
    k := OneEntry(s, regions, u, cca, x);
    UserFreeMisses(s, |MapAll(START, regions, u)|, x);
    HalfIffDeadPage(regions, u);
    EntryFields(MapAll(START, regions, u)[k], cca);
  }

  /** Where the heap ends, from the lengths of the regions, when the table has room for all of
      them and no page is left over that may not be wasted. */
  lemma HeapEndIs(regions: seq<Region>, u: Setup)
    requires GoodSetup(u) && EntriesForAll(VA_START, regions, u.waste) <= u.entries && !HasDeadPage(regions, u)
    ensures var ms := MapAll(START, regions, u);
            && |ms| == EntriesForAll(VA_START, regions, u.waste)
            && NewHeap(ms).end == VA_START + SpreadAll(VA_START, regions, u.waste)
  {
    hide MapAll, EntriesForAll, SpreadAll, HasDeadPage, HasHalf;
    StartGood(u);
    AllMapsOut(START, regions, u);
    HeapShape(regions, u);
    HalfIffDeadPage(regions, u);
  }

  /** There is a heap exactly when some region is not shorter than the waste allowed; without
      one no request for memory is granted. */
  lemma NoHeapExactly(regions: seq<Region>, u: Setup)
    requires GoodSetup(u)
    ensures var h := NewHeap(MapAll(START, regions, u));
            && (h.end == h.start <==> forall i :: 0 <= i < |regions| ==> regions[i].length < Pow2(u.waste))
            && (h.end == h.start ==> forall n: nat :: PtrDiff(n) ==> !Granted(h, n))
  {
    hide MapAll, Pow2;
    var ms := MapAll(START, regions, u);
    StartGood(u);
    NoEntryExactly(START, regions, u);
    HeapShape(regions, u);
    if ms != [] {
      LastMapping(ms, VA_START);
      AlignedBounds(ms[|ms| - 1].va, ms[|ms| - 1].size);
    }
    forall n: nat | NewHeap(ms).end == VA_START && PtrDiff(n)
      ensures !Granted(NewHeap(ms), n)
    {
      GrantMeaning(NewHeap(ms), n);
    }
  }

  // ----- Settings and memory for which the heap is not what it should be

  /** One page of memory and nothing wasted: the heap is one page, and cannot be accessed. */
  lemma OnePageHeap(s: seq<Entry>, pa: U64, cca: nat)
    requires cca < 8 && 0 < |s| && UserFree(s)
    ensures var u := Setup(MIN_INDEX, K_NTLBENTRIES);
            var ms := MapAll(START, [Region(pa, MIN_PAGE)], u);
            && ms == [Mapping(VA_START, pa, MIN_PAIR, true)] && NewHeap(ms).end == VA_START + MIN_PAGE
            && AllUser(ms) && !Served(Programmed(s, ms, cca), VA_START)
  {
    var u := Setup(MIN_INDEX, K_NTLBENTRIES);
    var m := Mapping(VA_START, pa, MIN_PAIR, true);
    OnePageMapped(pa, u);
    assert [m][0].half;
    ValidUnlessHalf(m, cca, VA_START);
    UserFreeMisses(s, 1, VA_START);
  }

  lemma OnePageMapped(pa: U64, u: Setup)
    requires u == Setup(MIN_INDEX, K_NTLBENTRIES)
    ensures MapAll(START, [Region(pa, MIN_PAGE)], u) == [Mapping(VA_START, pa, MIN_PAIR, true)]
  {
    hide PairSize;
    var m := Mapping(VA_START, pa, MIN_PAIR, true);
    PairValues();
    GreedyIsLargest(VA_START, MIN_PAGE);
    var c := Advance(START, m);
    assert MapRegion(START, pa, MIN_PAGE, u) == [m] + MapRegion(c, Wrap(pa + MIN_PAIR), 0, u);
    assert MapRegion(c, Wrap(pa + MIN_PAIR), 0, u) == [];
    assert [Region(pa, MIN_PAGE)][..0] == [];
  }

  /** A program that ends at 2 MB on a board with 256 MB at address zero: the first heap
      address reaches the guard page above the stack. */
  lemma GuardPageInHeap(cca: nat)
    requires cca < 8
    ensures var u := Setup(MAX_INDEX, K_NTLBENTRIES);
            var top: U64 := K0BASE + 0x20_0000;
            var r := Region(0, SEGMENT);
            var m := Head(START, Trim(r, top, u).pa, Trim(r, top, u).length);
            && HoldsStack(r, top) && Roomy(r, top, u) && UserMapping(m)
            && Translate(EntryOf(m, cca), VA_START) == Some(PhysOf(NewTop(r, top, u)))
  {
    hide EntryOf, Translate, Head, Reserved, Reserve;
    TwoMegabytes();
    GuardPageIsMapped(cca);
  }

  lemma TwoMegabytes()
    ensures Reserved(K0BASE + 0x20_0000, Setup(MAX_INDEX, K_NTLBENTRIES)) == 0x400_0000
  {
    PairValues();
    assert Pow2(26) == 0x400_0000;
    assert PhysOf(K0BASE + 0x20_0000) == 0x20_0000;
    assert Reserve(0x20_0000, 0x400_0000) == 0x400_0000;
  }

  /** At the default settings 48 MB of memory give no heap. */
  lemma SmallRegionNoHeap()
    ensures var h := NewHeap(MapAll(START, [Region(0x8000_0000, 0x300_0000)], Setup(MAX_INDEX, K_NTLBENTRIES)));
            h.end == VA_START && !Granted(h, 0x1000)
  {
    hide MapAll, NewHeap;
    PairValues();
    assert Pow2(26) == 0x400_0000;
    NoHeapExactly([Region(0x8000_0000, 0x300_0000)], Setup(MAX_INDEX, K_NTLBENTRIES));
    StartOfNew(MapAll(START, [Region(0x8000_0000, 0x300_0000)], Setup(MAX_INDEX, K_NTLBENTRIES)));
    assert PtrDiff(0x1000);
  }

  lemma StartOfNew(ms: seq<Mapping>)
    ensures NewHeap(ms).start == VA_START
  {
  }

  /** An 8 KB heap: its only entry is a full one, and the Wired register set to zero leaves it
      to random replacement. */
  lemma OnlyEntryNotWired(pa: U64)
    ensures var u := Setup(MIN_INDEX, K_NTLBENTRIES);
            var ms := MapAll(START, [Region(pa, MIN_PAIR)], u);
            |ms| == 1 && !ms[0].half && !TlbAlloc.IsWired(0, TlbAlloc.WiredCount(ms))
  {
    hide PairSize;
    var u := Setup(MIN_INDEX, K_NTLBENTRIES);
    var m := Mapping(VA_START, pa, MIN_PAIR, false);
    PairValues();
    GreedyIsLargest(VA_START, MIN_PAIR);
    var c := Advance(START, m);
    assert MapRegion(START, pa, MIN_PAIR, u) == [m] + MapRegion(c, Wrap(pa + MIN_PAIR), 0, u);
    assert MapRegion(c, Wrap(pa + MIN_PAIR), 0, u) == [];
    assert [Region(pa, MIN_PAIR)][..0] == [];
  }

  /** Of the entries written, all but the last are wired. */
  lemma WiredExactly(ms: seq<Mapping>, k: nat)
    requires k < |ms|
    ensures TlbAlloc.IsWired(k, TlbAlloc.WiredCount(ms)) <==> k != |ms| - 1
  {
  }

  /** After init_tlb with the range its header gives, mapping the heap never lets two entries
      overlap: it finds an overlap-free TLB with nothing at user addresses. */
  lemma AfterReset(n: nat)
    requires TlbUtils.GoodSize(n)
    ensures ClashFree(TlbUtils.InvalidTlb(TLB_INVALID_RANGE, n)) && UserFree(TlbUtils.InvalidTlb(TLB_INVALID_RANGE, n))
  {
    TlbUtils.ResetIsStable(TLB_INVALID_RANGE, n);
    var s := TlbUtils.InvalidTlb(TLB_INVALID_RANGE, n);
    forall i | 0 <= i < n
      ensures NotUser(s[i])
    {
      assert s[i].mask == 0;
    }
  }

  const TLB_INVALID_RANGE: U64 := 0xffff_ffff_a000_0000
}
