/** __libcfe_meminit and sbrk: mapping all free memory through the TLB to make a heap. */
module TlbAlloc {
  import opened Words
  import opened PairSizes
  import opened HeapPlan
  import opened HeapRegions
  import opened HeapEntries
  import opened HeapLimit
  import opened Tlb

  /** The end of the heap: half of the last entry is taken off if there is any half entry. */
  function HeapEnd(ms: seq<Mapping>): U64 {
    var va := After(START, ms).va;
    Wrap(if HasHalf(ms) then va - ms[|ms| - 1].size / 2 else va)
  }

  /** The value the Wired register is given: entries below it are kept from random writes. */
  function WiredCount(ms: seq<Mapping>): int { |ms| - 1 }

  predicate IsWired(k: nat, wired: int) { k < wired }

  /** The two arrays hold the regions, from index 0 on. */
  predicate Hold(pa: array<U64>, size: array<U64>, regions: seq<Region>)
    reads pa, size
  {
    && |regions| <= pa.Length && |regions| <= size.Length
    && forall k :: 0 <= k < |regions| ==> regions[k] == Region(pa[k], size[k])
  }

  /** What is still to be mapped: memLeft bytes at pa and then the regions. */
  function Rest(c: Cursor, pa: U64, memLeft: U64, regions: seq<Region>, u: Setup): seq<Mapping> {
    var ms := MapRegion(c, pa, memLeft, u);
    ms + MapAll(After(c, ms), regions, u)
  }

  lemma RestBegins(c: Cursor, regions: seq<Region>, i: nat, u: Setup)
    requires i < |regions|
    ensures MapAll(c, regions[..i + 1], u) == Rest(c, regions[i].pa, regions[i].length, regions[..i], u)
  {
    assert regions[..i + 1][..i] == regions[..i];
  }

  lemma MapRegionCons(m: Mapping, c: Cursor, pa: U64, memLeft: U64, u: Setup)
    requires MoreToMap(c, memLeft, u) && m == Head(c, pa, memLeft)
    ensures MapRegion(c, pa, memLeft, u)
         == [m] + MapRegion(Advance(c, m), Wrap(pa + m.size), LeftAfter(memLeft, m), u)
  {
    hide Head, Advance, LeftAfter, Wrap;
  }

  lemma RestCons(m: Mapping, c: Cursor, pa: U64, memLeft: U64, c': Cursor, pa': U64, left': U64,
                 regions: seq<Region>, u: Setup)
    requires MapRegion(c, pa, memLeft, u) == [m] + MapRegion(c', pa', left', u)
    requires m.va == c.va && c' == Advance(c, m)
    ensures Rest(c, pa, memLeft, regions, u) == [m] + Rest(c', pa', left', regions, u)
  {
    var ms := MapRegion(c', pa', left', u);
    AfterCons(c, m, ms);
    Regroup([m], ms, MapAll(After(c', ms), regions, u));
  }

  lemma Regroup(a: seq<Mapping>, b: seq<Mapping>, c: seq<Mapping>)
    ensures (a + b) + c == a + (b + c)
  {
  }

  lemma RestEnds(c: Cursor, pa: U64, memLeft: U64, regions: seq<Region>, u: Setup)
    requires !MoreToMap(c, memLeft, u)
    ensures Rest(c, pa, memLeft, regions, u) == MapAll(c, regions, u)
  {
  }

  /** One more region reported: what is left to collect. */
  lemma AvailableNext(reported: seq<Reported>, i: nat, stackTop: U64, u: Setup)
    requires i < |reported|
    ensures var r, rest := reported[i], Available(reported[i + 1..]);
            if r.available then
              && Usable(Available(reported[i..]), stackTop, u)
                 == [Trim(r.region, stackTop, u)] + Usable(rest, NewTop(r.region, stackTop, u), u)
              && TopAfter(Available(reported[i..]), stackTop, u) == TopAfter(rest, NewTop(r.region, stackTop, u), u)
            else Available(reported[i..]) == rest
  {
    assert reported[i..][1..] == reported[i + 1..];
    var r, rest := reported[i], Available(reported[i + 1..]);
    assert r.available ==> Available(reported[i..]) == [r.region] + rest && ([r.region] + rest)[1..] == rest;
  }

  lemma AvailableEnds(reported: seq<Reported>, stackTop: U64, u: Setup)
    ensures Usable(Available(reported[|reported|..]), stackTop, u) == []
    ensures TopAfter(Available(reported[|reported|..]), stackTop, u) == stackTop
  {
  }

  lemma NothingHeld(pa: array<U64>, size: array<U64>)
    ensures Hold(pa, size, [])
  {
  }

  lemma Grouped(a: seq<Region>, r: Region, b: seq<Region>)
    ensures (a + [r]) + b == a + ([r] + b)
  {
  }

  /** The loop's variables after the entries ms: c, whether any was half, the last size. */
  predicate Mapped(ms: seq<Mapping>, c: Cursor, half: bool, pagesize2x: nat, u: Setup) {
    && TilesFrom(START, ms, u) && c == After(START, ms)
    && half == HasHalf(ms) && (ms != [] ==> pagesize2x == ms[|ms| - 1].size)
  }

  lemma MappedStart(u: Setup, pagesize2x: nat)
    requires GoodSetup(u)
    ensures Mapped([], START, false, pagesize2x, u)
  {
    StartGood(u);
  }

  lemma MappedStep(ms: seq<Mapping>, c: Cursor, half: bool, pagesize2x: nat, u: Setup, pa: U64, memLeft: U64)
    requires GoodSetup(u) && Mapped(ms, c, half, pagesize2x, u) && c.index < u.entries
    ensures var m := Head(c, pa, memLeft);
            && Mapped(ms + [m], Advance(c, m), half || m.half, m.size, u) && UserMapping(m)
  {
    var m := Head(c, pa, memLeft);
    HeadChosen(c, pa, memLeft);
    AdvanceGood(c, m, u);
    TilesCons(c, m, [], u);
    assert [m] + [] == [m];
    TilesFromConcat(START, ms, [m], u);
    AfterConcat(START, ms, [m]);
    HalfAppend(ms, m);
  }

  /** One round of the mapping loop: it makes m and goes on from c' with left' bytes. */
  lemma OneRound(ms: seq<Mapping>, c: Cursor, half: bool, pagesize2x: nat, u: Setup,
                 pa: U64, memLeft: U64, regions: seq<Region>, m: Mapping, c': Cursor, left': U64)
    requires GoodSetup(u) && Mapped(ms, c, half, pagesize2x, u) && MoreToMap(c, memLeft, u)
    requires m == Mapping(c.va, pa, PairSize(c.va, memLeft), MIN_PAGE <= memLeft < MIN_PAIR)
    requires c' == Cursor(c.index + 1, c.va, NextVa(c.va, m.size))
    requires left' == if m.half then 0 else Wrap(memLeft - m.size)
    ensures Mapped(ms + [m], c', half || m.half, m.size, u)
    ensures UserMapping(m) && Tiles(ms + [m], VA_START)
    ensures (ms + [m]) + Rest(c', Wrap(pa + m.size), left', regions, u) == ms + Rest(c, pa, memLeft, regions, u)
  {
    hide PairSize, GoodSetup, Tiles, HasHalf, Rest, MapRegion;
    assert m == Head(c, pa, memLeft) && c' == Advance(c, m) && left' == LeftAfter(memLeft, m);
    MappedStep(ms, c, half, pagesize2x, u, pa, memLeft);
    MapRegionCons(m, c, pa, memLeft, u);
    RestCons(m, c, pa, memLeft, c', Wrap(pa + m.size), left', regions, u);
    Regroup(ms, [m], Rest(c', Wrap(pa + m.size), left', regions, u));
  }

  lemma EndOf(ms: seq<Mapping>, c: Cursor, half: bool, pagesize2x: nat, u: Setup)
    requires GoodSetup(u) && Mapped(ms, c, half, pagesize2x, u)
    ensures half ==> HeapEnd(ms) == Wrap(c.va - pagesize2x / 2)
    ensures !half ==> HeapEnd(ms) == Wrap(c.va)
  {
  }

  lemma HalfAppend(ms: seq<Mapping>, m: Mapping)
    ensures HasHalf(ms + [m]) <==> HasHalf(ms) || m.half
  {
    if m.half {
      assert (ms + [m])[|ms|].half;
    }
    if HasHalf(ms) {
      var k :| 0 <= k < |ms| && ms[k].half;
      assert (ms + [m])[k].half;
    }
  }

  /** The size a program with its stack is rounded up to. */
  method ReserveSize(endSize: nat, u: Setup) returns (pagesize2x: nat)
    ensures pagesize2x == Reserve(endSize, Pow2(u.waste))
  {
    pagesize2x := Pow2(u.waste);
    while endSize > pagesize2x
      invariant pagesize2x > 0
      invariant Reserve(endSize, pagesize2x) == Reserve(endSize, Pow2(u.waste))
    {
      pagesize2x := pagesize2x * 4;
    }
  }

  /** The largest pair of pages that the alignment of va and the memory left allow. */
  method ChoosePairSize(va: U64, memLeft: U64) returns (pagesize2x: nat)
    ensures pagesize2x == PairSize(va, memLeft)
  {
    hide Pow2;
    var vaShift: nat := va / MIN_PAGE;
    var index: nat := MIN_INDEX;
    while index < MAX_INDEX && vaShift % 2 == 0
      invariant MIN_INDEX <= index <= MAX_INDEX
      invariant AlignedIndex(vaShift, index) == AlignedIndex(va / MIN_PAGE, MIN_INDEX)
    {
      vaShift := vaShift / 2;
      index := index + 1;
    }
    ghost var top: nat := index;
    index := index - 1;
    assert Pow2(index - index % 2 + 1) == PairOfIndex(top);
    pagesize2x := Pow2(index - index % 2 + 1);
    while memLeft < pagesize2x && pagesize2x > MIN_PAIR
      invariant FitPair(memLeft, pagesize2x) == FitPair(memLeft, PairOfIndex(top))
    {
      pagesize2x := pagesize2x / 4;
    }
  }

  /** Adds one region to the arrays. */
  method Append(paRegions: array<U64>, paSize: array<U64>, pa: U64, length: U64, ghost regions: seq<Region>, i: nat)
    requires paRegions != paSize && i == |regions| < paRegions.Length == paSize.Length
    requires Hold(paRegions, paSize, regions)
    modifies paRegions, paSize
    ensures Hold(paRegions, paSize, regions + [Region(pa, length)])
  {
    paRegions[i] := pa;
    paSize[i] := length;
  }

  class Allocator {
    const tlb: TlbUnit
    var stackTop: U64
    var heapStart: U64
    var heapLimit: U64
    var heapEnd: U64
    var wired: int
    ghost var mapped: seq<Mapping>

    constructor (tlb: TlbUnit)
      ensures this.tlb == tlb
    {
      this.tlb := tlb;
      stackTop, heapStart, heapLimit, heapEnd, wired, mapped := 0, 0, 0, 0, 0, [];
    }

    function TheHeap(): Heap
      reads this
    {
      Heap(heapStart, heapLimit, heapEnd)
    }

    /** Collects the available regions, trimming those that hold the stack. */
    method FindRegions(reported: seq<Reported>, paRegions: array<U64>, paSize: array<U64>, u: Setup)
      returns (paIdx: nat)
      requires paRegions.Length == paSize.Length == MAX_REGIONS && paRegions != paSize
      requires GoodSetup(u) && |Available(reported)| <= MAX_REGIONS
      modifies this`stackTop, paRegions, paSize
      ensures paIdx == |Available(reported)|
      ensures Hold(paRegions, paSize, Usable(Available(reported), old(stackTop), u))
      ensures |Usable(Available(reported), old(stackTop), u)| == paIdx
      ensures stackTop == TopAfter(Available(reported), old(stackTop), u)
    {
      hide *;
      ghost var all, regions: seq<Region> := Usable(Available(reported), stackTop, u), [];
      UsableExact(Available(reported), stackTop, u);
      paIdx := 0;
      NothingHeld(paRegions, paSize);
      var i := 0;
      assert reported[0..] == reported;
      while i < |reported|
        invariant 0 <= i <= |reported| && paIdx == |regions|
        invariant Hold(paRegions, paSize, regions)
        invariant regions + Usable(Available(reported[i..]), stackTop, u) == all
        invariant TopAfter(Available(reported[i..]), stackTop, u) == TopAfter(Available(reported), old(stackTop), u)
      {
        AvailableNext(reported, i, stackTop, u);
        if reported[i].available {
          ghost var before := regions;
          var pa, length := TrimRegion(reported[i].region.pa, reported[i].region.length, u);
          assert |regions| < |all|;
          Append(paRegions, paSize, pa, length, regions, paIdx);
          paIdx := paIdx + 1;
          regions := regions + [Region(pa, length)];
          Grouped(before, Region(pa, length), Usable(Available(reported[i + 1..]), stackTop, u));
        }
        i := i + 1;
      }
      AvailableEnds(reported, stackTop, u);
      assert regions + [] == regions;
    }

    /** Takes the program, its stack and the guard page off a region, and moves the stack top
        up to the guard page, if the region holds the stack. */
    method TrimRegion(pa0: U64, length0: U64, u: Setup) returns (pa: U64, length: U64)
      modifies this`stackTop
      ensures Region(pa, length) == Trim(Region(pa0, length0), old(stackTop), u)
      ensures stackTop == NewTop(Region(pa0, length0), old(stackTop), u)
    {
      pa, length := pa0, length0;
      if PhysOf(stackTop) / SEGMENT * SEGMENT == pa {
        var pagesize2x := ReserveSize(PhysOf(stackTop), u);
        pa := Wrap(pa + pagesize2x);
        stackTop := K0Of(pa);
        pa := Wrap(pa + GUARD);
        length := Wrap(length - pagesize2x - GUARD);
      }
    }

    /** Writes TLB entry i for the pair of pages m. */
    method WriteMapping(i: nat, cca: nat, va: U64, pa: U64, pagesize2x: nat, half: bool)
      requires i < tlb.Size() && cca < 8 && UserMapping(Mapping(va, pa, pagesize2x, half))
      modifies tlb, tlb.entries
      ensures tlb.entries[..] == old(tlb.entries[..])[i := EntryOf(Mapping(va, pa, pagesize2x, half), cca)]
      ensures tlb.shutdown == (old(tlb.shutdown) || !ClashFree(tlb.entries[..]))
    {
      AlignedBounds(va, pagesize2x);
      var entryHi: U64 := va / PAIR * PAIR;
      var pageMask: U32 := (pagesize2x / 2 - 1) / MIN_PAGE * PAIR;
      var entryLo0, entryLo1;
      if half {
        entryLo0 := LoImage(pa, cca, 4);
        entryLo1 := 0;
      } else {
        entryLo0 := LoImage(pa, cca, 7);
        entryLo1 := LoImage(Wrap(pa + pagesize2x / 2), cca, 7);
      }
      tlb.WriteIndex(i, TlbRegs(entryLo0, entryLo1, entryHi, pageMask));
    }

    /** The TLB held s before the entries mapped were written. */
    ghost predicate Holds(s: seq<Entry>, cca: nat)
      reads this, tlb, tlb.entries
    {
      && cca < 8 && AllUser(mapped) && |mapped| <= tlb.Size() == |s|
      && tlb.entries[..] == Programmed(s, mapped, cca)
    }

    /** Writes one entry more. */
    method MapNext(cca: nat, va: U64, pa: U64, pagesize2x: nat, half: bool, ghost s: seq<Entry>, i: nat)
      requires Holds(s, cca) && UserMapping(Mapping(va, pa, pagesize2x, half))
      requires i == |mapped| < tlb.Size() && Tiles(mapped + [Mapping(va, pa, pagesize2x, half)], VA_START)
      modifies this`mapped, tlb, tlb.entries
      ensures Holds(s, cca) && mapped == old(mapped) + [Mapping(va, pa, pagesize2x, half)]
      ensures ClashFree(s) && UserFree(s) ==> tlb.shutdown == old(tlb.shutdown)
    {
      WriteMapping(i, cca, va, pa, pagesize2x, half);
      mapped := mapped + [Mapping(va, pa, pagesize2x, half)];
      assert tlb.entries[..] == Programmed(s, mapped, cca);
      if ClashFree(s) && UserFree(s) {
        ProgrammedClashFree(s, mapped, cca, VA_START);
      }
    }

    /** Maps one region from where the loop's variables stand. */
    method MapOneRegion(pa0: U64, memLeft0: U64, tlbIdx0: nat, prevVa0: nat, va0: nat,
                        halfEntry0: bool, pagesize2x0: nat, cca: nat, u: Setup,
                        ghost s: seq<Entry>, ghost regions: seq<Region>)
      returns (tlbIdx: nat, prevVa: nat, va: nat, halfEntry: bool, pagesize2x: nat)
      requires GoodSetup(u) && u.entries <= tlb.Size() && Holds(s, cca)
      requires Mapped(mapped, Cursor(tlbIdx0, prevVa0, va0), halfEntry0, pagesize2x0, u)
      modifies this`mapped, tlb, tlb.entries
      ensures Holds(s, cca) && Mapped(mapped, Cursor(tlbIdx, prevVa, va), halfEntry, pagesize2x, u)
      ensures mapped + MapAll(Cursor(tlbIdx, prevVa, va), regions, u)
           == old(mapped) + Rest(Cursor(tlbIdx0, prevVa0, va0), pa0, memLeft0, regions, u)
      ensures ClashFree(s) && UserFree(s) ==> tlb.shutdown == old(tlb.shutdown)
    {
      hide Rest, MapRegion, MapAll, PairSize, Tiles, HasHalf, Programmed, AllUser, UserMapping, ClashFree, UserFree;
      var pa: U64, memLeft: U64 := pa0, memLeft0;
      tlbIdx, prevVa, va, halfEntry, pagesize2x := tlbIdx0, prevVa0, va0, halfEntry0, pagesize2x0;
      ghost var all := mapped + Rest(Cursor(tlbIdx, prevVa, va), pa, memLeft, regions, u);
      while memLeft >= Pow2(u.waste) && tlbIdx < u.entries && prevVa <= va
        invariant mapped + Rest(Cursor(tlbIdx, prevVa, va), pa, memLeft, regions, u) == all
        invariant Mapped(mapped, Cursor(tlbIdx, prevVa, va), halfEntry, pagesize2x, u)
        invariant Holds(s, cca) && (ClashFree(s) && UserFree(s) ==> tlb.shutdown == old(tlb.shutdown))
        decreases u.entries - tlbIdx
      {
        ghost var c, last, ms, left := Cursor(tlbIdx, prevVa, va), pagesize2x, mapped, memLeft;
        pagesize2x := ChoosePairSize(va, memLeft);
        var half := MIN_PAGE <= memLeft < MIN_PAIR;
        ghost var m := Mapping(va, pa, pagesize2x, half);
        ghost var left' := if half then 0 else Wrap(memLeft - pagesize2x);
        OneRound(ms, c, halfEntry, last, u, pa, left, regions, m,
                 Cursor(tlbIdx + 1, va, NextVa(va, pagesize2x)), left');
        MapNext(cca, va, pa, pagesize2x, half, s, tlbIdx);
        if half {
          halfEntry := true;
          memLeft := 0;
        } else {
          memLeft := Wrap(memLeft - pagesize2x);
        }
        tlbIdx := tlbIdx + 1;
        pa := Wrap(pa + pagesize2x);
        prevVa := va;
        va := NextVa(va, pagesize2x);
      }
      RestEnds(Cursor(tlbIdx, prevVa, va), pa, memLeft, regions, u);
    }

    /** Maps the regions in the arrays, the last first. */
    method MapRegions(paRegions: array<U64>, paSize: array<U64>, paIdx: nat, cca: nat, u: Setup,
                      ghost regions: seq<Region>)
      requires paIdx == |regions| && Hold(paRegions, paSize, regions)
      requires GoodSetup(u) && cca < 8 && u.entries <= tlb.Size()
      modifies this`mapped, this`heapEnd, this`wired, tlb, tlb.entries
      ensures mapped == MapAll(START, regions, u)
      ensures heapEnd == HeapEnd(mapped) && wired == WiredCount(mapped)
      ensures Holds(old(tlb.entries[..]), cca)
      ensures ClashFree(old(tlb.entries[..])) && UserFree(old(tlb.entries[..])) ==> tlb.shutdown == old(tlb.shutdown)
    {
      hide Rest, MapRegion, PairSize, TilesFrom, HasHalf, Programmed, AllUser, ClashFree, UserFree;
      ghost var s, all := tlb.entries[..], MapAll(START, regions, u);
      var va: nat, prevVa: nat, tlbIdx: nat := VA_START, VA_START, 0;
      var pagesize2x: nat, halfEntry := 0x800_0000, false;
      mapped := [];
      ProgrammedNone(s, cca);
      MappedStart(u, pagesize2x);
      assert regions[..paIdx] == regions && [] + all == all;
      var i := paIdx;
      while i > 0
        invariant 0 <= i <= paIdx && Hold(paRegions, paSize, regions)
        invariant mapped + MapAll(Cursor(tlbIdx, prevVa, va), regions[..i], u) == all
        invariant Mapped(mapped, Cursor(tlbIdx, prevVa, va), halfEntry, pagesize2x, u)
        invariant Holds(s, cca) && (ClashFree(s) && UserFree(s) ==> tlb.shutdown == old(tlb.shutdown))
      {
        i := i - 1;
        RestBegins(Cursor(tlbIdx, prevVa, va), regions, i, u);
        tlbIdx, prevVa, va, halfEntry, pagesize2x := MapOneRegion(
          paRegions[i], paSize[i], tlbIdx, prevVa, va, halfEntry, pagesize2x, cca, u, s, regions[..i]);
      }
      assert mapped == all;
      EndOf(mapped, Cursor(tlbIdx, prevVa, va), halfEntry, pagesize2x, u);
      wired := tlbIdx - 1;
      if halfEntry {
        heapEnd := Wrap(va - pagesize2x / 2);
      } else {
        heapEnd := Wrap(va);
      }
    }

    method MemInit(end: U64, stackSize: U64, reported: seq<Reported>, cca: nat, u: Setup)
      requires GoodSetup(u) && cca < 8 && u.entries <= tlb.Size()
      requires |Available(reported)| <= MAX_REGIONS
      modifies this, tlb, tlb.entries
      ensures stackTop == TopAfter(Available(reported), Wrap(end + stackSize), u)
      ensures mapped == MapAll(START, Usable(Available(reported), Wrap(end + stackSize), u), u)
      ensures TheHeap() == Heap(VA_START, VA_START, HeapEnd(mapped)) && wired == WiredCount(mapped)
      ensures Holds(old(tlb.entries[..]), cca)
      ensures ClashFree(old(tlb.entries[..])) && UserFree(old(tlb.entries[..])) ==> tlb.shutdown == old(tlb.shutdown)
    {
      var paRegions, paSize := new U64[MAX_REGIONS], new U64[MAX_REGIONS];
      stackTop := Wrap(end + stackSize);
      var paIdx := FindRegions(reported, paRegions, paSize, u);
      heapStart := VA_START;
      heapLimit := VA_START;
      MapRegions(paRegions, paSize, paIdx, cca, u, Usable(Available(reported), Wrap(end + stackSize), u));
    }

    /** Moves the limit by nbytes; returns the old limit, or FAILED and changes nothing. */
    method Sbrk(nbytes: int) returns (base: U64)
      modifies this`heapLimit
      ensures TheHeap() == HeapLimit.Sbrk(old(TheHeap()), nbytes)
      ensures base == Returned(old(TheHeap()), nbytes)
    {
      if nbytes >= Signed(Wrap(heapEnd - heapLimit), W64) || Wrap(heapLimit + nbytes) < heapStart {
        base := FAILED;
      } else {
        base := heapLimit;
        heapLimit := Wrap(heapLimit + nbytes);
      }
    }
  }
}
