/** What the mapping loop makes of regions in numbers: how many entries, how many addresses, and
    exactly which regions and settings make it write half an entry. */
module HalfEntries {
  import opened Words
  import opened PairSizes
  import opened HeapPlan

  /** Pairs of 4 KB pages leave a single page over. */
  predicate OddPage(length: nat) { length % MIN_PAIR >= MIN_PAGE }

  /** How many entries length bytes take from va on, if the table has room. */
  function EntriesFor(va: nat, length: nat, waste: nat): nat
    decreases length
  {
    if length < Pow2(waste) then 0
    else if length < MIN_PAIR then 1
    else
      PairSizeFits(va, length);
      1 + EntriesFor(va + PairSize(va, length), length - PairSize(va, length), waste)
  }

  /** And how many addresses. */
  function Spread(va: nat, length: nat, waste: nat): nat
    decreases length
  {
    if length < Pow2(waste) then 0
    else if length < MIN_PAIR then MIN_PAIR
    else
      PairSizeFits(va, length);
      PairSize(va, length) + Spread(va + PairSize(va, length), length - PairSize(va, length), waste)
  }

  /** The same for all regions, the last region first. */
  function EntriesForAll(va: nat, regions: seq<Region>, waste: nat): nat
    decreases |regions|
  {
    if regions == [] then 0
    else
      var n := |regions| - 1;
      EntriesFor(va, regions[n].length, waste)
      + EntriesForAll(va + Spread(va, regions[n].length, waste), regions[..n], waste)
  }

  function SpreadAll(va: nat, regions: seq<Region>, waste: nat): nat
    decreases |regions|
  {
    if regions == [] then 0
    else
      var n := |regions| - 1;
      var s := Spread(va, regions[n].length, waste);
      s + SpreadAll(va + s, regions[..n], waste)
  }

  /** Some region leaves a page over, and the slots suffice up to and including that region. */
  predicate LeavesHalf(va: nat, regions: seq<Region>, slots: nat) {
    exists i :: 0 <= i < |regions| && LeavesHalfAt(va, regions, slots, i)
  }

  predicate LeavesHalfAt(va: nat, regions: seq<Region>, slots: nat, i: nat)
    requires i < |regions|
  {
    OddPage(regions[i].length) && EntriesForAll(va, regions[i..], MIN_INDEX) <= slots
  }

  lemma PairSizeFits(va: nat, length: nat)
    requires length >= MIN_PAIR
    ensures 0 < PairSize(va, length) <= length
  {
    FitPairFits(length, PairOfIndex(AlignedIndex(va / MIN_PAGE, MIN_INDEX)));
  }

  lemma {:induction false} FitPairFits(memLeft: nat, p: nat)
    requires p > 0 && memLeft >= MIN_PAIR
    ensures 0 < FitPair(memLeft, p) <= memLeft
  {
    if memLeft < p && p > MIN_PAIR {
      FitPairFits(memLeft, p / 4);
    }
  }

  lemma OddStep(length: nat, p: nat)
    requires p <= length && p % MIN_PAIR == 0
    ensures OddPage(length) <==> OddPage(length - p)
    ensures (length + MIN_PAGE) / MIN_PAIR * MIN_PAIR == p + (length - p + MIN_PAGE) / MIN_PAIR * MIN_PAIR
  {
    var k, rest := p / MIN_PAIR, length - p;
    QuotientIsUnique(length, MIN_PAIR, k + rest / MIN_PAIR, rest % MIN_PAIR);
    QuotientIsUnique(length + MIN_PAGE, MIN_PAIR, k + (rest + MIN_PAGE) / MIN_PAIR, (rest + MIN_PAGE) % MIN_PAIR);
  }

  /** When no page is wasted: whole pairs, the last one perhaps half used. */
  lemma {:induction false} NothingWasted(va: nat, length: nat)
    requires va % MIN_PAIR == 0
    ensures Spread(va, length, MIN_INDEX) == (length + MIN_PAGE) / MIN_PAIR * MIN_PAIR
    decreases length
  {
    hide PairSize;
    PairValues();
    if length >= MIN_PAIR {
      var p := PairSize(va, length);
      PairSizeFits(va, length);
      GreedyIsLargest(va, length);
      AlignedBounds(va, p);
      LegalSizes(p);
      OddStep(length, p);
      NothingWasted(va + p, length - p);
    }
  }

  /** What the loop makes of one region: all of it but less than the waste allowed, the last
      entry half iff a page is left over that may not be wasted; or only full entries until the
      table is full. */
  predicate MapsOut(ms: seq<Mapping>, c: Cursor, length: nat, u: Setup)
    requires c.index <= u.entries
  {
    if EntriesFor(c.va, length, u.waste) <= u.entries - c.index then
      && |ms| == EntriesFor(c.va, length, u.waste)
      && After(c, ms).va == c.va + Spread(c.va, length, u.waste)
      && (HasHalf(ms) <==> u.waste == MIN_INDEX && OddPage(length))
    else |ms| == u.entries - c.index && !HasHalf(ms)
  }

  lemma HalfCons(m: Mapping, ms: seq<Mapping>)
    ensures HasHalf([m] + ms) <==> m.half || HasHalf(ms)
  {
    HalfConcat([m], ms);
    assert [m][0] == m;
  }

  lemma HalfConcat(a: seq<Mapping>, b: seq<Mapping>)
    ensures HasHalf(a + b) <==> HasHalf(a) || HasHalf(b)
  {
    if HasHalf(a) {
      var k :| 0 <= k < |a| && a[k].half;
      assert (a + b)[k].half;
    }
    if HasHalf(b) {
      var k :| 0 <= k < |b| && b[k].half;
      assert (a + b)[|a| + k].half;
    }
    if HasHalf(a + b) {
      var k :| 0 <= k < |a + b| && (a + b)[k].half;
      assert if k < |a| then a[k].half else b[k - |a|].half;
    }
  }

  /** One entry more in front. */
  lemma MapsOutStep(m: Mapping, ms: seq<Mapping>, c: Cursor, pa: U64, left: U64, u: Setup)
    requires GoodSetup(u) && MoreToMap(c, left, u) && Chosen(m, c, pa, left)
    requires m.size == PairSize(c.va, left) && Advance(c, m).va == c.va + m.size
    requires MapsOut(ms, Advance(c, m), LeftAfter(left, m), u)
    ensures MapsOut([m] + ms, c, left, u)
  {
    hide PairSize, Pow2, Largest;
    WasteValues(u.waste);
    PairValues();
    AlignedBounds(m.va, m.size);
    LegalSizes(m.size);
    HalfCons(m, ms);
    AfterCons(c, m, ms);
    if left < MIN_PAIR {
      assert EntriesFor(Advance(c, m).va, 0, u.waste) == 0;
    } else {
      OddStep(left, m.size);
    }
  }

  lemma {:induction false} RegionMapsOut(c: Cursor, pa: U64, left: U64, u: Setup)
    requires GoodSetup(u) && GoodCursor(c, u)
    ensures MapsOut(MapRegion(c, pa, left, u), c, left, u)
    decreases u.entries - c.index
  {
    hide PairSize, MapsOut, Pow2, Reach, Chosen;
    if MoreToMap(c, left, u) {
      var m := Head(c, pa, left);
      HeadChosen(c, pa, left);
      assert m.va == c.va && GoodMapping(m) by { GreedyIsLargest(c.va, left); }
      AdvanceGood(c, m, u);
      RegionMapsOut(Advance(c, m), Wrap(pa + m.size), LeftAfter(left, m), u);
      MapsOutStep(m, MapRegion(Advance(c, m), Wrap(pa + m.size), LeftAfter(left, m), u), c, pa, left, u);
    } else {
      NothingMapsOut(c, left, u);
    }
  }

  lemma NothingMapsOut(c: Cursor, left: nat, u: Setup)
    requires GoodSetup(u) && c.index <= u.entries && (left < Pow2(u.waste) || c.index == u.entries)
    ensures MapsOut([], c, left, u)
  {
    PairValues();
  }

  /** The last region's share in the counts. */
  lemma CountLast(va: nat, rest: seq<Region>, r: Region, waste: nat)
    ensures var va' := va + Spread(va, r.length, waste);
            && EntriesForAll(va, rest + [r], waste)
               == EntriesFor(va, r.length, waste) + EntriesForAll(va', rest, waste)
            && SpreadAll(va, rest + [r], waste) == Spread(va, r.length, waste) + SpreadAll(va', rest, waste)
  {
    hide EntriesFor, Spread;
    var all := rest + [r];
    assert all[..|all| - 1] == rest && all[|all| - 1] == r;
  }

  lemma CountFrom(va: nat, rest: seq<Region>, r: Region, i: nat)
    requires i <= |rest|
    ensures EntriesForAll(va, (rest + [r])[i..], MIN_INDEX)
         == EntriesFor(va, r.length, MIN_INDEX)
          + EntriesForAll(va + Spread(va, r.length, MIN_INDEX), rest[i..], MIN_INDEX)
  {
    assert (rest + [r])[i..] == rest[i..] + [r];
    CountLast(va, rest[i..], r, MIN_INDEX);
  }

  lemma LeavesHalfLast(va: nat, rest: seq<Region>, r: Region, slots: nat)
    ensures var n, va' := EntriesFor(va, r.length, MIN_INDEX), va + Spread(va, r.length, MIN_INDEX);
            LeavesHalf(va, rest + [r], slots) <==>
              n <= slots && (OddPage(r.length) || LeavesHalf(va', rest, slots - n))
  {
    hide EntriesFor, OddPage, Spread, EntriesForAll;
    var all, n, va' := rest + [r], EntriesFor(va, r.length, MIN_INDEX), va + Spread(va, r.length, MIN_INDEX);
    CountFrom(va, rest, r, |rest|);
    assert rest[|rest|..] == [];
    NoRegions(va');
    forall i | 0 <= i < |rest|
      ensures LeavesHalfAt(va, all, slots, i) <==> n <= slots && LeavesHalfAt(va', rest, slots - n, i)
    {
      CountFrom(va, rest, r, i);
    }
    assert LeavesHalfAt(va, all, slots, |rest|) <==> OddPage(r.length) && n <= slots;
    if LeavesHalf(va, all, slots) {
      var i :| 0 <= i < |all| && LeavesHalfAt(va, all, slots, i);
      assert i < |rest| ==> LeavesHalfAt(va', rest, slots - n, i);
    }
    if n <= slots && LeavesHalf(va', rest, slots - n) {
      var i :| 0 <= i < |rest| && LeavesHalfAt(va', rest, slots - n, i);
      assert LeavesHalfAt(va, all, slots, i);
    }
  }

  lemma NoRegions(va: nat)
    ensures EntriesForAll(va, [], MIN_INDEX) == 0
  {
  }

  lemma HalfJoin(a: seq<Mapping>, b: seq<Mapping>, c: Cursor, c': Cursor, rest: seq<Region>, r: Region, u: Setup)
    requires u.waste == MIN_INDEX && c.index <= c'.index <= u.entries && c'.index == c.index + |a| && c' == After(c, a)
    requires MapsOut(a, c, r.length, u) && (c'.index == u.entries ==> b == [])
    requires HasHalf(b) <==> LeavesHalf(c'.va, rest, u.entries - c'.index)
    ensures HasHalf(a + b) <==> LeavesHalf(c.va, rest + [r], u.entries - c.index)
  {
    hide After, EntriesFor, OddPage, Spread, LeavesHalf, HasHalf;
    HalfConcat(a, b);
    LeavesHalfLast(c.va, rest, r, u.entries - c.index);
    NoHalfIn([]);
  }

  lemma NoHalfIn(ms: seq<Mapping>)
    ensures ms == [] ==> !HasHalf(ms)
  {
  }

  /** A half entry is made exactly when no page may be wasted, some region leaves one over, and
      the table has room for everything up to that region. */
  lemma {:induction false} HalfExactly(c: Cursor, regions: seq<Region>, u: Setup)
    requires GoodSetup(u) && GoodCursor(c, u) && u.waste == MIN_INDEX
    ensures HasHalf(MapAll(c, regions, u)) <==> LeavesHalf(c.va, regions, u.entries - c.index)
    decreases |regions|
  {
    if regions == [] {
      NoHalfIn(MapAll(c, regions, u));
    } else {
      hide MapAll, MapRegion, After, HasHalf, LeavesHalf, MapsOut;
      var rest, r, a, c' := MappedFirst(c, regions, u);
      RegionMapsOut(c, r.pa, r.length, u);
      HalfExactly(c', rest, u);
      FullStays(c', rest, u);
      HalfJoin(a, MapAll(c', rest, u), c, c', rest, r, u);
    }
  }

  /** What the loop makes of all regions: as many entries as their lengths ask for, ending where
      their spreads do, or as many as the table has. */
  predicate AllMapOut(ms: seq<Mapping>, c: Cursor, regions: seq<Region>, u: Setup)
    requires c.index <= u.entries
  {
    if EntriesForAll(c.va, regions, u.waste) <= u.entries - c.index then
      && |ms| == EntriesForAll(c.va, regions, u.waste)
      && After(c, ms).va == c.va + SpreadAll(c.va, regions, u.waste)
    else |ms| == u.entries - c.index
  }

  lemma MapOutJoin(a: seq<Mapping>, b: seq<Mapping>, c: Cursor, c': Cursor, rest: seq<Region>, r: Region, u: Setup)
    requires c.index <= c'.index <= u.entries && c'.index == c.index + |a| && c' == After(c, a)
    requires MapsOut(a, c, r.length, u) && (c'.index == u.entries ==> b == [])
    requires AllMapOut(b, c', rest, u)
    ensures AllMapOut(a + b, c, rest + [r], u)
  {
    hide After, EntriesFor, Spread, EntriesForAll, SpreadAll, HasHalf, OddPage;
    AfterConcat(c, a, b);
    CountLast(c.va, rest, r, u.waste);
  }

  lemma {:induction false} AllMapsOut(c: Cursor, regions: seq<Region>, u: Setup)
    requires GoodSetup(u) && GoodCursor(c, u)
    ensures AllMapOut(MapAll(c, regions, u), c, regions, u)
    decreases |regions|
  {
    if regions == [] {
      NoneMapOut(c, u);
    } else {
      hide MapAll, MapRegion, After, AllMapOut, MapsOut;
      var rest, r, a, c' := MappedFirst(c, regions, u);
      RegionMapsOut(c, r.pa, r.length, u);
      AllMapsOut(c', rest, u);
      FullStays(c', rest, u);
      MapOutJoin(a, MapAll(c', rest, u), c, c', rest, r, u);
    }
  }

  lemma NoneMapOut(c: Cursor, u: Setup)
    requires c.index <= u.entries
    ensures AllMapOut(MapAll(c, [], u), c, [], u)
  {
  }

  /** Regions shorter than the waste allowed, and only those, give no entry. */
  lemma {:induction false} NoEntryExactly(c: Cursor, regions: seq<Region>, u: Setup)
    requires GoodSetup(u) && GoodCursor(c, u) && c.index < u.entries
    ensures MapAll(c, regions, u) == [] <==> forall i :: 0 <= i < |regions| ==> regions[i].length < Pow2(u.waste)
    decreases |regions|
  {
    if regions != [] {
      hide Pow2, Reach, GoodMapping;
      var rest, r, a, c' := MappedFirst(c, regions, u);
      if a == [] {
        NoEntryExactly(c, rest, u);
      }
      assert regions[|rest|] == r && forall i :: 0 <= i < |rest| ==> regions[i] == rest[i];
    }
  }
}
