/** The memory regions the heap is made of: those the firmware reports as available, less what
    the program and its stack occupy. */
module HeapRegions {
  import opened Words
  import opened PairSizes
  import opened HeapPlan
  import BitFields

  const K0SIZE := 0x2000_0000
  const K0BASE := 0xffff_ffff_8000_0000
  const SEGMENT := 0x1000_0000          // lowest bit of the mask that finds the program's region
  const MAX_REGIONS := 8
  const GUARD := MIN_PAGE               // bytes left unmapped above the stack

  datatype Reported = Reported(region: Region, available: bool)

  /** The physical address behind an address in K0, and the K0 address of physical memory. */
  function PhysOf(va: U64): U64 { va % K0SIZE }

  function K0Of(pa: U64): U64 { K0BASE + pa % USIZE }

  /** In the masks of the code: ~USIZE, K0SIZE - 1, 0xf0000000, and K0BASE put in with |. */
  lemma MasksMean(x: U64, size: nat)
    ensures NextVa(x, size) == BitFields.And(x + size, USIZE - 1)
    ensures PhysOf(x) == BitFields.And(x, K0SIZE - 1)
    ensures PhysOf(x) / SEGMENT * SEGMENT == BitFields.And(PhysOf(x), 0xf000_0000)
    ensures K0Of(x) == BitFields.Or(K0BASE, x)
  {
    hide Pow2, BitFields.And, BitFields.Or, K0Of;
    BitFields.Powers();
    BitFields.PowerSum(28, 1, 0x1000_0000, 2);
    LowMask(x + size, 31, USIZE);
    LowMask(x, 29, K0SIZE);
    SegmentMask(PhysOf(x));
    K0Mask(x);
  }

  lemma LowMask(x: nat, n: nat, p: int)
    requires p == Pow2(n)
    ensures x % p == BitFields.And(x, p - 1)
  {
    UpPositive(n);
    BitFields.AndOnes(x, n);
    BitFields.MovesAreArithmetic(x, n, p);
  }

  lemma SegmentMask(x: nat)
    requires x < K0SIZE
    ensures x / SEGMENT * SEGMENT == BitFields.And(x, 0xf000_0000)
  {
    hide Pow2, Up, BitFields.And, BitFields.Shr, BitFields.Low;
    var q := x / SEGMENT;
    BitFields.Powers();
    BitFields.PowerSum(2, 2, 4, 4);
    BitFields.UpIsProduct(15, 28);
    BitFields.AndUp(x, 15, 28);
    BitFields.MovesAreArithmetic(x, 28, SEGMENT);
    LowMask(q, 4, 16);
    BitFields.UpIsProduct(q, 28);
  }

  lemma K0Mask(x: U64)
    ensures K0Of(x) == BitFields.Or(K0BASE, x)
  {
    hide BitFields.Or, BitFields.Shr, BitFields.Low, Up;
    BitFields.Powers();
    BitFields.PowerSum(31, 2, USIZE, 4);
    BitFields.PowerSum(31, 33, USIZE, 2 * 0x1_0000_0000);
    BitFields.MovesAreArithmetic(x, 31, USIZE);
    BitFields.MovesAreArithmetic(K0BASE, 31, USIZE);
    BitFields.OrHigh(K0BASE, x, 31);
    BitFields.OrLow(K0BASE, x, 31);
    BitFields.ShrIsZero(x / USIZE, 33);
    BitFields.OrAbsorbs(x / USIZE, 33);
    BitFields.OrZero(x % USIZE);
    BitFields.HighAndLow(BitFields.Or(K0BASE, x), 31);
    BitFields.UpIsProduct(0x1_ffff_ffff, 31);
  }

  /** p or the first of 4p, 16p, ... that is not below endSize. */
  function Reserve(endSize: nat, p: nat): nat
    requires p > 0
    decreases endSize - p
  {
    if endSize > p then Reserve(endSize, 4 * p) else p
  }

  /** What is kept from a region that holds the program, guard not included. */
  function Reserved(stackTop: U64, u: Setup): nat {
    Reserve(PhysOf(stackTop), Pow2(u.waste))
  }

  predicate HoldsStack(r: Region, stackTop: U64) {
    PhysOf(stackTop) / SEGMENT * SEGMENT == r.pa
  }

  function Trim(r: Region, stackTop: U64, u: Setup): Region {
    if HoldsStack(r, stackTop) then
      var p := Reserved(stackTop, u);
      Region(Wrap(Wrap(r.pa + p) + GUARD), Wrap(r.length - p - GUARD))
    else r
  }

  function NewTop(r: Region, stackTop: U64, u: Setup): U64 {
    if HoldsStack(r, stackTop) then K0Of(Wrap(r.pa + Reserved(stackTop, u))) else stackTop
  }

  function Available(reported: seq<Reported>): seq<Region> {
    if reported == [] then []
    else (if reported[0].available then [reported[0].region] else []) + Available(reported[1..])
  }

  /** It lists what is reported as available, and nothing else, as often as that. */
  lemma {:induction false} AvailableMeaning(reported: seq<Reported>, r: Region)
    ensures multiset(Available(reported))[r] == multiset(reported)[Reported(r, true)]
  {
    if reported != [] {
      var first, rest := reported[0], reported[1..];
      AvailableMeaning(rest, r);
      assert reported == [first] + rest;
      assert multiset(Available(reported))
          == multiset(if first.available then [first.region] else []) + multiset(Available(rest));
    }
  }

  /** The regions to map, each trimmed against the stack top found so far. */
  function Usable(regions: seq<Region>, stackTop: U64, u: Setup): seq<Region> {
    if regions == [] then []
    else [Trim(regions[0], stackTop, u)] + Usable(regions[1..], NewTop(regions[0], stackTop, u), u)
  }

  function TopAfter(regions: seq<Region>, stackTop: U64, u: Setup): U64 {
    if regions == [] then stackTop
    else TopAfter(regions[1..], NewTop(regions[0], stackTop, u), u)
  }

  lemma {:induction false} ReserveMeaning(endSize: nat, p: nat)
    requires p > 0
    ensures var r := Reserve(endSize, p);
            r >= endSize && r >= p && (r == p || r < 4 * endSize)
    decreases endSize - p
  {
    if endSize > p {
      ReserveMeaning(endSize, 4 * p);
    }
  }

  /** What it is: the least of p, 4p, 16p, ... that covers endSize. */
  lemma {:induction false} ReserveIsLeast(endSize: nat, p: nat) returns (k: nat)
    requires p > 0
    ensures Reserve(endSize, p) == Up(p, 2 * k) >= endSize
    ensures forall j: nat :: j < k ==> Up(p, 2 * j) < endSize
    decreases endSize - p
  {
    hide Up;
    BitFields.UpZero(p);
    if endSize > p {
      var k' := ReserveIsLeast(endSize, 4 * p);
      k := k' + 1;
      UpTwo(p, k');
      forall j: nat | j < k
        ensures Up(p, 2 * j) < endSize
      {
        if j > 0 {
          UpTwo(p, j - 1);
        }
      }
    } else {
      k := 0;
    }
  }

  lemma UpTwo(p: nat, j: nat)
    ensures Up(4 * p, 2 * j) == Up(p, 2 * (j + 1))
  {
    BitFields.UpUp(p, 2, 2 * j);
    assert Up(p, 2) == 2 * Up(p, 1);
  }

  lemma WasteBound(waste: nat)
    requires MIN_INDEX <= waste <= MAX_INDEX
    ensures MIN_PAGE <= Pow2(waste) <= 0x400_0000
  {
    PairValues();
    assert Pow2(14) == 0x4000 && Pow2(26) == 0x400_0000;
    assert waste in {12, 13, 14, 15, 16, 17, 18, 19, 20, 21, 22, 23, 24, 25, 26};
  }

  /** The size reserved covers the program and stack and fits in an int. */
  lemma ReservedBounds(stackTop: U64, u: Setup)
    requires GoodSetup(u)
    ensures PhysOf(stackTop) <= Reserved(stackTop, u) < USIZE
    ensures Reserved(stackTop, u) >= MIN_PAGE
  {
    WasteBound(u.waste);
    ReserveMeaning(PhysOf(stackTop), Pow2(u.waste));
  }

  predicate Within(r: Region, r': Region) {
    r'.pa <= r.pa && r.pa + r.length <= r'.pa + r'.length
  }

  /** r is long enough to be trimmed, if it has to be. */
  predicate Roomy(r: Region, stackTop: U64, u: Setup) {
    HoldsStack(r, stackTop) ==> r.length >= Reserved(stackTop, u) + GUARD
  }

  lemma WrapDown(x: int)
    requires -W64 <= x < 0
    ensures Wrap(x) == x + W64
  {
    QuotientIsUnique(x, W64, -1, x + W64);
  }

  /** Trimming stays inside the region exactly when it is long enough: the length is not
      checked and wraps around otherwise. */
  lemma TrimExact(r: Region, stackTop: U64, u: Setup)
    requires GoodSetup(u)
    ensures Within(Trim(r, stackTop, u), r) <==> Roomy(r, stackTop, u)
    ensures HoldsStack(r, stackTop) ==>
              && Trim(r, stackTop, u).pa == r.pa + Reserved(stackTop, u) + GUARD
              && Trim(r, stackTop, u).pa >= PhysOf(stackTop) + GUARD
              && (Roomy(r, stackTop, u) ==>
                    Trim(r, stackTop, u).pa + Trim(r, stackTop, u).length == r.pa + r.length)
  {
    ReservedBounds(stackTop, u);
    if HoldsStack(r, stackTop) {
      var p := Reserved(stackTop, u);
      assert r.pa < K0SIZE;
      if r.length < p + GUARD {
        WrapDown(r.length - p - GUARD);
      }
    }
  }

  /** The new stack top is the K0 address of the last byte kept plus one exactly when that
      byte is within the 512 MB K0 can address. */
  lemma NewTopExact(r: Region, stackTop: U64, u: Setup)
    requires GoodSetup(u) && HoldsStack(r, stackTop)
    ensures PhysOf(NewTop(r, stackTop, u)) + GUARD == Trim(r, stackTop, u).pa
            <==> r.pa + Reserved(stackTop, u) < K0SIZE
  {
    ReservedBounds(stackTop, u);
    TrimExact(r, stackTop, u);
    var x := r.pa + Reserved(stackTop, u);
    assert x < 2 * USIZE;
    K0RoundTrip(x);
  }

  lemma K0RoundTrip(x: U64)
    requires x < 2 * USIZE
    ensures PhysOf(K0Of(x)) == x % K0SIZE
  {
    var y := x % USIZE;
    QuotientIsUnique(K0BASE + y, K0SIZE, 0x7_ffff_fffc + y / K0SIZE, y % K0SIZE);
    QuotientIsUnique(x, K0SIZE, x / USIZE * 4 + y / K0SIZE, y % K0SIZE);
  }

  /** In memory below 512 MB, a region long enough to be trimmed keeps the stack in K0. */
  lemma RoomyStaysInK0(r: Region, stackTop: U64, u: Setup)
    requires GoodSetup(u) && HoldsStack(r, stackTop) && Roomy(r, stackTop, u)
    requires r.pa + r.length <= K0SIZE
    ensures PhysOf(NewTop(r, stackTop, u)) + GUARD == Trim(r, stackTop, u).pa
  {
    NewTopExact(r, stackTop, u);
  }

  /** A board with 256 MB at address zero, set up to waste 32 MB, and a program that ends at
      144 MB: 512 MB are reserved, and the new stack top is the first address after K0. */
  lemma StackLeavesK0()
    ensures var u := Setup(25, K_NTLBENTRIES);
            var r, top := Region(0, SEGMENT), K0BASE + 0x900_0000;
            HoldsStack(r, top) && !Roomy(r, top, u) && NewTop(r, top, u) == K0BASE + K0SIZE
  {
    PairValues();
    assert PhysOf(K0BASE + 0x900_0000) == 0x900_0000;
    assert Reserve(0x900_0000, 0x200_0000) == Reserve(0x900_0000, 0x800_0000)
        == Reserve(0x900_0000, 0x2000_0000) == 0x2000_0000;
  }

  /** A board with 64 MB and a program that ends at 1 MB, at the default setting: the program
      is given all of it and the guard page more, and the length left wraps around. */
  lemma TrimWraps()
    ensures var u := Setup(MAX_INDEX, K_NTLBENTRIES);
            var r, top := Region(0, 0x400_0000), K0BASE + 0x10_0000;
            HoldsStack(r, top) && Trim(r, top, u) == Region(0x400_1000, W64 - GUARD)
  {
    PairValues();
    assert Pow2(26) == 0x400_0000;
    assert PhysOf(K0BASE + 0x10_0000) == 0x10_0000;
    assert Reserve(0x10_0000, 0x400_0000) == 0x400_0000;
    WrapDown(-GUARD);
  }

  // ----- All regions

  /** Every region is long enough when its turn comes. */
  predicate AllRoomy(regions: seq<Region>, stackTop: U64, u: Setup) {
    regions != [] ==>
      Roomy(regions[0], stackTop, u) && AllRoomy(regions[1..], NewTop(regions[0], stackTop, u), u)
  }

  predicate EachWithin(regions: seq<Region>, regions': seq<Region>) {
    |regions| == |regions'| && forall k :: 0 <= k < |regions| ==> Within(regions[k], regions'[k])
  }

  lemma {:induction false} UsableExact(regions: seq<Region>, stackTop: U64, u: Setup)
    requires GoodSetup(u)
    ensures EachWithin(Usable(regions, stackTop, u), regions) <==> AllRoomy(regions, stackTop, u)
    ensures |Usable(regions, stackTop, u)| == |regions|
  {
    if regions != [] {
      var r, rest := regions[0], Usable(regions[1..], NewTop(regions[0], stackTop, u), u);
      TrimExact(r, stackTop, u);
      UsableExact(regions[1..], NewTop(r, stackTop, u), u);
      WithinCons(Trim(r, stackTop, u), rest, regions);
    }
  }

  lemma WithinCons(r: Region, rest: seq<Region>, regions: seq<Region>)
    requires |rest| + 1 == |regions|
    ensures EachWithin([r] + rest, regions) <==> Within(r, regions[0]) && EachWithin(rest, regions[1..])
  {
    var all := [r] + rest;
    if EachWithin(all, regions) {
      forall k | 0 <= k < |rest|
        ensures Within(rest[k], regions[1..][k])
      {
        assert Within(all[k + 1], regions[k + 1]);
      }
      assert Within(all[0], regions[0]);
    } else if Within(r, regions[0]) && EachWithin(rest, regions[1..]) {
      forall k | 0 <= k < |all|
        ensures Within(all[k], regions[k])
      {
        if k > 0 {
          assert Within(rest[k - 1], regions[1..][k - 1]);
        }
      }
    }
  }

  /** Regions inside separate ones are separate. */
  lemma WithinSeparate(regions: seq<Region>, regions': seq<Region>)
    requires EachWithin(regions, regions') && AllSeparate(regions')
    ensures AllSeparate(regions)
  {
    forall i, j | 0 <= i < j < |regions|
      ensures Separate(regions[i], regions[j])
    {
      assert Separate(regions'[i], regions'[j]);
    }
  }

  /** The stack top that region h is tested against. */
  function TopAt(regions: seq<Region>, stackTop: U64, u: Setup, h: nat): U64
    requires h <= |regions|
  {
    TopAfter(regions[..h], stackTop, u)
  }

  /** Region h holds the stack when its turn comes. */
  predicate IsTrimmed(regions: seq<Region>, stackTop: U64, u: Setup, h: nat)
    requires h < |regions|
  {
    HoldsStack(regions[h], TopAt(regions, stackTop, u, h))
  }

  lemma {:induction false} UsableAt(regions: seq<Region>, stackTop: U64, u: Setup, h: nat)
    requires GoodSetup(u) && h < |regions|
    ensures |Usable(regions, stackTop, u)| == |regions|
    ensures Usable(regions, stackTop, u)[h] == Trim(regions[h], TopAt(regions, stackTop, u, h), u)
    ensures AllRoomy(regions, stackTop, u) ==> Roomy(regions[h], TopAt(regions, stackTop, u, h), u)
  {
    hide Trim, NewTop, Roomy;
    UsableExact(regions, stackTop, u);
    if h == 0 {
      assert regions[..0] == [];
    } else {
      UsableAt(regions[1..], NewTop(regions[0], stackTop, u), u, h - 1);
      TopAtNext(regions, stackTop, u, h);
    }
  }

  lemma TopAtNext(regions: seq<Region>, stackTop: U64, u: Setup, h: nat)
    requires 0 < h <= |regions|
    ensures TopAt(regions, stackTop, u, h) == TopAt(regions[1..], NewTop(regions[0], stackTop, u), u, h - 1)
  {
    hide NewTop;
    assert regions[..h][1..] == regions[1..][..h - 1];
  }

  /** What a trimmed region keeps from the heap: from its first byte, where the program begins,
      up to the new stack top, and the guard page that the code puts above it. */
  function Kept(r: Region, stackTop: U64, u: Setup): Region {
    Region(r.pa, Wrap(Reserved(stackTop, u) + GUARD))
  }

  /** It holds the program and its old stack, and ends a guard page above the new stack top,
      where what is left of the region begins. */
  lemma KeptMeaning(r: Region, stackTop: U64, u: Setup)
    requires GoodSetup(u) && HoldsStack(r, stackTop) && Roomy(r, stackTop, u)
    ensures var k, base := Kept(r, stackTop, u), PhysOf(stackTop) / SEGMENT * SEGMENT;
            && Within(k, r) && Within(Region(base, PhysOf(stackTop) - base), k)
            && k.pa + k.length == Trim(r, stackTop, u).pa
            && (r.pa + r.length <= K0SIZE ==> k.pa + k.length == PhysOf(NewTop(r, stackTop, u)) + GUARD)
  {
    ReservedBounds(stackTop, u);
    TrimExact(r, stackTop, u);
    if r.pa + r.length <= K0SIZE {
      RoomyStaysInK0(r, stackTop, u);
    }
  }

  /** No region to be mapped has a byte of what any trimmed one keeps: neither of the program,
      nor of the stack wherever it has been moved to, nor of the guard page above it. */
  lemma ProgramSpared(regions: seq<Region>, stackTop: U64, u: Setup, h: nat, k: nat)
    requires GoodSetup(u) && AllSeparate(regions) && AllRoomy(regions, stackTop, u)
    requires h < |regions| && k < |regions| && IsTrimmed(regions, stackTop, u, h)
    ensures |Usable(regions, stackTop, u)| == |regions|
    ensures Separate(Usable(regions, stackTop, u)[k], Kept(regions[h], TopAt(regions, stackTop, u, h), u))
  {
    hide Trim, Kept, Roomy, HoldsStack, TopAt;
    UsableAt(regions, stackTop, u, h);
    UsableExact(regions, stackTop, u);
    KeptMeaning(regions[h], TopAt(regions, stackTop, u, h), u);
    assert Within(Usable(regions, stackTop, u)[k], regions[k]);
    if k < h {
      assert Separate(regions[k], regions[h]);
    } else if h < k {
      assert Separate(regions[h], regions[k]);
    }
  }

  /** The first region that holds the stack is tested against where the program left it. */
  lemma {:induction false} FirstHolder(regions: seq<Region>, stackTop: U64, u: Setup, h: nat)
    requires h < |regions| && forall k :: 0 <= k < h ==> !HoldsStack(regions[k], stackTop)
    ensures TopAt(regions, stackTop, u, h) == stackTop
    ensures IsTrimmed(regions, stackTop, u, h) <==> HoldsStack(regions[h], stackTop)
  {
    if h == 0 {
      assert regions[..0] == [];
    } else {
      FirstHolder(regions[1..], stackTop, u, h - 1);
      TopAtNext(regions, stackTop, u, h);
    }
  }

  /** The stack the program ends up with tops what some trimmed region keeps, if any region is
      trimmed. */
  lemma {:induction false} FinalStack(regions: seq<Region>, stackTop: U64, u: Setup) returns (h: nat)
    requires GoodSetup(u) && exists k :: 0 <= k < |regions| && IsTrimmed(regions, stackTop, u, k)
    ensures h < |regions| && IsTrimmed(regions, stackTop, u, h)
    ensures TopAfter(regions, stackTop, u) == NewTop(regions[h], TopAt(regions, stackTop, u, h), u)
    decreases |regions|
  {
    var n := |regions| - 1;
    TopAfterLast(regions, stackTop, u);
    if IsTrimmed(regions, stackTop, u, n) {
      h := n;
    } else {
      var k :| 0 <= k < |regions| && IsTrimmed(regions, stackTop, u, k);
      assert k < n && regions[..n][..k] == regions[..k];
      assert IsTrimmed(regions[..n], stackTop, u, k);
      h := FinalStack(regions[..n], stackTop, u);
      assert regions[..n][..h] == regions[..h];
    }
  }

  lemma {:induction false} TopAfterLast(regions: seq<Region>, stackTop: U64, u: Setup)
    requires regions != []
    ensures var n := |regions| - 1;
            TopAfter(regions, stackTop, u) == NewTop(regions[n], TopAt(regions, stackTop, u, n), u)
  {
    hide NewTop;
    var n := |regions| - 1;
    if n == 0 {
      assert regions[1..] == [] == regions[..0];
    } else {
      TopAfterLast(regions[1..], NewTop(regions[0], stackTop, u), u);
      TopAtNext(regions, stackTop, u, n);
    }
  }

  /** All memory handed to the heap is the reported regions' own, and no byte of it twice. */
  lemma HeapMemory(regions: seq<Region>, stackTop: U64, u: Setup)
    requires GoodSetup(u) && AllSeparate(regions) && AllRoomy(regions, stackTop, u)
    requires forall k :: 0 <= k < |regions| ==> regions[k].pa + regions[k].length <= PA_LIMIT
    ensures var ms := MapAll(START, Usable(regions, stackTop, u), u);
            && AllApart(ms)
            && (forall k :: 0 <= k < |ms| ==> InSome(ms[k], regions))
            && (forall k :: 0 <= k < |ms| ==> InSome(ms[k], Usable(regions, stackTop, u)))
            && UsesUpAll(ms, 0, LengthTotal(Usable(regions, stackTop, u)), |regions|, u)
  {
    var us := Usable(regions, stackTop, u);
    var ms := MapAll(START, us, u);
    UsableExact(regions, stackTop, u);
    WithinSeparate(us, regions);
    StartGood(u);
    assert AllLow(us) by {
      assert forall k :: 0 <= k < |us| ==> Within(us[k], regions[k]);
    }
    MapAllMemory(START, us, u);
    MapAllUsesUp(START, us, u);
    forall k | 0 <= k < |ms|
      ensures InSome(ms[k], regions)
    {
      var i :| 0 <= i < |us| && Inside(ms[k], us[i].pa, us[i].length);
      assert Within(us[i], regions[i]);
      assert Inside(ms[k], regions[i].pa, regions[i].length);
    }
  }

  /** No byte that m backs is in r. */
  predicate Clear(m: Mapping, r: Region) {
    m.pa + Backed(m) <= r.pa || r.pa + r.length <= m.pa
  }

  /** And none of it is the program's, the stack's, or a guard page above the stack: entry k
      has no byte of what trimmed region h keeps. */
  lemma HeapSparesProgram(regions: seq<Region>, stackTop: U64, u: Setup, h: nat, k: nat)
    requires GoodSetup(u) && AllSeparate(regions) && AllRoomy(regions, stackTop, u)
    requires forall i :: 0 <= i < |regions| ==> regions[i].pa + regions[i].length <= PA_LIMIT
    requires h < |regions| && IsTrimmed(regions, stackTop, u, h)
    requires k < |MapAll(START, Usable(regions, stackTop, u), u)|
    ensures Clear(MapAll(START, Usable(regions, stackTop, u), u)[k],
                  Kept(regions[h], TopAt(regions, stackTop, u, h), u))
  {
    hide Kept, TopAt, IsTrimmed, MapAll, Usable;
    HeapMemory(regions, stackTop, u);
    var us := Usable(regions, stackTop, u);
    var m := MapAll(START, us, u)[k];
    UsableExact(regions, stackTop, u);
    var i :| 0 <= i < |us| && Inside(m, us[i].pa, us[i].length);
    ProgramSpared(regions, stackTop, u, h, i);
  }

  /** At 256 MB with a program that ends at 2 MB, at the default setting: 64 MB and a page are
      kept, the page being the guard page above the new stack top. */
  lemma KeptOf256MB()
    ensures var u := Setup(MAX_INDEX, K_NTLBENTRIES);
            var r, top := Region(0, SEGMENT), K0BASE + 0x20_0000;
            && HoldsStack(r, top) && Kept(r, top, u) == Region(0, 0x400_1000)
            && PhysOf(NewTop(r, top, u)) == 0x400_0000
  {
    PairValues();
    assert Pow2(26) == 0x400_0000;
    assert PhysOf(K0BASE + 0x20_0000) == 0x20_0000;
    assert Reserve(0x20_0000, 0x400_0000) == 0x400_0000;
  }
}
