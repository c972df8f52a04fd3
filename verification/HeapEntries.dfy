/** The register images of the heap's TLB entries, and what the hardware makes of them. */
module HeapEntries {
  import opened Words
  import opened PairSizes
  import opened HeapPlan
  import opened Tlb
  import BitFields
  import TlbConvert

  /** EntryLo for memory at pa: frame number, cache attribute cca, then D, V and G. */
  function LoImage(pa: U64, cca: nat, dvg: nat): U64
    requires cca < 8 && dvg < 8
  {
    pa / MIN_PAGE * 64 + cca * 8 + dvg
  }

  /** That is what the C0_TLBLO_REG macro makes. */
  lemma ImageIsMacro(pa: U64, cca: nat, d: nat, v: nat, g: nat)
    requires cca < 8 && d < 2 && v < 2 && g < 2
    ensures LoImage(pa, cca, 4 * d + 2 * v + g) == TlbConvert.LoReg(pa / MIN_PAGE, cca, d, v, g)
  {
    TlbConvert.LoRegValue(pa / MIN_PAGE, cca, d, v, g);
  }

  /** The image the mapping loop writes for m. */
  function RegsOf(m: Mapping, cca: nat): TlbRegs
    requires cca < 8 && m.va < W64 && LegalPair(m.size)
  {
    TlbRegs(LoImage(m.pa, cca, if m.half then 4 else 7),
            if m.half then 0 else LoImage(Wrap(m.pa + m.size / 2), cca, 7),
            m.va / PAIR * PAIR,
            (m.size / 2 - 1) / MIN_PAGE * PAIR)
  }

  /** All four registers are what the macros make. */
  lemma RegsAreMacros(m: Mapping, cca: nat)
    requires cca < 8 && m.va < W64 && LegalPair(m.size)
    ensures var t := RegsOf(m, cca);
            && t.entryHi == TlbConvert.HiReg(BitFields.Shr(m.va, 13), 0)
            && t.pageMask == TlbConvert.PageMask(m.size / 2)
            && t.entryLo0 == TlbConvert.LoReg(m.pa / MIN_PAGE, cca, 1, if m.half then 0 else 1, if m.half then 0 else 1)
            && t.entryLo1 == if m.half then 0 else TlbConvert.LoReg(Wrap(m.pa + m.size / 2) / MIN_PAGE, cca, 1, 1, 1)
  {
    hide TlbConvert.HiReg, TlbConvert.LoReg, TlbConvert.PageMask, BitFields.Shr;
    HiIsMacro(m.va);
    MaskIsMacro(m.size);
    ImageIsMacro(m.pa, cca, 1, if m.half then 0 else 1, if m.half then 0 else 1);
    ImageIsMacro(Wrap(m.pa + m.size / 2), cca, 1, 1, 1);
  }

  lemma HiIsMacro(va: U64)
    ensures va / PAIR * PAIR == TlbConvert.HiReg(BitFields.Shr(va, 13), 0)
  {
    hide TlbConvert.HiReg, BitFields.Shr, Up;
    BitFields.Powers();
    BitFields.MovesAreArithmetic(va, 13, PAIR);
    BitFields.UpIsProduct(va / PAIR, 13);
    BitFields.ShrUp(va / PAIR, 13, 13);
    BitFields.UpZero(va / PAIR);
    TlbConvert.HiImage(va, 13, 0);
  }

  lemma MaskIsMacro(size: nat)
    requires LegalPair(size)
    ensures (size / 2 - 1) / MIN_PAGE * PAIR == TlbConvert.PageMask(size / 2)
  {
    hide TlbConvert.PageMask, TlbConvert.PageSizeOf, Up;
    var shift := ShiftOf(size);
    var pages := size / MIN_PAIR;
    TlbConvert.PageSizeReturned(shift);
    QuotientIsUnique(size / 2 - 1, MIN_PAGE, pages - 1, MIN_PAGE - 1);
  }

  lemma ShiftOf(size: nat) returns (shift: nat)
    requires LegalPair(size)
    ensures TlbConvert.GoodShift(shift) && size / 2 == Pow2(shift)
  {
    PairValues();
    assert Pow2(14) == 0x4000 && Pow2(16) == 0x1_0000 && Pow2(18) == 0x4_0000;
    assert Pow2(20) == 0x10_0000 && Pow2(22) == 0x40_0000 && Pow2(24) == 0x100_0000;
    shift := if size == 0x2000 then 12 else if size == 0x8000 then 14 else if size == 0x2_0000 then 16
             else if size == 0x8_0000 then 18 else if size == 0x20_0000 then 20
             else if size == 0x80_0000 then 22 else 24;
  }

  /** m can stand in the TLB: a good mapping of user addresses. */
  predicate UserMapping(m: Mapping) {
    GoodMapping(m) && m.va + m.size <= USIZE
  }

  function EntryOf(m: Mapping, cca: nat): Entry
    requires cca < 8 && UserMapping(m)
  {
    Latch(RegsOf(m, cca))
  }

  lemma EntryFields(m: Mapping, cca: nat)
    requires cca < 8 && UserMapping(m)
    ensures var e := EntryOf(m, cca);
            && e.page == m.va / PAIR && e.mask + 1 == m.size / PAIR && e.asid == 0
            && e.g == !m.half
  {
    AlignedBounds(m.va, m.size);
    UserPage(m.va / PAIR);
    MaskOf(m.size);
    LoBits(m.pa, cca, if m.half then 4 else 7);
    LoBits(Wrap(m.pa + m.size / 2), cca, 7);
  }

  lemma LoBits(pa: U64, cca: nat, dvg: nat)
    requires cca < 8 && dvg < 8
    ensures LoImage(pa, cca, dvg) % 2 == dvg % 2
  {
  }

  lemma MaskOf(p: nat)
    requires LegalPair(p)
    ensures (p / 2 - 1) / MIN_PAGE * PAIR / PAIR % MASK_COUNT + 1 == p / PAIR
  {
  }

  lemma UserPage(k: nat)
    requires k < USIZE / PAIR
    ensures PageOf(k * PAIR) == k && k * PAIR % 0x100 == 0
  {
    UserPageOf(k * PAIR);
    QuotientIsUnique(k * PAIR, PAIR, k, 0);
    QuotientIsUnique(k * PAIR, 0x100, k * (PAIR / 0x100), 0);
  }

  lemma UserPageOf(x: U64)
    requires x < USIZE
    ensures PageOf(x) == x / PAIR
  {
    QuotientIsUnique(x, REGION, 0, x);
    QuotientIsUnique(x / PAIR, VPN2_COUNT, 0, x / PAIR);
  }

  lemma DivideTwice(x: nat, d: nat)
    requires d > 0
    ensures x / PAIR / d == x / (PAIR * d)
  {
    var q := x / PAIR;
    var k, r := q / d, q % d;
    assert q == d * k + r;
    assert x == PAIR * q + x % PAIR;
    assert PAIR * q == (PAIR * d) * k + PAIR * r;
    assert PAIR * r + x % PAIR < PAIR * d;
    QuotientIsUnique(x, PAIR * d, k, PAIR * r + x % PAIR);
  }

  lemma SameQuotient(va: nat, p: nat, x: nat)
    requires p > 0 && va % p == 0
    ensures x / p == va / p <==> va <= x < va + p
  {
    assert x == p * (x / p) + x % p;
    assert va == p * (va / p);
    if va <= x < va + p {
      QuotientIsUnique(x, p, va / p, x - va);
    }
  }

  /** The hardware's masked comparison matches exactly the addresses the entry is meant for. */
  lemma EntryCovers(m: Mapping, cca: nat, x: U64)
    requires cca < 8 && UserMapping(m) && x < USIZE
    ensures Covers(EntryOf(m, cca), PageOf(x)) <==> Maps(m, x)
  {
    EntryFields(m, cca);
    UserPageOf(x);
    AlignedToMeaning(m.va, m.size);
    SameQuotient(m.va, m.size, x);
    PairUnits(m.size);
    DivideTwice(x, m.size / PAIR);
    DivideTwice(m.va, m.size / PAIR);
  }

  lemma PairUnits(p: nat)
    requires LegalPair(p)
    ensures PAIR * (p / PAIR) == p
  {
  }

  // ----- All entries

  predicate AllUser(ms: seq<Mapping>) {
    forall k :: 0 <= k < |ms| ==> UserMapping(ms[k])
  }

  /** The TLB s with its first entries written for ms. */
  function Programmed(s: seq<Entry>, ms: seq<Mapping>, cca: nat): (r: seq<Entry>)
    requires cca < 8 && AllUser(ms) && |ms| <= |s|
    ensures |r| == |s|
  {
    seq<Entry>(|s|, k requires 0 <= k < |s| => if k < |ms| then EntryOf(ms[k], cca) else s[k])
  }

  lemma ProgrammedNone(s: seq<Entry>, cca: nat)
    requires cca < 8
    ensures AllUser([]) && Programmed(s, [], cca) == s
  {
  }

  /** No entry of s matches a user address. */
  predicate UserFree(s: seq<Entry>) {
    forall k :: 0 <= k < |s| ==> NotUser(s[k])
  }

  predicate NotUser(e: Entry) { e.page - e.page % (e.mask + 1) >= USIZE / PAIR }

  lemma TilesAreUser(ms: seq<Mapping>, u: Setup)
    requires GoodSetup(u) && TilesFrom(START, ms, u)
    ensures AllUser(ms) && |ms| <= u.entries
  {
    forall k | 0 <= k < |ms|
      ensures UserMapping(ms[k])
    {
      TilesInside(ms, VA_START, k);
      ReachBound(After(START, ms).index);
    }
  }

  /** Pages an entry of a user mapping covers are user pages. */
  lemma CoveredIsUser(m: Mapping, cca: nat, p: nat)
    requires cca < 8 && UserMapping(m) && Covers(EntryOf(m, cca), p)
    ensures p < USIZE / PAIR && Maps(m, p * PAIR)
  {
    var e := EntryOf(m, cca);
    EntryFields(m, cca);
    CoversIsInterval(e, p);
    AlignedBounds(m.va, m.size);
    PairUnits(m.size);
    assert ShownPage(e, true) <= e.page;
    assert p < USIZE / PAIR;
    UserPage(p);
    EntryCovers(m, cca, p * PAIR);
  }

  /** Writing the heap's entries over a TLB that holds nothing at user addresses creates no
      overlap. */
  lemma ProgrammedClashFree(s: seq<Entry>, ms: seq<Mapping>, cca: nat, va: nat)
    requires cca < 8 && AllUser(ms) && |ms| <= |s| && Tiles(ms, va)
    requires ClashFree(s) && UserFree(s)
    ensures ClashFree(Programmed(s, ms, cca))
  {
    var r := Programmed(s, ms, cca);
    forall i, j | 0 <= i < j < |r|
      ensures !Overlap(r[i], r[j])
    {
      forall p: nat
        ensures !(Covers(r[i], p) && Covers(r[j], p)) || (r[i] == s[i] && r[j] == s[j])
      {
        if i < |ms| && Covers(r[i], p) && Covers(r[j], p) {
          CoveredIsUser(ms[i], cca, p);
          if j < |ms| {
            CoveredIsUser(ms[j], cca, p);
            TilesInOrder(ms, va, i, j);
          } else {
            assert NotUser(s[j]);
            CoversIsInterval(s[j], p);
          }
        }
      }
      assert i >= |ms| ==> !Overlap(s[i], s[j]);
    }
  }

  lemma {:induction false} TilesInOrder(ms: seq<Mapping>, va: nat, i: nat, j: nat)
    requires Tiles(ms, va) && i < j < |ms|
    ensures ms[i].va + ms[i].size <= ms[j].va
  {
    if i > 0 {
      TilesInOrder(ms[1..], va + ms[0].size, i - 1, j - 1);
    } else {
      TilesInside(ms[1..], va + ms[0].size, j - 1);
    }
  }

  // ----- Translation

  /** Where the hardware takes an access to x through e; nothing when the page is invalid.
      Frame number bits below the page size are not used. */
  function Translate(e: Entry, x: U64): Option<int> {
    var page := (e.mask + 1) * MIN_PAGE;
    var lo := if x / page % 2 == 0 then e.lo0 else e.lo1;
    if lo % 2 == 0 then None else Some(lo / 32 * MIN_PAGE / page * page + x % page)
  }

  predicate LegalPage(h: int) {
    h in {0x1000, 0x4000, 0x1_0000, 0x4_0000, 0x10_0000, 0x40_0000, 0x100_0000}
  }

  lemma LoParts(frame: nat, cca: nat, dvg: nat)
    requires frame < 0x1000_0000 && cca < 8 && dvg < 8
    ensures var lo := frame * 32 + cca * 4 + dvg / 2;
            && (frame * 64 + cca * 8 + dvg) / 2 % LO_COUNT == lo
            && lo / 32 == frame && lo % 2 == dvg / 2 % 2 && lo / 2 % 2 == dvg / 4 && lo / 4 % 8 == cca
  {
    var lo := frame * 32 + cca * 4 + dvg / 2;
    QuotientIsUnique(lo, 32, frame, cca * 4 + dvg / 2);
    QuotientIsUnique(lo, 4, frame * 8 + cca, dvg / 2);
    QuotientIsUnique(frame * 8 + cca, 8, frame, cca);
    QuotientIsUnique(lo, 2, frame * 16 + cca * 2 + dvg / 4, dvg / 2 % 2);
    QuotientIsUnique(frame * 16 + cca * 2 + dvg / 4, 2, frame * 8 + cca, dvg / 4);
  }

  lemma LoFields(pa: U64, cca: nat, dvg: nat)
    requires cca < 8 && dvg < 8 && pa < PA_LIMIT
    ensures var lo := LoImage(pa, cca, dvg) / 2 % LO_COUNT;
            && lo / 32 == pa / MIN_PAGE && lo % 2 == dvg / 2 % 2
            && lo / 2 % 2 == dvg / 4 && lo / 4 % 8 == cca
  {
    LoParts(pa / MIN_PAGE, cca, dvg);
  }

  lemma PageBits(pa: nat, h: nat)
    requires LegalPage(h)
    ensures pa / MIN_PAGE * MIN_PAGE / h * h == pa - pa % h
    ensures (pa + h) % h == pa % h
  {
    PageUnits(h);
    FrameBits(pa, h / MIN_PAGE, h);
    QuotientIsUnique(pa + h, h, pa / h + 1, pa % h);
  }

  lemma PageUnits(h: nat)
    requires LegalPage(h)
    ensures h == MIN_PAGE * (h / MIN_PAGE)
  {
  }

  lemma FrameBits(pa: nat, d: nat, h: nat)
    requires d > 0 && h == MIN_PAGE * d
    ensures pa / MIN_PAGE * MIN_PAGE / h * h == pa - pa % h
  {
    var k := pa / MIN_PAGE;
    var q, r := k / d, k % d;
    assert k == d * q + r;
    assert (d * q) * MIN_PAGE == h * q;
    QuotientIsUnique(k * MIN_PAGE, h, q, MIN_PAGE * r);
    QuotientIsUnique(pa, h, q, MIN_PAGE * r + pa % MIN_PAGE);
  }

  lemma WhichPage(va: nat, h: nat, x: nat)
    requires h > 0 && va % (2 * h) == 0 && va <= x < va + 2 * h
    ensures if x < va + h then x / h % 2 == 0 && x % h == x - va
            else x / h % 2 == 1 && x % h == x - va - h
  {
    var q := va / (2 * h);
    assert va == (2 * h) * q == h * (2 * q);
    if x < va + h {
      QuotientIsUnique(x, h, 2 * q, x - va);
    } else {
      assert h * (2 * q + 1) == va + h;
      QuotientIsUnique(x, h, 2 * q + 1, x - va - h);
    }
  }

  lemma PageOfPair(m: Mapping, cca: nat)
    requires cca < 8 && UserMapping(m)
    ensures LegalPage(m.size / 2) && m.size == 2 * (m.size / 2)
    ensures (EntryOf(m, cca).mask + 1) * MIN_PAGE == m.size / 2
  {
    EntryFields(m, cca);
  }

  /** Both pages of a full entry are valid and writable, with the cache attribute given, and
      name the two halves of the mapping's memory in order. */
  lemma EntryLos(m: Mapping, cca: nat)
    requires cca < 8 && UserMapping(m) && !m.half && m.pa + m.size <= PA_LIMIT
    ensures var e := EntryOf(m, cca);
            && e.lo0 / 32 == m.pa / MIN_PAGE && e.lo0 % 2 == e.lo0 / 2 % 2 == 1 && e.lo0 / 4 % 8 == cca
            && e.lo1 / 32 == (m.pa + m.size / 2) / MIN_PAGE && e.lo1 % 2 == e.lo1 / 2 % 2 == 1
            && e.lo1 / 4 % 8 == cca
  {
    LoFields(m.pa, cca, 7);
    LoFields(m.pa + m.size / 2, cca, 7);
  }

  /** A full entry translates as if its memory began at the page boundary at or below pa. */
  lemma TranslateIs(m: Mapping, cca: nat, x: U64)
    requires cca < 8 && UserMapping(m) && !m.half && m.pa + m.size <= PA_LIMIT && Maps(m, x)
    ensures Translate(EntryOf(m, cca), x) == Some(m.pa - m.pa % (m.size / 2) + (x - m.va))
  {
    hide EntryOf;
    var h := m.size / 2;
    PageOfPair(m, cca);
    EntryLos(m, cca);
    AlignedToMeaning(m.va, m.size);
    WhichPage(m.va, h, x);
    PageBits(m.pa, h);
    PageBits(m.pa + h, h);
  }

  /** So it reaches the memory it was made for exactly when that begins on a boundary of its
      own page size, which the mapping loop does not check. */
  lemma TranslateExact(m: Mapping, cca: nat, x: U64)
    requires cca < 8 && UserMapping(m) && !m.half && m.pa + m.size <= PA_LIMIT && Maps(m, x)
    ensures Translate(EntryOf(m, cca), x) == Some(m.pa + (x - m.va)) <==> m.pa % (m.size / 2) == 0
  {
    TranslateIs(m, cca, x);
  }

  /** The heap's first byte when the program's region is mapped first: trimming leaves memory
      that begins 4 KB above a boundary, the entry's pages are 256 KB, and so the entry maps
      the guard page below the memory it was made for. */
  lemma GuardPageIsMapped(cca: nat)
    requires cca < 8
    ensures var m := Head(START, 0x400_1000, 0xbff_f000);
            UserMapping(m) && Translate(EntryOf(m, cca), VA_START) == Some(0x400_1000 - MIN_PAGE)
  {
    var m := Mapping(VA_START, 0x400_1000, 0x8_0000, false);
    assert UserMapping(m) && m.pa % 0x4_0000 == MIN_PAGE;
    TranslateIs(m, cca, VA_START);
    FirstHead(0x400_1000);
  }

  lemma FirstHead(pa: U64)
    ensures Head(START, pa, 0xbff_f000) == Mapping(VA_START, pa, 0x8_0000, false)
  {
    GreedyIsLargest(VA_START, 0xbff_f000);
    assert AlignedTo(VA_START, 0x8_0000);
  }
}
