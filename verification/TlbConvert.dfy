/** The TLB register converter: attributes of an entry to register values and back. */
module TlbConvert {
  import opened Words
  import opened BitFields
  import Tlb

  const VPN2_POS := 13
  const VPN2_WIDTH := 31
  const ASID_WIDTH := 8
  const PFN_POS := 6
  const PFN_WIDTH := 28
  const PGMSK_POS := 13
  const PGMSK_WIDTH := 14

  /** What a register decodes to: one page of the pair, and the pair. */
  datatype Page = Page(pa: nat, pfn: nat, cca: nat, d: nat, v: nat)
  datatype Attributes = Attributes(va: nat, asid: nat, g: bool, pageSize: nat, page0: Page, page1: Page)

  /** The fields of EntryHi and EntryLo, the topmost first. */
  function HiFields(vpn2: nat, asid: nat): seq<Field> {
    [Field(VPN2_POS, VPN2_WIDTH, vpn2), Field(0, ASID_WIDTH, asid)]
  }

  function LoFields(pfn: nat, cca: nat, d: nat, v: nat, g: nat): seq<Field> {
    [Field(PFN_POS, PFN_WIDTH, pfn), Field(3, 3, cca), Field(2, 1, d), Field(1, 1, v), Field(0, 1, g)]
  }

  /** The registers, as the macros combine them. */
  function HiReg(vpn2: nat, asid: nat): U64 {
    HiIsWord(vpn2, asid);
    Or(MakeValue(vpn2, VPN2_POS), MakeValue(asid, 0))
  }

  function LoReg(pfn: nat, cca: nat, d: nat, v: nat, g: nat): U64 {
    LoIsWord(pfn, cca, d, v, g);
    Or(Or(Or(Or(MakeValue(pfn, PFN_POS), MakeValue(cca, 3)), MakeValue(d, 2)), MakeValue(v, 1)), MakeValue(g, 0))
  }

  lemma WordCons(f: Field, rest: seq<Field>)
    ensures Word([f] + rest) == Or(Placed(f), Word(rest))
    ensures Word([f]) == Placed(f)
  {
    assert ([f] + rest)[1..] == rest && [f][1..] == [];
    OrZero(Placed(f));
  }

  lemma HiIsWord(vpn2: nat, asid: nat)
    ensures Or(MakeValue(vpn2, VPN2_POS), MakeValue(asid, 0)) == Word(HiFields(vpn2, asid)) < W64
  {
    hide MakeValue, Or, Word;
    var fs := HiFields(vpn2, asid);
    WordIs64(fs);
    WordCons(fs[0], [fs[1]]);
    WordCons(fs[1], []);
    assert fs == [fs[0]] + [fs[1]];
  }

  lemma LoIsWord(pfn: nat, cca: nat, d: nat, v: nat, g: nat)
    ensures Or(Or(Or(Or(MakeValue(pfn, PFN_POS), MakeValue(cca, 3)), MakeValue(d, 2)), MakeValue(v, 1)),
               MakeValue(g, 0))
            == Word(LoFields(pfn, cca, d, v, g)) < W64
  {
    hide MakeValue, Or, Word;
    var fs := LoFields(pfn, cca, d, v, g);
    WordIs64(fs);
    WordCons(fs[3], [fs[4]]);
    WordCons(fs[2], [fs[3]] + [fs[4]]);
    WordCons(fs[1], [fs[2]] + ([fs[3]] + [fs[4]]));
    WordCons(fs[0], [fs[1]] + ([fs[2]] + ([fs[3]] + [fs[4]])));
    WordCons(fs[4], []);
    assert fs == [fs[0]] + ([fs[1]] + ([fs[2]] + ([fs[3]] + [fs[4]])));
    FiveOrs(Placed(fs[0]), Placed(fs[1]), Placed(fs[2]), Placed(fs[3]), Placed(fs[4]));
  }

  lemma FiveOrs(a: nat, b: nat, c: nat, e: nat, f: nat)
    ensures Or(a, Or(b, Or(c, Or(e, f)))) == Or(Or(Or(Or(a, b), c), e), f)
  {
    hide Or;
    OrAssociates(a, b, Or(c, Or(e, f)));
    OrAssociates(Or(a, b), c, Or(e, f));
    OrAssociates(Or(Or(a, b), c), e, f);
  }

  /** G_TLBHI_VPN2 and the like, for the field at pos. */
  function GetField(word: nat, pos: nat, width: nat): nat
    requires 0 < width < 64 && pos + width <= 64
  {
    GetValue(word, pos, MakeMask(width, pos))
  }

  function PageMask(pageSize: nat): nat
    requires pageSize > 0
  {
    Shl(Shr(pageSize - 1, MIN_INDEX), PGMSK_POS)
  }

  function PageSizeOf(pageMask: nat): nat {
    Or(Shl(GetField(pageMask, PGMSK_POS, PGMSK_WIDTH), MIN_INDEX), 0x1fff) + 1
  }

  function DecodedPage(lo: U64): Page {
    var pfn := GetField(lo, PFN_POS, PFN_WIDTH);
    Page(Shl(pfn, MIN_INDEX), pfn, GetField(lo, 3, 3), GetField(lo, 2, 1), GetField(lo, 1, 1))
  }

  /** What is printed of an entry. */
  function Decoded(e: Tlb.TlbRegs): Attributes {
    Attributes(Shl(GetField(e.entryHi, VPN2_POS, VPN2_WIDTH), VPN2_POS),
               GetField(e.entryHi, 0, ASID_WIDTH),
               GetField(e.entryLo0, 0, 1) != 0 && GetField(e.entryLo1, 0, 1) != 0,
               PageSizeOf(e.pageMask),
               DecodedPage(e.entryLo0), DecodedPage(e.entryLo1))
  }

  // ----- One register and back

  lemma SmallFits(x: nat, n: nat)
    requires n <= 8
    ensures x < Up(1, n) ==> Low(x, n) == x && Shr(x, n) == 0
  {
    ShrIsZero(x, n);
    LowIsAll(x, n);
  }

  lemma HiRoundTrip(vpn2: nat, asid: nat)
    requires asid < 0x100
    ensures GetField(HiReg(vpn2, asid), VPN2_POS, VPN2_WIDTH) == Low(vpn2, VPN2_WIDTH)
    ensures GetField(HiReg(vpn2, asid), 0, ASID_WIDTH) == asid
  {
    var fs := HiFields(vpn2, asid);
    HiIsWord(vpn2, asid);
    SmallFits(asid, 8);
    FitsSpares(fs[1], fs[0]);
    FieldOfWord(fs, 0);
    FieldOfWord(fs, 1);
  }

  lemma LoFit(pfn: nat, cca: nat, d: nat, v: nat, g: nat)
    requires cca < 8 && d < 2 && v < 2 && g < 2
    ensures var fs := LoFields(pfn, cca, d, v, g);
            && AllLegal(fs) && AllDisjoint(fs)
            && forall k :: 1 <= k < 5 ==> Fits(fs[k]) && Low(fs[k].value, fs[k].width) == fs[k].value
  {
    hide Fits;
    var fs := LoFields(pfn, cca, d, v, g);
    SmallFits(cca, 3);
    SmallFits(d, 1);
    SmallFits(v, 1);
    SmallFits(g, 1);
    FitsIsAll(fs[1]);
    FitsIsAll(fs[2]);
    FitsIsAll(fs[3]);
    FitsIsAll(fs[4]);
  }

  lemma LoField(pfn: nat, cca: nat, d: nat, v: nat, g: nat, k: nat)
    requires cca < 8 && d < 2 && v < 2 && g < 2 && k < 5
    ensures var f := LoFields(pfn, cca, d, v, g)[k];
            Legal(f) && GetField(LoReg(pfn, cca, d, v, g), f.pos, f.width) == Low(f.value, f.width)
  {
    var fs := LoFields(pfn, cca, d, v, g);
    LoFit(pfn, cca, d, v, g);
    LoIsWord(pfn, cca, d, v, g);
    hide Fits, Spares, Word, Disjoint, LoFields;
    forall j | 0 <= j < |fs| && j != k
      ensures Spares(fs[j], fs[k])
    {
      if j == 0 {
        TopSpares(pfn, cca, d, v, g, k);
      } else {
        assert Disjoint(fs[k], fs[j]);
        FitsSpares(fs[j], fs[k]);
      }
    }
    FieldOfWord(fs, k);
  }

  lemma TopSpares(pfn: nat, cca: nat, d: nat, v: nat, g: nat, k: nat)
    requires 0 < k < 5
    ensures Spares(LoFields(pfn, cca, d, v, g)[0], LoFields(pfn, cca, d, v, g)[k])
  {
  }

  /** EntryLo and back: everything below the frame number is returned, and of that its low
      28 bits. */
  lemma LoRoundTrip(pfn: nat, cca: nat, d: nat, v: nat, g: nat)
    requires cca < 8 && d < 2 && v < 2 && g < 2
    ensures var lo := LoReg(pfn, cca, d, v, g);
            && DecodedPage(lo) == Page(Shl(Low(pfn, PFN_WIDTH), MIN_INDEX), Low(pfn, PFN_WIDTH), cca, d, v)
            && GetField(lo, 0, 1) == g
  {
    LoField(pfn, cca, d, v, g, 0);
    LoField(pfn, cca, d, v, g, 1);
    LoField(pfn, cca, d, v, g, 2);
    LoField(pfn, cca, d, v, g, 3);
    LoField(pfn, cca, d, v, g, 4);
    SmallFits(cca, 3);
    SmallFits(d, 1);
    SmallFits(v, 1);
    SmallFits(g, 1);
  }

  lemma ShlSmall(x: nat, n: nat)
    requires n <= 6 && x < 0x400_0000_0000_0000
    ensures Shl(x, n) == Up(x, n)
  {
    LowUp(x, n, 64);
    Powers();
    UpUp(1, 58, 6);
    SmallUps(Up(1, 58));
    ShrIsZero(x, 58);
    ShrFurther(x, 58, 64 - n);
    LowIsAll(x, 64 - n);
  }

  lemma SmallUps(x: nat)
    ensures Up(x, 6) == 64 * x && Up(x, 3) == 8 * x && Up(x, 2) == 4 * x && Up(x, 1) == 2 * x
    ensures Up(x, 0) == x
  {
    assert Up(x, 2) == 2 * Up(x, 1);
    assert Up(x, 3) == 2 * Up(x, 2);
    assert Up(x, 4) == 2 * Up(x, 3);
    assert Up(x, 5) == 2 * Up(x, 4);
    assert Up(x, 6) == 2 * Up(x, 5);
  }

  /** EntryLo as a sum. */
  lemma LoRegValue(pfn: nat, cca: nat, d: nat, v: nat, g: nat)
    requires pfn < 0x400_0000_0000_0000 && cca < 8 && d < 2 && v < 2 && g < 2
    ensures LoReg(pfn, cca, d, v, g) == pfn * 64 + cca * 8 + d * 4 + v * 2 + g
  {
    hide Up, Shr, Low, Or, Shl;
    ShlSmall(pfn, 6);
    ShlSmall(cca, 3);
    ShlSmall(d, 2);
    ShlSmall(v, 1);
    ShlSmall(g, 0);
    SmallUps(pfn);
    SmallUps(cca);
    SmallUps(d);
    SmallUps(v);
    SmallUps(g);
    SmallUps(1);
    FiveOrs(Up(pfn, 6), Up(cca, 3), Up(d, 2), Up(v, 1), Shl(g, 0));
    ShrIsZero(g, 1);
    OrIsSum(v, g, 1);
    ShrIsZero(2 * v + g, 2);
    OrIsSum(d, 2 * v + g, 2);
    ShrIsZero(4 * d + 2 * v + g, 3);
    OrIsSum(cca, 4 * d + 2 * v + g, 3);
    ShrIsZero(8 * cca + 4 * d + 2 * v + g, 6);
    OrIsSum(pfn, 8 * cca + 4 * d + 2 * v + g, 6);
  }

  // ----- The page mask

  /** n ones. */
  function Ones(n: nat): nat {
    UpPositive(n);
    Up(1, n) - 1
  }

  lemma OnesStep(n: nat)
    ensures Ones(n + 1) == 2 * Ones(n) + 1
  {
  }

  lemma {:induction false} ShrOnes(m: nat, n: nat)
    ensures Shr(Ones(m + n), n) == Ones(m)
    decreases n
  {
    if n > 0 {
      OnesStep(m + n - 1);
      ShrOnes(m, n - 1);
    }
  }

  lemma ShlOnes(j: nat, n: nat)
    requires j + n <= 64
    ensures Shl(Ones(j), n) == Up(Ones(j), n)
  {
    LowUp(Ones(j), n, 64);
    UpPositive(j);
    LowOnes(j, 64 - n);
  }

  lemma OrDouble(a: nat, b: nat)
    ensures Or(2 * a, 2 * b + 1) == 2 * Or(a, b) + 1
  {
    hide Or;
    OrStep(2 * a, 2 * b + 1);
  }

  lemma OrOdd(m: nat)
    ensures Or(m, 1) == 2 * (m / 2) + 1
  {
    hide Or;
    OrStep(m, 1);
    OrZero(m / 2);
  }

  lemma UpStep(x: nat, n: nat)
    ensures Up(x, n + 1) == 2 * Up(x, n)
  {
  }

  /** Setting one more low bit than m is moved up by rounds m down to an even number. */
  lemma {:induction false} OrOnes(m: nat, n: nat)
    ensures Or(Up(m, n), Ones(n + 1)) == Up(m / 2, n + 1) + Ones(n + 1)
    decreases n
  {
    hide Or, Ones, Up;
    OnesStep(n);
    UpStep(m / 2, n);
    if n > 0 {
      UpStep(m, n - 1);
      UpStep(m / 2, n - 1);
      OrDouble(Up(m, n - 1), Ones(n));
      OrOnes(m, n - 1);
    } else {
      UpZero(m);
      UpZero(m / 2);
      NoOnes();
      OrOdd(m);
    }
  }

  lemma NoOnes()
    ensures Ones(0) == 0
  {
  }

  lemma ThirteenOnes()
    ensures Ones(13) == 0x1fff && Pow2(12) == 0x1000 && Pow2(13) == 0x2000
  {
    Powers();
  }

  /** The page size shown for any page mask: m 4 KB pages and one more, rounded up to an even
      number of them. */
  lemma PageSizeMeaning(pageMask: nat)
    ensures var m := GetField(pageMask, PGMSK_POS, PGMSK_WIDTH);
            PageSizeOf(pageMask) == (m / 2 + 1) * 0x2000
  {
    hide Or, Ones, Up, Shl;
    var m := GetField(pageMask, PGMSK_POS, PGMSK_WIDTH);
    GetMeaning(Field(PGMSK_POS, PGMSK_WIDTH, 0), pageMask);
    ShlOfCut(Shr(pageMask, PGMSK_POS), PGMSK_WIDTH, MIN_INDEX);
    OrOnes(m, MIN_INDEX);
    ThirteenOnes();
    UpIsProduct(m / 2, 13);
  }

  /** The page size comes back for every shift but 12: the macro that undoes the mask sets 13
      low bits, so 4 KB pages are shown as 8 KB. */
  lemma PageSizeReturned(shift: nat)
    requires MIN_INDEX <= shift <= MIN_INDEX + PGMSK_WIDTH
    ensures Up(1, shift) > 0 && PageMask(Up(1, shift)) < W32
    ensures PageMask(Up(1, shift)) == 2 * (Up(1, shift) - 0x1000)
    ensures (PageMask(Up(1, shift)) / Tlb.PAIR % Tlb.MASK_COUNT + 1) * 0x1000 == Up(1, shift)
    ensures PageSizeOf(PageMask(Up(1, shift))) == if shift == MIN_INDEX then 0x2000 else Up(1, shift)
  {
    hide Up, Shr, Low, Or, And, Shl, PageSizeOf;
    var j := shift - MIN_INDEX;
    UpZero(Ones(j));
    UpPositive(shift);
    ShrOnes(j, MIN_INDEX);
    ShlOnes(j, PGMSK_POS);
    MaskBound(j);
    GetMeaning(Field(PGMSK_POS, PGMSK_WIDTH, 0), Up(Ones(j), PGMSK_POS));
    ShrUp(Ones(j), PGMSK_POS, PGMSK_POS);
    LowOnes(j, PGMSK_WIDTH);
    PageSizeMeaning(PageMask(Up(1, shift)));
    Powers();
    UpIsProduct(Ones(j), PGMSK_POS);
    QuotientIsUnique(PageMask(Up(1, shift)), Tlb.PAIR, Ones(j), 0);
    OnesBound(j);
    QuotientIsUnique(Ones(j), Tlb.MASK_COUNT, 0, Ones(j));
    UpUp(1, j, MIN_INDEX);
    UpIsProduct(Up(1, j), MIN_INDEX);
    if j > 0 {
      OnesStep(j - 1);
      UpUp(1, j - 1, 13);
      UpIsProduct(Up(1, j - 1), 13);
      ThirteenOnes();
    } else {
      NoOnes();
    }
  }

  lemma OnesBound(j: nat)
    requires j <= PGMSK_WIDTH
    ensures Ones(j) < 0x4000
  {
    assert Up(1, 14) == 0x4000;
    if j < 14 {
      UpMonotone(j, 14);
    }
  }

  lemma MaskBound(j: nat)
    requires j <= PGMSK_WIDTH
    ensures Up(Ones(j), PGMSK_POS) < 0x800_0000
  {
    OnesBound(j);
    UpGrows(Ones(j), 0x4000, PGMSK_POS);
    assert Up(0x4000, 13) == 0x800_0000;
  }

  lemma {:induction false} UpMonotone(m: nat, n: nat)
    requires m < n
    ensures Up(1, m) < Up(1, n)
    decreases n
  {
    UpPositive(m);
    if m < n - 1 {
      UpMonotone(m, n - 1);
    }
  }

  // ----- Encoding

  /** The option checks: a shift for a page size that the hardware has. */
  predicate GoodShift(shift: nat) {
    MIN_INDEX <= shift <= 26 && shift % 2 == 0
  }

  /** The low n bits of x cleared with a mask, and whether that changes x. */
  method AlignDown(x: U64, n: nat) returns (r: U64, warned: bool)
    requires n <= 64
    ensures r == Aligned(x, n) && (warned <==> x != Aligned(x, n))
  {
    AndAligns(x, n);
    HighAndLow(x, n);
    r := And(x, W64 - Up(1, n));
    warned := r != x;
  }

  method Encode(va: U64, pa0: U64, pa1: Option<U64>, shift: nat, cca: nat, asid: nat,
                dirty: nat, global: nat, valid: nat)
    returns (e: Tlb.TlbRegs, warnVa: bool, warnPa0: bool, warnPa1: bool)
    requires GoodShift(shift) && cca < 8 && asid < 0x100 && dirty < 2 && global < 2 && valid < 2
    ensures e.entryHi == Aligned(va, shift + 1) + asid
    ensures Tlb.Latch(e).page == Tlb.PageOf(Aligned(va, shift + 1)) && Tlb.Latch(e).asid == asid
    ensures var second := if pa1.Some? then pa1.value else Wrap(Aligned(pa0, shift) + Up(1, shift));
            var low := cca * 8 + dirty * 4 + valid * 2 + global;
            && e.pageMask == 2 * (Up(1, shift) - 0x1000)
            && e.entryLo0 == Aligned(pa0, shift) / 0x1000 * 64 + low
            && e.entryLo1 == Aligned(second, shift) / 0x1000 * 64 + low
            && Tlb.Latch(e).lo0 / 32 == Aligned(pa0, shift) / 0x1000 % 0x1000_0000
            && Tlb.Latch(e).lo1 / 32 == Aligned(second, shift) / 0x1000 % 0x1000_0000
    ensures var second := if pa1.Some? then pa1.value else Wrap(Aligned(pa0, shift) + Up(1, shift));
            var d := Decoded(e);
            && (d.va == Aligned(va, shift + 1) <==> va < 0x1000_0000_0000)
            && (d.page0.pa == Aligned(pa0, shift) <==> pa0 < 0x100_0000_0000)
            && (d.page1.pa == Aligned(second, shift) <==> second < 0x100_0000_0000)
            && d.asid == asid && d.g == (global == 1)
            && d.page0.cca == d.page1.cca == cca && d.page0.d == d.page1.d == dirty
            && d.page0.v == d.page1.v == valid
            && (d.pageSize == Up(1, shift) <==> shift != MIN_INDEX)
            && (Tlb.Latch(e).mask + 1) * 0x1000 == Up(1, shift)
            && (warnVa <==> va != Aligned(va, shift + 1)) && (warnPa0 <==> pa0 != Aligned(pa0, shift))
            && (warnPa1 <==> second != Aligned(second, shift))
  {
    hide Up, Shl, Shr, LoReg, HiReg, PageMask, PageSizeOf, GetField, Aligned, DecodedPage;
    var pageSize := Up(1, shift);
    var a, p0, p1: U64;
    a, warnVa := AlignDown(va, shift + 1);
    p0, warnPa0 := AlignDown(pa0, shift);
    if pa1.Some? {
      p1 := pa1.value;
    } else {
      p1 := Wrap(p0 + pageSize);
    }
    p1, warnPa1 := AlignDown(p1, shift);
    PageSizeReturned(shift);
    PageSizeIs(shift);
    e := Tlb.TlbRegs(LoReg(Shr(p0, MIN_INDEX), cca, dirty, valid, global),
                     LoReg(Shr(p1, MIN_INDEX), cca, dirty, valid, global),
                     HiReg(Shr(a, VPN2_POS), asid),
                     PageMask(pageSize));
    ghost var second := if pa1.Some? then pa1.value else Wrap(p0 + pageSize);
    VaReturned(va, shift + 1, asid);
    PaReturned(pa0, shift, cca, dirty, valid, global);
    PaReturned(second, shift, cca, dirty, valid, global);
    HiImage(va, shift + 1, asid);
    LoOfFrame(pa0, shift, cca, dirty, valid, global);
    LoOfFrame(second, shift, cca, dirty, valid, global);
  }

  lemma PageSizeIs(shift: nat)
    requires GoodShift(shift)
    ensures Up(1, shift) > 0 && (Up(1, shift) == 0x2000 ==> shift == 13)
  {
    UpPositive(shift);
    assert Up(1, 13) == 0x2000;
    if shift > 13 {
      UpMonotone(13, shift);
    } else {
      UpMonotone(shift, 13);
    }
  }

  /** An aligned address has its bits from any lower position up. */
  lemma AlignedFrom(x: U64, n: nat, m: nat)
    requires m <= n
    ensures Up(Shr(Aligned(x, n), m), m) == Aligned(x, n) <= x
    ensures Shl(Shr(Aligned(x, n), m), m) == Aligned(x, n)
  {
    hide Up, Low, Shr;
    var a := Aligned(x, n);
    HighAndLow(x, n);
    ShrUp(Shr(x, n), n, m);
    UpUp(Shr(x, n), n - m, m);
    Powers();
    ShrIsZero(a, 64);
    LowIsAll(a, 64);
  }

  /** EntryHi is the aligned address, region bits included, and the ASID below it. */
  lemma HiImage(va: U64, n: nat, asid: nat)
    requires VPN2_POS <= n && asid < 0x100
    ensures HiReg(Shr(Aligned(va, n), VPN2_POS), asid) == Aligned(va, n) + asid
    ensures Aligned(va, n) <= va && Tlb.PageOf(Aligned(va, n) + asid) == Tlb.PageOf(Aligned(va, n))
    ensures (Aligned(va, n) + asid) % 0x100 == asid
  {
    hide Up, Shr, Low, Or, Aligned, Tlb.PageOf;
    var v := Shr(Aligned(va, n), VPN2_POS);
    AlignedFrom(va, n, VPN2_POS);
    Powers();
    UpIsProduct(v, VPN2_POS);
    UpZero(asid);
    ShrIsZero(asid, 64);
    LowIsAll(asid, 64);
    ShrIsZero(asid, VPN2_POS);
    OrIsSum(v, asid, VPN2_POS);
    PageOfSum(v, asid);
  }

  lemma PageOfSum(v: nat, asid: nat)
    requires asid < 0x100 && v * Tlb.PAIR + asid < W64
    ensures Tlb.PageOf(v * Tlb.PAIR + asid) == Tlb.PageOf(v * Tlb.PAIR)
    ensures (v * Tlb.PAIR + asid) % 0x100 == asid
  {
    var r, low := v / 0x2_0000_0000_0000, v % 0x2_0000_0000_0000;
    QuotientIsUnique(v * Tlb.PAIR + asid, Tlb.REGION, r, low * Tlb.PAIR + asid);
    QuotientIsUnique(v * Tlb.PAIR, Tlb.REGION, r, low * Tlb.PAIR);
    QuotientIsUnique(v * Tlb.PAIR + asid, Tlb.PAIR, v, asid);
    QuotientIsUnique(v * Tlb.PAIR, Tlb.PAIR, v, 0);
    QuotientIsUnique(v * Tlb.PAIR + asid, 0x100, v * 0x20, asid);
  }

  /** EntryLo is the frame of the aligned address above the attributes, and the hardware latches
      the frame's low 28 bits. */
  lemma LoOfFrame(pa: U64, n: nat, cca: nat, d: nat, v: nat, g: nat)
    requires MIN_INDEX <= n && cca < 8 && d < 2 && v < 2 && g < 2
    ensures var lo := LoReg(Shr(Aligned(pa, n), MIN_INDEX), cca, d, v, g);
            && lo == Aligned(pa, n) / 0x1000 * 64 + cca * 8 + d * 4 + v * 2 + g
            && lo / 2 % Tlb.LO_COUNT / 32 == Aligned(pa, n) / 0x1000 % 0x1000_0000
  {
    hide Up, Shr, Low, Or, Aligned, LoReg;
    AlignedFrom(pa, n, MIN_INDEX);
    var frame := Shr(Aligned(pa, n), MIN_INDEX);
    Powers();
    MovesAreArithmetic(Aligned(pa, n), MIN_INDEX, 0x1000);
    LoRegValue(frame, cca, d, v, g);
    var lo := LoReg(frame, cca, d, v, g);
    QuotientIsUnique(lo, 64, frame, cca * 8 + d * 4 + v * 2 + g);
    LatchedLo(lo);
  }

  /** EntryHi gives the aligned address back exactly when it has at most 44 bits, and the
      address space always. */
  lemma VaReturned(va: U64, n: nat, asid: nat)
    requires VPN2_POS <= n <= 44 && asid < 0x100
    ensures var hi := HiReg(Shr(Aligned(va, n), VPN2_POS), asid);
            && (Shl(GetField(hi, VPN2_POS, VPN2_WIDTH), VPN2_POS) == Aligned(va, n) <==> va < 0x1000_0000_0000)
            && GetField(hi, 0, ASID_WIDTH) == asid
  {
    var vpn2 := Shr(Aligned(va, n), VPN2_POS);
    HiRoundTrip(vpn2, asid);
    CutAligned(va, n, VPN2_POS, VPN2_WIDTH);
    Powers();
    ShlOfCut(vpn2, VPN2_WIDTH, VPN2_POS);
  }

  /** EntryLo gives the aligned physical address back exactly when it has at most 40 bits,
      and everything else always. */
  lemma PaReturned(pa: U64, n: nat, cca: nat, d: nat, v: nat, g: nat)
    requires MIN_INDEX <= n <= 40 && cca < 8 && d < 2 && v < 2 && g < 2
    ensures var lo := LoReg(Shr(Aligned(pa, n), MIN_INDEX), cca, d, v, g);
            && (DecodedPage(lo).pa == Aligned(pa, n) <==> pa < 0x100_0000_0000)
            && DecodedPage(lo).cca == cca && DecodedPage(lo).d == d && DecodedPage(lo).v == v
            && GetField(lo, 0, 1) == g
  {
    var pfn := Shr(Aligned(pa, n), MIN_INDEX);
    LoRoundTrip(pfn, cca, d, v, g);
    CutAligned(pa, n, MIN_INDEX, PFN_WIDTH);
    Powers();
    ShlOfCut(pfn, PFN_WIDTH, MIN_INDEX);
  }

  /** A cut value moved back up loses nothing in 64 bits. */
  lemma ShlOfCut(x: nat, w: nat, n: nat)
    requires w + n <= 64
    ensures Shl(Low(x, w), n) == Up(Low(x, w), n)
  {
    LowUp(Low(x, w), n, 64);
    LowOfLow(x, w, 64 - n);
  }

  lemma {:induction false} LowOfLow(x: nat, m: nat, n: nat)
    requires m <= n
    ensures Low(Low(x, m), n) == Low(x, m)
  {
    if m > 0 {
      LowOfLow(x / 2, m - 1, n - 1);
    } else {
      LowZero(n);
    }
  }

  /** A field as arithmetic. */
  lemma FieldIs(word: nat, pos: nat, width: nat, p: int, w: int)
    requires 0 < width < 64 && pos + width <= 64 && p == Pow2(pos) && w == Pow2(width)
    ensures GetField(word, pos, width) == word / p % w
  {
    GetMeaning(Field(pos, width, 0), word);
    MovesAreArithmetic(word, pos, p);
    MovesAreArithmetic(Shr(word, pos), width, w);
  }

  /** EntryLo without G, as the hardware holds it, and the fields of EntryLo. */
  lemma LatchedLo(lo: U64)
    ensures var held := lo / 2 % Tlb.LO_COUNT;
            && held / 32 == lo / 64 % 0x1000_0000 && held / 4 % 8 == lo / 8 % 8
            && held / 2 % 2 == lo / 4 % 2 && held % 2 == lo / 2 % 2
  {
    var v := lo % 2;
    var d := lo / 4 % 2;
    var r, f := lo / 2 % 32, lo / 64;
    var g, q := f % 0x1000_0000, f / 0x1000_0000;
    assert lo / 2 == 32 * f + r;
    QuotientIsUnique(lo / 2, Tlb.LO_COUNT, q, 32 * g + r);
    QuotientIsUnique(32 * g + r, 32, g, r);
    LowBits(g, r);
    LowBits(f, r);
    assert lo / 4 == (lo / 2) / 2 && lo / 8 == (lo / 2) / 4;
  }

  lemma LowBits(f: nat, r: nat)
    requires r < 32
    ensures (32 * f + r) / 4 % 8 == r / 4 && (32 * f + r) / 2 % 2 == r / 2 % 2 && (32 * f + r) % 2 == r % 2
  {
    QuotientIsUnique(32 * f + r, 4, 8 * f + r / 4, r % 4);
    QuotientIsUnique(8 * f + r / 4, 8, f, r / 4);
    QuotientIsUnique(32 * f + r, 2, 16 * f + r / 2, r % 2);
    QuotientIsUnique(16 * f + r / 2, 2, 8 * f + r / 4, r / 2 % 2);
  }

  /** The page that the hardware's EntryLo bits above G stand for. */
  function HeldPage(held: nat): Page {
    Page(held / 32 * 0x1000, held / 32, held / 4 % 8, held / 2 % 2, held % 2)
  }

  /** What is shown of one page is what the hardware holds for it. */
  lemma PageShown(lo: U64)
    ensures var held := lo / 2 % Tlb.LO_COUNT;
            DecodedPage(lo) == HeldPage(held)
  {
    hide Shl, GetField;
    Powers();
    FieldIs(lo, PFN_POS, PFN_WIDTH, 64, 0x1000_0000);
    FieldIs(lo, 3, 3, 8, 8);
    FieldIs(lo, 2, 1, 4, 2);
    FieldIs(lo, 1, 1, 2, 2);
    LatchedLo(lo);
    PfnUp(lo);
  }

  lemma PfnUp(lo: U64)
    ensures Shl(GetField(lo, PFN_POS, PFN_WIDTH), MIN_INDEX) == GetField(lo, PFN_POS, PFN_WIDTH) * 0x1000
  {
    hide GetField, Up, Shl;
    ThirteenOnes();
    CutFieldUp(lo, PFN_POS, PFN_WIDTH, MIN_INDEX, 0x1000);
  }

  lemma CutFieldUp(word: nat, pos: nat, width: nat, n: nat, p: nat)
    requires 0 < width < 64 && pos + width <= 64 && width + n <= 64 && p == Pow2(n)
    ensures Shl(GetField(word, pos, width), n) == GetField(word, pos, width) * p
  {
    GetMeaning(Field(pos, width, 0), word);
    ShlOfCut(Shr(word, pos), width, n);
    UpIsProduct(GetField(word, pos, width), n);
  }

  /** The address, ASID and G shown are the hardware's, the region bits of the address left
      out; and the page size is the hardware's, rounded up to an even number of 4 KB pages. */
  lemma DecodedMeaning(e: Tlb.TlbRegs)
    ensures var held, a := Tlb.Latch(e), Decoded(e);
            && a.va == held.page % Tlb.VPN2_COUNT * Tlb.PAIR && a.asid == held.asid && a.g == held.g
            && a.page0 == HeldPage(held.lo0) && a.page1 == HeldPage(held.lo1)
            && (a.g <==> e.entryLo0 % 2 == 1 && e.entryLo1 % 2 == 1)
            && a.pageSize == (held.mask / 2 + 1) * 0x2000
  {
    hide Shl, GetField, PageSizeOf, DecodedPage;
    PageShown(e.entryLo0);
    PageShown(e.entryLo1);
    Powers();
    FieldIs(e.entryHi, VPN2_POS, VPN2_WIDTH, 0x2000, 0x8000_0000);
    CutFieldUp(e.entryHi, VPN2_POS, VPN2_WIDTH, VPN2_POS, 0x2000);
    FieldIs(e.entryHi, 0, ASID_WIDTH, 1, 0x100);
    FieldIs(e.entryLo0, 0, 1, 1, 2);
    FieldIs(e.entryLo1, 0, 1, 1, 2);
    PageSizeMeaning(e.pageMask);
    FieldIs(e.pageMask, PGMSK_POS, PGMSK_WIDTH, 0x2000, 0x4000);
    VpnOfPage(e.entryHi);
  }

  lemma VpnOfPage(hi: U64)
    ensures Tlb.PageOf(hi) % Tlb.VPN2_COUNT == hi / Tlb.PAIR % Tlb.VPN2_COUNT
  {
    var r, v := hi / Tlb.REGION, hi / Tlb.PAIR % Tlb.VPN2_COUNT;
    QuotientIsUnique(r * Tlb.VPN2_COUNT + v, Tlb.VPN2_COUNT, r, v);
  }

  /** Decoding shows what the hardware holds once the registers are written to an entry, taking
      the smallest pages when no page mask is given.  The page size is the hardware's exactly
      when its mask is odd, that is, for all pages but those of 4 KB. */
  method Decode(entryHi: U64, entryLo0: U64, entryLo1: U64, pageMask: Option<U32>) returns (a: Attributes)
    ensures a == Decoded(Tlb.TlbRegs(entryLo0, entryLo1, entryHi, if pageMask.Some? then pageMask.value else 0))
    ensures var held := Tlb.Latch(Tlb.TlbRegs(entryLo0, entryLo1, entryHi,
                                              if pageMask.Some? then pageMask.value else 0));
            && a.va == held.page % Tlb.VPN2_COUNT * Tlb.PAIR && a.asid == held.asid && a.g == held.g
            && a.page0 == HeldPage(held.lo0) && a.page1 == HeldPage(held.lo1)
            && (a.pageSize == (held.mask + 1) * 0x1000 <==> held.mask % 2 == 1)
  {
    hide Decoded;
    var mask: U32 := 0;
    if pageMask.Some? {
      mask := pageMask.value;
    }
    a := Decoded(Tlb.TlbRegs(entryLo0, entryLo1, entryHi, mask));
    DecodedMeaning(Tlb.TlbRegs(entryLo0, entryLo1, entryHi, mask));
  }
}
