/** The page sizes __libcfe_meminit picks when it maps memory for the heap. */
module PairSizes {
  import opened Words

  const MAX_INDEX := 26                 // MAX_PAGESIZE_INDEX
  const MIN_PAGE := 0x1000              // 1 << MIN_PAGESIZE_INDEX
  const MIN_PAIR := 0x2000              // 1 << (MIN_PAGESIZE_INDEX + 1)
  const MAX_PAIR := 0x200_0000          // the largest pair the size computation yields

  /** The sizes of a pair of pages: twice 4 KB, 16 KB, up to 16 MB. */
  predicate LegalPair(p: int) {
    p in {0x2000, 0x8000, 0x2_0000, 0x8_0000, 0x20_0000, 0x80_0000, 0x200_0000}
  }

  /** va is a multiple of the legal size p, spelled out size by size. */
  predicate AlignedTo(va: nat, p: int) {
    match p
    case 0x2000 => va % 0x2000 == 0
    case 0x8000 => va % 0x8000 == 0
    case 0x2_0000 => va % 0x2_0000 == 0
    case 0x8_0000 => va % 0x8_0000 == 0
    case 0x20_0000 => va % 0x20_0000 == 0
    case 0x80_0000 => va % 0x80_0000 == 0
    case 0x200_0000 => va % 0x200_0000 == 0
    case _ => false
  }

  lemma AlignedToMeaning(va: nat, p: int)
    requires LegalPair(p)
    ensures AlignedTo(va, p) <==> va % p == 0
  {
  }

  lemma LegalSizes(p: int)
    requires LegalPair(p)
    ensures MIN_PAIR <= p <= MAX_PAIR && p % MIN_PAIR == 0
  {
  }

  lemma AlignedBounds(va: nat, p: int)
    requires LegalPair(p) && AlignedTo(va, p)
    ensures va % MIN_PAIR == 0 && (va + p) % MIN_PAIR == 0 && MIN_PAIR <= p <= MAX_PAIR
    ensures va > 0 ==> p <= va
  {
    AlignedToMeaning(va, p);
    LegalSizes(p);
    MultipleBounds(va, p);
  }

  lemma MultipleBounds(va: nat, p: int)
    requires p > 0 && va % p == 0 && p % MIN_PAIR == 0
    ensures va % MIN_PAIR == 0 && (va + p) % MIN_PAIR == 0
    ensures va > 0 ==> p <= va
  {
    var k := va / p;
    assert va == k * p;
    MultipleOf(k, p, MIN_PAIR);
    MultipleOf(k + 1, p, MIN_PAIR);
    assert (k + 1) * p == va + p;
    assert k >= 1 ==> k * p >= p;
  }

  /** One more than the number of low zero bits of vaShift, counted from index, at most 26. */
  function AlignedIndex(vaShift: nat, index: nat): (r: nat)
    requires index <= MAX_INDEX
    ensures index <= r <= MAX_INDEX
    decreases MAX_INDEX - index
  {
    if index < MAX_INDEX && vaShift % 2 == 0 then AlignedIndex(vaShift / 2, index + 1) else index
  }

  /** The pair size for an index: an odd power of two not above Pow2(index). */
  function PairOfIndex(index: nat): nat
    requires index >= MIN_INDEX
  {
    Pow2(index - 1 - (index - 1) % 2 + 1)
  }

  function FitPair(memLeft: nat, p: nat): nat {
    if memLeft < p && p > MIN_PAIR then FitPair(memLeft, p / 4) else p
  }

  /** The pair size chosen for address va with memLeft bytes to map. */
  function PairSize(va: nat, memLeft: nat): nat {
    FitPair(memLeft, PairOfIndex(AlignedIndex(va / MIN_PAGE, MIN_INDEX)))
  }

  lemma PairValues()
    ensures Pow2(11) == 0x800 && Pow2(12) == 0x1000 && Pow2(13) == 0x2000 && Pow2(15) == 0x8000
    ensures Pow2(17) == 0x2_0000 && Pow2(19) == 0x8_0000 && Pow2(21) == 0x20_0000
    ensures Pow2(23) == 0x80_0000 && Pow2(25) == 0x200_0000
  {
    assert Pow2(4) == 16;
    assert Pow2(8) == 256;
    assert Pow2(10) == 0x400;
    assert Pow2(16) == 0x1_0000;
    assert Pow2(18) == 0x4_0000;
    assert Pow2(20) == 0x10_0000;
    assert Pow2(22) == 0x40_0000;
    assert Pow2(24) == 0x100_0000;
  }

  lemma Halve(v: nat, d: nat)
    requires v % 2 == 0
    ensures v * d == v / 2 * (2 * d)
  {
  }

  /** The index is the position of the lowest one bit of va, or the limit if that is lower:
      va is q times Pow2 of it, q odd below the limit. */
  lemma {:induction false} AlignedIndexMeaning(va: nat, vaShift: nat, index: nat) returns (q: nat)
    requires MIN_INDEX <= index <= MAX_INDEX && va == vaShift * Pow2(index)
    ensures va == q * Pow2(AlignedIndex(vaShift, index))
    ensures AlignedIndex(vaShift, index) < MAX_INDEX ==> q % 2 == 1
    decreases MAX_INDEX - index
  {
    if index < MAX_INDEX && vaShift % 2 == 0 {
      Halve(vaShift, Pow2(index));
      q := AlignedIndexMeaning(va, vaShift / 2, index + 1);
    } else {
      q := vaShift;
    }
  }

  /** The size for an index of 13 or more is the largest legal one dividing Pow2(index). */
  lemma PairOfIndexMeaning(index: nat)
    requires MIN_INDEX < index <= MAX_INDEX
    ensures LegalPair(PairOfIndex(index))
    ensures Pow2(index) == PairOfIndex(index) || Pow2(index) == 2 * PairOfIndex(index)
    ensures index == MAX_INDEX ==> PairOfIndex(index) == MAX_PAIR
  {
    PairValues();
    assert index in {13, 14, 15, 16, 17, 18, 19, 20, 21, 22, 23, 24, 25, 26};
  }

  lemma {:induction false} FitPairMeaning(memLeft: nat, p: nat)
    requires LegalPair(p)
    ensures var r := FitPair(memLeft, p);
            && LegalPair(r) && r <= p && p % r == 0
            && (r <= memLeft || r == MIN_PAIR)
            && forall q :: LegalPair(q) && q <= p && q <= memLeft ==> q <= r
  {
    if memLeft < p && p > MIN_PAIR {
      FitPairMeaning(memLeft, p / 4);
    }
  }

  lemma MultipleOf(k: int, d: int, e: int)
    requires d > 0 && e > 0 && d % e == 0
    ensures k * d % e == 0
  {
    assert d == e * (d / e) + d % e;
    assert k * d == e * (k * (d / e));
    QuotientIsUnique(k * d, e, k * (d / e), 0);
  }

  /** A legal size above the one for index is a multiple of twice Pow2(index). */
  lemma LargerIsMultiple(index: nat, q: int)
    requires MIN_INDEX < index < MAX_INDEX && LegalPair(q) && q > PairOfIndex(index)
    ensures q % (2 * Pow2(index)) == 0
  {
    PairValues();
    assert index in {13, 14, 15, 16, 17, 18, 19, 20, 21, 22, 23, 24, 25};
  }

  lemma OddMultiple(k: int, d: int, q: int)
    requires d > 0 && q > 0 && q % (2 * d) == 0 && k % 2 == 1
    ensures k * d % q != 0
  {
    var m, j := q / (2 * d), k * d / q;
    assert q == (2 * d) * m;
    assert k * d == q * j + k * d % q;
    OddNeverEven(k, d, m, j);
  }

  lemma OddNeverEven(k: int, d: int, m: int, j: int)
    requires d > 0 && k % 2 == 1
    ensures k * d != ((2 * d) * m) * j
  {
    assert ((2 * d) * m) * j == d * (2 * (m * j));
    var x := k - 2 * (m * j);
    assert d * x == d * k - d * (2 * (m * j));
    if d * x == 0 {
      SmallMultipleIsZero(d, x);
    }
  }

  /** So it does not divide an address whose lowest one bit is at index. */
  lemma LargerNeverDivides(k: nat, index: nat, q: int)
    requires MIN_INDEX < index <= MAX_INDEX && LegalPair(q)
    requires index < MAX_INDEX ==> k % 2 == 1
    requires k * Pow2(index) % q == 0
    ensures q <= PairOfIndex(index)
  {
    PairOfIndexMeaning(index);
    if index < MAX_INDEX && q > PairOfIndex(index) {
      LargerIsMultiple(index, q);
      OddMultiple(k, Pow2(index), q);
    }
  }

  lemma IndexOfAligned(va: nat)
    requires va % MIN_PAIR == 0
    ensures AlignedIndex(va / MIN_PAGE, MIN_INDEX) > MIN_INDEX
  {
    assert va / MIN_PAGE % 2 == 0;
    assert AlignedIndex(va / MIN_PAGE, MIN_INDEX) == AlignedIndex(va / MIN_PAGE / 2, MIN_INDEX + 1);
  }

  /** The chosen pair is the largest legal one that va is aligned to and that fits in the
      memory left; 8 KB when none fits. */
  lemma GreedyIsLargest(va: nat, memLeft: nat)
    requires va % MIN_PAIR == 0
    ensures var p := PairSize(va, memLeft);
            && LegalPair(p) && AlignedTo(va, p)
            && (p <= memLeft || p == MIN_PAIR)
            && forall q :: LegalPair(q) && AlignedTo(va, q) && q <= memLeft ==> q <= p
  {
    var r := AlignedIndex(va / MIN_PAGE, MIN_INDEX);
    IndexOfAligned(va);
    PageMultiple(va);
    var k := AlignedIndexMeaning(va, va / MIN_PAGE, MIN_INDEX);
    PairOfIndexMeaning(r);
    var top := PairOfIndex(r);
    FitPairMeaning(memLeft, top);
    DividesThrough(va, k, r, FitPair(memLeft, top));
    AlignedToMeaning(va, FitPair(memLeft, top));
    forall q | LegalPair(q) && AlignedTo(va, q)
      ensures q <= top
    {
      AlignedToMeaning(va, q);
      LargerNeverDivides(k, r, q);
    }
  }

  lemma PageMultiple(va: nat)
    requires va % MIN_PAIR == 0
    ensures va == va / MIN_PAGE * Pow2(MIN_INDEX)
  {
    PairValues();
    QuotientIsUnique(va, MIN_PAGE, 2 * (va / MIN_PAIR), 0);
  }

  lemma DividesThrough(va: nat, k: nat, index: nat, p: int)
    requires MIN_INDEX < index <= MAX_INDEX && va == k * Pow2(index)
    requires LegalPair(p) && PairOfIndex(index) % p == 0
    ensures va % p == 0
  {
    hide PairOfIndex, Pow2;
    PairOfIndexMeaning(index);
    var top := PairOfIndex(index);
    if Pow2(index) == top {
      MultipleOf(k, top, p);
    } else {
      assert va == (2 * k) * top;
      MultipleOf(2 * k, top, p);
    }
  }

  /** The mapped size is one a page mask describes, with the address aligned to it, exactly
      for addresses that are multiples of 8 KB. */
  lemma LegalExactlyWhenAligned(va: nat, memLeft: nat)
    ensures LegalPair(PairSize(va, memLeft)) && va % PairSize(va, memLeft) == 0 <==> va % MIN_PAIR == 0
  {
    var p := PairSize(va, memLeft);
    if va % MIN_PAIR == 0 {
      GreedyIsLargest(va, memLeft);
      AlignedToMeaning(va, p);
    } else if LegalPair(p) && va % p == 0 {
      AlignedToPair(va, p);
    }
  }

  lemma AlignedToPair(va: nat, p: int)
    requires LegalPair(p) && va % p == 0
    ensures va % MIN_PAIR == 0
  {
    AlignedToMeaning(va, p);
    AlignedBounds(va, p);
  }

  /** The lowest address the documentation allows to start at: the first size is 2 KB, which no
      page mask describes. */
  lemma OnePageStart()
    ensures PairSize(MIN_PAGE, 0x1000_0000) == 0x800 && !LegalPair(0x800)
  {
    PairValues();
    assert AlignedIndex(1, MIN_INDEX) == MIN_INDEX;
    assert PairOfIndex(MIN_INDEX) == Pow2(11);
  }
}
