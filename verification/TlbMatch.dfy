/** The comparison that tlbp makes, bit by bit, and the addresses for which it holds. */
module TlbMatch {
  import opened Words
  import opened Tlb
  import opened BitFields

  const SEGMENT_BYTES := 0x1000_0000_0000      // bytes that VPN2 addresses in a region, 2^44

  /** The masks of the architecture: 4^k - 1, for pages of 4 KB up to 64 MB. */
  predicate LegalMask(mask: nat, k: nat) { k <= 7 && mask + 1 == Pow2(2 * k) }

  /** Page numbers compared under the complement of the page mask. */
  predicate MaskedEqual(e: Entry, p: nat)
  {
    And(p, W64 - 1 - e.mask) == And(e.page, W64 - 1 - e.mask)
  }

  /** The complement of a run of n low ones drops the low n bits. */
  lemma MaskDrops(p: nat, mask: nat, n: nat)
    requires p < W64 && n <= 64 && mask + 1 == Pow2(n) && mask < W64
    ensures And(p, W64 - 1 - mask) == p / (mask + 1) * (mask + 1)
  {
    hide And, Up, Shr;
    AndAligns(p, n);
    MovesAreArithmetic(p, n, mask + 1);
    UpIsProduct(Shr(p, n), n);
  }

  /** So the masked comparison is the comparison of the quotients. */
  lemma MaskedIsCovers(e: Entry, p: nat, k: nat)
    requires LegalMask(e.mask, k) && p < W64
    ensures MaskedEqual(e, p) <==> Covers(e, p)
  {
    hide And;
    var s := e.mask + 1;
    MaskDrops(p, e.mask, 2 * k);
    MaskDrops(e.page, e.mask, 2 * k);
    SameMultiples(p / s, e.page / s, s);
  }

  lemma SameMultiples(a: int, b: int, s: int)
    requires s > 0
    ensures a * s == b * s <==> a == b
  {
    if a * s == b * s {
      assert s * (a - b) == 0;
      SmallMultipleIsZero(s, a - b);
    }
  }

  /** The bytes that an entry maps: a pair of pages of 4^k times 4 KB. */
  function PairBytes(e: Entry): nat { (e.mask + 1) * PAIR }

  /** The first address of page pair p, and of the range e maps. */
  function AddressOf(p: nat): int { p / VPN2_COUNT * REGION + p % VPN2_COUNT * PAIR }

  function Base(e: Entry): int { AddressOf(ShownPage(e, true)) }

  /** x without the bits between R and VPN2, which the comparison leaves out. */
  function Implemented(x: U64): int { x / REGION * REGION + x % SEGMENT_BYTES }

  /** An entry of pages of 4^k times 4 KB, whatever its mask bits: tlbp matches an address
      exactly when it lies among the PairBytes(e) bytes from Base(e), and that is a multiple
      of PairBytes(e). */
  lemma MatchIsInterval(e: Entry, x: U64, k: nat)
    requires LegalMask(e.mask, k)
    ensures MaskedEqual(e, PageOf(x)) <==> Base(e) <= Implemented(x) < Base(e) + PairBytes(e)
    ensures Base(e) % PairBytes(e) == 0 && PairBytes(e) == 2 * Pow2(2 * k) * 0x1000
  {
    hide MaskedEqual, ShownPage, Covers, PageOf;
    var base, s := ShownPage(e, true), e.mask + 1;
    MaskedIsCovers(e, PageOf(x), k);
    CoversIsInterval(e, PageOf(x));
    SizeDivides(e.mask, k);
    var r, v := base / VPN2_COUNT, base % VPN2_COUNT;
    BaseParts(base, s, VPN2_COUNT / s);
    PageParts(x);
    InRegion(r, v, s, x / REGION, x / PAIR % VPN2_COUNT, x % PAIR);
    BaseAligned(r, v, s);
  }

  /** An aligned run of s pages does not cross a region. */
  lemma BaseParts(base: nat, s: nat, n: nat)
    requires s > 0 && base % s == 0 && VPN2_COUNT == n * s
    ensures base % VPN2_COUNT % s == 0 && base % VPN2_COUNT + s <= VPN2_COUNT
  {
    var r, v, q := base / VPN2_COUNT, base % VPN2_COUNT, base / s;
    assert base == s * q;
    assert v == s * (q - r * n) by {
      assert r * (n * s) == s * (r * n);
    }
    QuotientIsUnique(v, s, q - r * n, 0);
    NextMultiple(s, q - r * n, n);
  }

  lemma NextMultiple(s: int, t: int, n: int)
    requires s > 0 && s * t < s * n
    ensures s * t + s <= s * n
  {
    assert s * (n - t) == s * n - s * t;
    assert n - t <= 0 ==> s * (n - t) <= 0;
    assert n - t >= 1 ==> s * (n - t) >= s;
  }

  lemma PageParts(x: U64)
    ensures PageOf(x) == x / REGION * VPN2_COUNT + x / PAIR % VPN2_COUNT
    ensures x % SEGMENT_BYTES == x / PAIR % VPN2_COUNT * PAIR + x % PAIR
  {
    var q := x / PAIR;
    assert x == PAIR * q + x % PAIR && q == VPN2_COUNT * (q / VPN2_COUNT) + q % VPN2_COUNT;
    QuotientIsUnique(x, SEGMENT_BYTES, q / VPN2_COUNT, q % VPN2_COUNT * PAIR + x % PAIR);
  }

  lemma InOrder(v: nat, s: nat, v': nat, o: nat)
    requires o < PAIR
    ensures v <= v' < v + s <==> v * PAIR <= v' * PAIR + o < v * PAIR + s * PAIR
  {
  }

  /** Page pairs of a region in order are addresses in order. */
  lemma InRegion(r: nat, v: nat, s: nat, r': nat, v': nat, o: nat)
    requires v + s <= VPN2_COUNT && v' < VPN2_COUNT && o < PAIR
    ensures r * VPN2_COUNT + v <= r' * VPN2_COUNT + v' < r * VPN2_COUNT + v + s
            <==> r * REGION + v * PAIR <= r' * REGION + (v' * PAIR + o) < r * REGION + v * PAIR + s * PAIR
  {
    InOrder(v, s, v', o);
    if r < r' {
      assert r' * VPN2_COUNT >= r * VPN2_COUNT + VPN2_COUNT;
      assert r' * REGION >= r * REGION + REGION;
    } else if r' < r {
      assert r * VPN2_COUNT >= r' * VPN2_COUNT + VPN2_COUNT;
      assert r * REGION >= r' * REGION + REGION;
    }
  }

  lemma SizeDivides(mask: nat, k: nat)
    requires LegalMask(mask, k)
    ensures mask + 1 > 0 && VPN2_COUNT == VPN2_COUNT / (mask + 1) * (mask + 1)
    ensures REGION % ((mask + 1) * PAIR) == 0
  {
    Powers();
    UpUp(1, 2 * k, 31 - 2 * k);
    UpUp(1, 31 - 2 * k, 2 * k);
    UpIsProduct(Pow2(31 - 2 * k), 2 * k);
    QuotientIsUnique(VPN2_COUNT, mask + 1, Pow2(31 - 2 * k), 0);
    assert Pow2(31 - 2 * k) * (mask + 1) == VPN2_COUNT;
    RegionDivides(mask, k);
  }

  lemma RegionDivides(mask: nat, k: nat)
    requires LegalMask(mask, k)
    ensures REGION % ((mask + 1) * PAIR) == 0
  {
    Powers();
    var n := 2 * k + 13;
    PowerSum(2 * k, 13, mask + 1, PAIR);
    PowerSum(62 - n, n, Pow2(62 - n), (mask + 1) * PAIR);
    QuotientIsUnique(REGION, (mask + 1) * PAIR, Pow2(62 - n), 0);
  }

  lemma BaseAligned(r: nat, v: nat, s: nat)
    requires s > 0 && v % s == 0 && REGION % (s * PAIR) == 0
    ensures (r * REGION + v * PAIR) % (s * PAIR) == 0
  {
    var d, m := s * PAIR, REGION / (s * PAIR);
    assert REGION == d * m;
    assert v == s * (v / s);
    assert r * REGION + v * PAIR == d * (r * m + v / s) by {
      assert r * (d * m) == d * (r * m);
      assert (s * (v / s)) * PAIR == (s * PAIR) * (v / s);
    }
    QuotientIsUnique(r * REGION + v * PAIR, d, r * m + v / s, 0);
  }
}
