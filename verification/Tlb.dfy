/** The translation lookaside buffer: its registers, the entries they are latched into, and
    the operations that read, probe and write it. */
module Tlb {
  import opened Words

  const PAIR := 0x2000                        // bytes an entry of 4 KB pages maps
  const REGION := 0x4000_0000_0000_0000       // bytes per value of EntryHi.R
  const VPN2_COUNT := 0x8000_0000             // values of EntryHi.VPN2, 31 bits
  const LO_COUNT := 0x2_0000_0000             // values of the EntryLo bits above G, 33 bits
  const MASK_COUNT := 0x4000                  // values of the PageMask field, 14 bits

  /** The registers an entry is exchanged through. */
  datatype TlbRegs = TlbRegs(entryLo0: U64, entryLo1: U64, entryHi: U64, pageMask: U32)

  /** An entry as the hardware holds it.  page: R and VPN2; lo0 and lo1: EntryLo without G. */
  datatype RawEntry = RawEntry(page: nat, asid: nat, mask: nat, g: bool, lo0: nat, lo1: nat)

  predicate Storable(e: RawEntry) {
    && e.page < 4 * VPN2_COUNT && e.asid < 0x100 && e.mask < MASK_COUNT
    && e.lo0 < LO_COUNT && e.lo1 < LO_COUNT
  }

  type Entry = e: RawEntry | Storable(e) witness RawEntry(0, 0, 0, false, 0, 0)

  /** The page pair va lies in: R and VPN2; the bits between them are not kept. */
  function PageOf(va: U64): (p: nat)
    ensures p < 4 * VPN2_COUNT
  {
    va / REGION * VPN2_COUNT + va / PAIR % VPN2_COUNT
  }

  /** A register image as a TLB write latches it: G only when both halves ask for it. */
  function Latch(t: TlbRegs): Entry {
    RawEntry(PageOf(t.entryHi), t.entryHi % 0x100, t.pageMask / PAIR % MASK_COUNT,
             t.entryLo0 % 2 == 1 && t.entryLo1 % 2 == 1,
             t.entryLo0 / 2 % LO_COUNT, t.entryLo1 / 2 % LO_COUNT)
  }

  /** The page number a TLB read shows: whether the masked bits of VPN2 read as zero is the
      implementation's choice. */
  function ShownPage(e: Entry, masksVpn: bool): (p: nat)
    ensures p <= e.page
  {
    if masksVpn then e.page - e.page % (e.mask + 1) else e.page
  }

  function Shown(e: Entry, masksVpn: bool): TlbRegs {
    var p := ShownPage(e, masksVpn);
    var g := if e.g then 1 else 0;
    TlbRegs(2 * e.lo0 + g, 2 * e.lo1 + g,
            p / VPN2_COUNT * REGION + p % VPN2_COUNT * PAIR + e.asid, e.mask * PAIR)
  }

  /** Reading an entry and writing it back with another page mask changes only the mask and,
      at most, the page number within the range the entry covered. */
  lemma LatchShown(e: Entry, masksVpn: bool)
    ensures Latch(Shown(e, masksVpn)) == e.(page := ShownPage(e, masksVpn))
    ensures Latch(Shown(e, masksVpn).(pageMask := 0)) == e.(page := ShownPage(e, masksVpn), mask := 0)
  {
    hide ShownPage, PageOf;
    var p := ShownPage(e, masksVpn);
    SplitPage(p / VPN2_COUNT, p % VPN2_COUNT, e.asid);
    SplitLo(e.lo0, e.g);
    SplitLo(e.lo1, e.g);
  }

  lemma SplitLo(lo: nat, g: bool)
    requires lo < LO_COUNT
    ensures var w := 2 * lo + if g then 1 else 0;
            w / 2 % LO_COUNT == lo && (w % 2 == 1 <==> g)
  {
  }

  lemma SplitPage(r: nat, v: nat, asid: nat)
    requires r < 4 && v < VPN2_COUNT && asid < 0x100
    ensures PageOf(r * REGION + v * PAIR + asid) == r * VPN2_COUNT + v
    ensures (r * REGION + v * PAIR + asid) % 0x100 == asid
  {
    var hi := r * REGION + v * PAIR + asid;
    QuotientIsUnique(hi, REGION, r, v * PAIR + asid);
    QuotientIsUnique(hi, PAIR, r * 0x2_0000_0000_0000 + v, asid);
    QuotientIsUnique(r * 0x2_0000_0000_0000 + v, VPN2_COUNT, r * 0x4_0000, v);
    QuotientIsUnique(hi, 0x100, r * (REGION / 0x100) + v * (PAIR / 0x100), asid);
  }

  // ----- Matching

  /** e maps page p: they agree above the bits the page mask hides.  A legal mask is a run of
      low-order ones, so dividing by mask + 1 drops exactly those bits. */
  predicate Covers(e: Entry, p: nat) {
    p / (e.mask + 1) == e.page / (e.mask + 1)
  }

  predicate Matches(e: Entry, p: nat, asid: nat) {
    Covers(e, p) && (e.g || e.asid == asid)
  }

  /** Some address and address space would match both. */
  ghost predicate Overlap(a: Entry, b: Entry) {
    && (a.g || b.g || a.asid == b.asid)
    && exists p: nat :: Covers(a, p) && Covers(b, p)
  }

  lemma OverlapMeaning(a: Entry, b: Entry)
    ensures Overlap(a, b) <==> exists p: nat, asid: nat :: Matches(a, p, asid) && Matches(b, p, asid)
  {
    if Overlap(a, b) {
      var p: nat :| Covers(a, p) && Covers(b, p);
      var asid := if a.g then b.asid else a.asid;
      assert Matches(a, p, asid) && Matches(b, p, asid);
    }
  }

  ghost predicate ClashFree(s: seq<Entry>) {
    forall i, j :: 0 <= i < j < |s| ==> !Overlap(s[i], s[j])
  }

  lemma ShownPageCovered(e: Entry, masksVpn: bool)
    ensures Covers(e, ShownPage(e, masksVpn))
  {
    var s: int := e.mask + 1;
    assert e.page - e.page % s == e.page / s * s;
    QuotientIsUnique(e.page / s * s, s, e.page / s, 0);
  }

  /** The masked comparison is membership of an interval of page pairs aligned to its own
      size, for every mask of low-order ones and every address. */
  lemma CoversIsInterval(e: Entry, p: nat)
    ensures var base := ShownPage(e, true);
            && (Covers(e, p) <==> base <= p < base + e.mask + 1)
            && base % (e.mask + 1) == 0
  {
    var s: int := e.mask + 1;
    var q := e.page / s;
    QuotientIsUnique(q * s, s, q, 0);
    assert p == s * (p / s) + p % s;
    assert e.page == s * q + e.page % s;
    if q * s <= p < q * s + s {
      QuotientIsUnique(p, s, q, p - q * s);
    }
  }

  // ----- The buffer

  /** One indexed write: what entry index held and what it holds now. */
  datatype Write = Write(index: nat, before: Entry, after: Entry)

  class TlbUnit {
    const entries: array<Entry>
    const masksVpn: bool
    /** Set for good by a write after which two entries overlap: a machine check. */
    ghost var shutdown: bool
    ghost var writes: seq<Write>

    constructor (entries: array<Entry>, masksVpn: bool)
      ensures this.entries == entries && this.masksVpn == masksVpn
      ensures shutdown == !ClashFree(entries[..]) && writes == []
    {
      this.entries, this.masksVpn := entries, masksVpn;
      shutdown := !ClashFree(entries[..]);
      writes := [];
    }

    function Size(): nat { entries.Length }

    /** Written back, the registers give the entry again, or with the page mask cleared its
        first 4 KB pair or the one its page number names; only the page number may have lost
        bits, and only within the range the entry covers. */
    method Read(i: nat) returns (t: TlbRegs)
      requires i < Size()
      ensures t == Shown(entries[i], masksVpn)
      ensures Latch(t) == entries[i].(page := ShownPage(entries[i], masksVpn))
      ensures Latch(t.(pageMask := 0)) == entries[i].(page := ShownPage(entries[i], masksVpn), mask := 0)
      ensures Covers(entries[i], ShownPage(entries[i], masksVpn))
    {
      t := Shown(entries[i], masksVpn);
      LatchShown(entries[i], masksVpn);
      ShownPageCovered(entries[i], masksVpn);
    }

    /** The index of an entry matching va in asid, or a negative number. */
    method Probe(va: U64, asid: nat) returns (index: int)
      ensures index < Size()
      ensures index < 0 ==> forall j :: 0 <= j < Size() ==> !Matches(entries[j], PageOf(va), asid % 0x100)
      ensures index >= 0 ==> Matches(entries[index], PageOf(va), asid % 0x100)
    {
      index := 0;
      while index < Size()
        invariant 0 <= index <= Size()
        invariant forall j :: 0 <= j < index ==> !Matches(entries[j], PageOf(va), asid % 0x100)
      {
        if Matches(entries[index], PageOf(va), asid % 0x100) {
          return;
        }
        index := index + 1;
      }
      index := -1;
    }

    method WriteIndex(i: nat, t: TlbRegs)
      requires i < Size()
      modifies this, entries
      ensures entries[..] == old(entries[..])[i := Latch(t)]
      ensures shutdown == (old(shutdown) || !ClashFree(entries[..]))
      ensures writes == old(writes) + [Write(i, old(entries[i]), Latch(t))]
    {
      writes := writes + [Write(i, entries[i], Latch(t))];
      entries[i] := Latch(t);
      shutdown := shutdown || !ClashFree(entries[..]);
    }
  }
}
