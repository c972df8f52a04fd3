/** Resetting the TLB to invalid entries without ever letting two of them overlap. */
module TlbUtils {
  import opened Words
  import opened Tlb
  import BitFields

  const INVALID_ASID := 0

  /** Sizes for which 2 * 8192 * size is an int in the source; the hardware has 1 to 64. */
  predicate GoodSize(n: nat) { 0 < n < 0x2_0000 }

  /** The address t page pairs above the scratch range: slots 0 to 2n-1 are the scratch range
      just below base, slots 2n to 3n-1 the final range from base upwards. */
  function SlotAddress(base: U64, n: nat, t: int): U64 {
    Wrap(base + PAIR * (t - 2 * n))
  }

  /** The entry both passes write at slot t: invalid, not global, ASID 0, 4 KB pages. */
  function InvalidAt(base: U64, n: nat, t: int): Entry {
    RawEntry(PageOf(SlotAddress(base, n, t)), INVALID_ASID, 0, false, 0, 0)
  }

  /** The whole TLB as init_tlb leaves it. */
  function InvalidTlb(base: U64, n: nat): (s: seq<Entry>)
    ensures |s| == n
    ensures forall i :: 0 <= i < n ==> s[i] == InvalidAt(base, n, 2 * n + i)
  {
    seq<Entry>(n, i => InvalidAt(base, n, 2 * n + i))
  }

  /** Slots have different pages, wherever base lies and even when the range wraps around. */
  lemma SlotsDiffer(base: U64, n: nat, t: nat, u: nat)
    requires GoodSize(n) && base % PAIR == 0 && t < u < 3 * n
    ensures PageOf(SlotAddress(base, n, t)) != PageOf(SlotAddress(base, n, u))
  {
    LowPage(base, n, t);
    LowPage(base, n, u);
    ShiftedDiffer(base / PAIR + VPN2_COUNT - 2 * n + t, u - t);
  }

  lemma ShiftedDiffer(x: nat, d: nat)
    requires 0 < d < VPN2_COUNT
    ensures x % VPN2_COUNT != (x + d) % VPN2_COUNT
  {
  }

  lemma LowPage(base: U64, n: nat, t: nat)
    requires GoodSize(n) && base % PAIR == 0 && t < 3 * n
    ensures PageOf(SlotAddress(base, n, t)) % VPN2_COUNT == (base / PAIR + VPN2_COUNT - 2 * n + t) % VPN2_COUNT
  {
    var k := t - 2 * n;
    var q := base / PAIR + k;
    assert base + PAIR * k == PAIR * q;
    WrappedPage(q);
    VpnOf(SlotAddress(base, n, t));
    SameResidue(q);
  }

  lemma SameResidue(q: int)
    requires q + VPN2_COUNT >= 0
    ensures q % VPN2_COUNT == (q + VPN2_COUNT) % VPN2_COUNT
  {
  }

  lemma VpnOf(a: U64)
    ensures PageOf(a) % VPN2_COUNT == a / PAIR % VPN2_COUNT
  {
  }

  lemma WrappedPage(q: int)
    ensures Wrap(PAIR * q) / PAIR % VPN2_COUNT == q % VPN2_COUNT
  {
    var k, rem := q / 0x8_0000_0000_0000, q % 0x8_0000_0000_0000;
    WrappedPageOf(k, rem);
    ResidueOf(0x10_0000 * k, rem);
  }

  lemma WrappedPageOf(k: int, rem: int)
    requires 0 <= rem < 0x8_0000_0000_0000
    ensures Wrap(PAIR * (0x8_0000_0000_0000 * k + rem)) / PAIR == rem
  {
    assert PAIR * (0x8_0000_0000_0000 * k + rem) == W64 * k + PAIR * rem;
    assert (W64 * k + PAIR * rem) % W64 == PAIR * rem;
  }

  lemma ResidueOf(k: int, rem: int)
    ensures (VPN2_COUNT * k + rem) % VPN2_COUNT == rem % VPN2_COUNT
  {
  }

  lemma LatchInvalid(addr: U64)
    requires addr % PAIR == 0
    ensures Latch(TlbRegs(0, 0, addr, 0)) == RawEntry(PageOf(addr), 0, 0, false, 0, 0)
  {
  }

  lemma NextSlot(base: U64, n: nat, t: int, addr: U64, next: U64)
    requires addr == SlotAddress(base, n, t) && next == Wrap(addr + PAIR)
    ensures next == SlotAddress(base, n, t + 1)
  {
  }

  lemma FirstSlot(base: U64, n: nat, addr: U64)
    requires addr == Wrap(base - 2 * PAIR * n)
    ensures addr == SlotAddress(base, n, 0)
  {
  }

  lemma SlotAligned(base: U64, n: nat, t: int)
    requires base % PAIR == 0
    ensures SlotAddress(base, n, t) % PAIR == 0
  {
    WrapAligned(base / PAIR + t - 2 * n);
    assert base + PAIR * (t - 2 * n) == PAIR * (base / PAIR + t - 2 * n);
  }

  lemma WrapAligned(q: int)
    ensures Wrap(PAIR * q) % PAIR == 0
  {
    var k, rem := q / 0x8_0000_0000_0000, q % 0x8_0000_0000_0000;
    assert PAIR * q == W64 * k + PAIR * rem;
    QuotientIsUnique(PAIR * q, W64, k, PAIR * rem);
    QuotientIsUnique(PAIR * rem, PAIR, rem, 0);
  }

  lemma FinalSlot(base: U64, n: nat, i: nat)
    requires base % PAIR == 0
    ensures Wrap(base + PAIR * i + INVALID_ASID) == SlotAddress(base, n, 2 * n + i)
    ensures SlotAddress(base, n, 2 * n + i) % PAIR == 0
  {
    SlotAligned(base, n, 2 * n + i);
  }

  // ----- What single writes do to overlap

  /** An entry of 4 KB pages overlaps another only at its own page. */
  lemma SmallOverlap(a: Entry, b: Entry)
    requires a.mask == 0
    ensures Overlap(a, b) <==> (a.g || b.g || a.asid == b.asid) && Covers(b, a.page)
    ensures Overlap(b, a) <==> Overlap(a, b)
  {
    assert forall p: nat :: Covers(a, p) <==> p == a.page;
    assert Covers(a, a.page);
  }

  /** Cutting an entry down within its range creates no overlap. */
  lemma ShrinkKeepsClashFree(s: seq<Entry>, c: nat, e: Entry)
    requires c < |s| && ClashFree(s)
    requires e.mask == 0 && Covers(s[c], e.page) && e.asid == s[c].asid && e.g == s[c].g
    ensures ClashFree(s[c := e])
  {
    forall j | 0 <= j < |s| && j != c
      ensures !Overlap(e, s[j]) && !Overlap(s[j], e)
    {
      SmallOverlap(e, s[j]);
      assert !Overlap(s[c], s[j]) || !Overlap(s[j], s[c]);
    }
  }

  /** An invalid entry at a page that no other entry matches in ASID 0 creates none either. */
  lemma PlaceKeepsClashFree(s: seq<Entry>, i: nat, e: Entry)
    requires i < |s| && ClashFree(s)
    requires e.mask == 0 && !e.g && e.asid == INVALID_ASID
    requires forall j :: 0 <= j < |s| && j != i ==> !Matches(s[j], e.page, INVALID_ASID)
    ensures ClashFree(s[i := e])
  {
    forall j | 0 <= j < |s| && j != i
      ensures !Overlap(e, s[j]) && !Overlap(s[j], e)
    {
      SmallOverlap(e, s[j]);
    }
  }

  /** Two entries of an overlap-free TLB never match the same page in the same space. */
  lemma OneMatch(s: seq<Entry>, i: nat, j: nat, p: nat, asid: nat)
    requires ClashFree(s) && i < |s| && j < |s|
    requires Matches(s[i], p, asid) && Matches(s[j], p, asid)
    ensures i == j
  {
    assert i < j ==> Overlap(s[i], s[j]);
    assert j < i ==> Overlap(s[j], s[i]);
  }

  /** So an entry matching where another was rewritten is the rewritten one. */
  lemma StillCovering(s: seq<Entry>, c: nat, e: Entry, k: nat, p: nat, asid: nat)
    requires ClashFree(s) && c < |s| && k < |s|
    requires Matches(s[c], p, asid) && Matches(s[c := e][k], p, asid)
    ensures k == c
  {
    if k != c {
      OneMatch(s, c, k, p, asid);
    }
  }

  // ----- The two routines

  method InvalidateTlbEntry(tlb: TlbUnit, i: nat, base: U64)
    requires i < tlb.Size() && GoodSize(tlb.Size()) && base % PAIR == 0
    modifies tlb, tlb.entries
    ensures var e := InvalidAt(base, tlb.Size(), 2 * tlb.Size() + i);
            && tlb.entries[..] == old(tlb.entries[..])[i := e]
            && tlb.writes == old(tlb.writes) + [Write(i, old(tlb.entries[i]), e)]
    ensures tlb.shutdown == (old(tlb.shutdown) || !ClashFree(tlb.entries[..]))
  {
    hide Wrap, SlotAddress, PageOf, ClashFree, Latch;
    var t := TlbRegs(0, 0, Wrap(base + PAIR * i + INVALID_ASID), 0);
    FinalSlot(base, tlb.Size(), i);
    LatchInvalid(t.entryHi);
    tlb.WriteIndex(i, t);
  }

  /** w either cuts its entry down to one 4 KB pair within the range it covered, or writes an
      invalid entry at one of the 3n slots. */
  predicate AllowedWrite(w: Write, base: U64, n: nat) {
    || (w.after == w.before.(page := w.after.page, mask := 0) && Covers(w.before, w.after.page))
    || exists t :: 0 <= t < 3 * n && w.after == InvalidAt(base, n, t)
  }

  /** Since log, at most count writes were made, all of them allowed. */
  predicate Logged(log: seq<Write>, writes: seq<Write>, count: nat, base: U64, n: nat) {
    && log <= writes && |writes| <= |log| + count
    && forall k :: |log| <= k < |writes| ==> AllowedWrite(writes[k], base, n)
  }

  lemma LoggedBoth(log: seq<Write>, mid: seq<Write>, writes: seq<Write>, count: nat, more: nat, base: U64, n: nat)
    requires Logged(log, mid, count, base, n) && Logged(mid, writes, more, base, n)
    ensures Logged(log, writes, count + more, base, n)
  {
    forall k | |log| <= k < |writes|
      ensures AllowedWrite(writes[k], base, n)
    {
      if k < |mid| {
        assert writes[k] == mid[k];
      }
    }
  }

  /** The entries already moved, at increasing slots below t. */
  ghost predicate Moved(s: seq<Entry>, slots: seq<nat>, t: nat, base: U64, n: nat) {
    && |slots| <= |s|
    && forall c :: 0 <= c < |slots| ==> slots[c] < t && s[c] == InvalidAt(base, n, slots[c])
  }

  /** Entries met exactly at a probed slot and not moved since: parked[c] is the slot. */
  ghost predicate Parked(s: seq<Entry>, parked: map<nat, nat>, i: nat, t: nat, base: U64, n: nat) {
    forall c :: c in parked ==>
      && c < |s|
      && (c >= i ==> parked[c] < t && s[c].mask == 0 && s[c].page == PageOf(SlotAddress(base, n, parked[c])))
  }

  /** The first pass has moved i entries to the slots given and is to probe slot t next. */
  ghost predicate Underway(s: seq<Entry>, slots: seq<nat>, parked: map<nat, nat>, i: nat, t: nat, base: U64) {
    && |slots| == i <= |s| && t == i + |parked| && |parked| <= |s|
    && ClashFree(s) && Moved(s, slots, t, base, |s|) && Parked(s, parked, i, t, base, |s|)
  }

  lemma {:induction false} FewBelow(s: set<nat>, n: nat)
    requires forall c :: c in s ==> c < n
    ensures |s| <= n
  {
    if n == 0 {
      assert s == {};
    } else {
      FewBelow(s - {n - 1}, n - 1);
    }
  }

  /** An entry found at slot t and shrunk to it is parked there; at most n ever are. */
  lemma ParkOne(s: seq<Entry>, slots: seq<nat>, parked: map<nat, nat>, i: nat, t: nat, base: U64, c: nat)
    requires c < |s| && Underway(s, slots, parked, i, t, base) && c !in parked
    requires s[c].mask == 0 && s[c].page == PageOf(SlotAddress(base, |s|, t))
    ensures Underway(s, slots, parked[c := t], i, t + 1, base)
  {
    FewBelow(parked[c := t].Keys, |s|);
    assert parked[c := t].Keys == parked.Keys + {c};
  }

  /** The first pass: every entry is moved to a slot of the scratch range, skipping slots at
      which an entry already sits.  slots: where each one went. */
  method MoveToScratch(tlb: TlbUnit, base: U64) returns (ghost slots: seq<nat>)
    requires GoodSize(tlb.Size()) && base % PAIR == 0
    requires ClashFree(tlb.entries[..]) && !tlb.shutdown
    modifies tlb, tlb.entries
    ensures !tlb.shutdown && ClashFree(tlb.entries[..])
    ensures |slots| == tlb.Size() && Moved(tlb.entries[..], slots, 2 * tlb.Size(), base, tlb.Size())
    ensures Logged(old(tlb.writes), tlb.writes, 3 * tlb.Size(), base, tlb.Size())
  {
    hide Wrap, SlotAddress, InvalidAt, ClashFree, AllowedWrite;
    var n := tlb.Size();
    var safeAddr := Wrap(base - 2 * PAIR * n);
    FirstSlot(base, n, safeAddr);
    var i := 0;
    slots := [];
    ghost var t := 0;                          // safeAddr is slot t
    ghost var parked: map<nat, nat> := map[];
    while i < n
      invariant 0 <= i <= n && !tlb.shutdown
      invariant safeAddr == SlotAddress(base, n, t)
      invariant Underway(tlb.entries[..], slots, parked, i, t, base)
      invariant Logged(old(tlb.writes), tlb.writes, t + i, base, n)
      decreases 2 * n - t
    {
      ghost var mid := tlb.writes;
      var moved;
      moved, slots, parked := OneRound(tlb, i, safeAddr, base, slots, t, parked);
      LoggedBoth(old(tlb.writes), mid, tlb.writes, t + i, if moved then 2 else 1, base, n);
      if moved {
        i := i + 1;
      }
      ghost var was := safeAddr;
      safeAddr := Wrap(safeAddr + PAIR);
      NextSlot(base, n, t, was, safeAddr);
      t := t + 1;
    }
  }

  /** One round of the first pass: either entry i moves to slot t, or an entry is parked
      there. */
  method OneRound(tlb: TlbUnit, i: nat, safeAddr: U64, ghost base: U64,
                  ghost slots: seq<nat>, ghost t: nat, ghost parked: map<nat, nat>)
    returns (moved: bool, ghost slots': seq<nat>, ghost parked': map<nat, nat>)
    requires i < tlb.Size() && GoodSize(tlb.Size()) && base % PAIR == 0 && t < 3 * tlb.Size()
    requires safeAddr == SlotAddress(base, tlb.Size(), t) && !tlb.shutdown
    requires Underway(tlb.entries[..], slots, parked, i, t, base)
    modifies tlb, tlb.entries
    ensures !tlb.shutdown
    ensures Underway(tlb.entries[..], slots', parked', if moved then i + 1 else i, t + 1, base)
    ensures Logged(old(tlb.writes), tlb.writes, if moved then 2 else 1, base, tlb.Size())
  {
    slots', parked' := slots, parked;
    var covering := ClearSlot(tlb, safeAddr, base, i, slots, t, parked);
    if covering >= 0 {
      ParkOne(tlb.entries[..], slots, parked, i, t, base, covering);
      parked' := parked[covering := t];
      moved := false;
    } else {
      ghost var mid := tlb.writes;
      PlaceAt(tlb, i, safeAddr, base, slots, t, parked);
      LoggedBoth(old(tlb.writes), mid, tlb.writes, 1, 1, base, tlb.Size());
      slots' := slots + [t];
      moved := true;
    }
  }

  /** An entry that matches at slot t has not been moved and is not parked. */
  lemma NotMoved(s: seq<Entry>, slots: seq<nat>, parked: map<nat, nat>, i: nat, t: nat, base: U64, c: nat)
    requires GoodSize(|s|) && base % PAIR == 0 && t < 3 * |s|
    requires Underway(s, slots, parked, i, t, base)
    requires c < |s| && Matches(s[c], PageOf(SlotAddress(base, |s|, t)), INVALID_ASID)
    ensures c >= i && c !in parked
  {
    hide SlotAddress, PageOf, ClashFree;
    if c < i {
      SlotsDiffer(base, |s|, slots[c], t);
    } else if c in parked {
      SlotsDiffer(base, |s|, parked[c], t);
    }
  }

  /** Moves entry i to safeAddr, which is slot t and free. */
  method PlaceAt(tlb: TlbUnit, i: nat, safeAddr: U64, ghost base: U64,
                 ghost slots: seq<nat>, ghost t: nat, ghost parked: map<nat, nat>)
    requires i < tlb.Size() && GoodSize(tlb.Size()) && base % PAIR == 0 && t < 3 * tlb.Size()
    requires safeAddr == SlotAddress(base, tlb.Size(), t) && !tlb.shutdown
    requires Underway(tlb.entries[..], slots, parked, i, t, base)
    requires forall j :: 0 <= j < tlb.Size() ==> !Matches(tlb.entries[j], PageOf(safeAddr), INVALID_ASID)
    modifies tlb, tlb.entries
    ensures !tlb.shutdown && Underway(tlb.entries[..], slots + [t], parked, i + 1, t + 1, base)
    ensures Logged(old(tlb.writes), tlb.writes, 1, base, tlb.Size())
  {
    SlotAligned(base, tlb.Size(), t);
    LatchInvalid(safeAddr);
    PlaceKeepsClashFree(tlb.entries[..], i, InvalidAt(base, tlb.Size(), t));
    tlb.WriteIndex(i, TlbRegs(0, 0, safeAddr, 0));
  }

  /** Probes for safeAddr, which is slot t, and shrinks an entry found there.  Returns the
      entry still in the way, or a negative number. */
  method ClearSlot(tlb: TlbUnit, safeAddr: U64, ghost base: U64,
                   ghost i: nat, ghost slots: seq<nat>, ghost t: nat, ghost parked: map<nat, nat>)
    returns (covering: int)
    requires GoodSize(tlb.Size()) && base % PAIR == 0 && t < 3 * tlb.Size()
    requires safeAddr == SlotAddress(base, tlb.Size(), t) && !tlb.shutdown
    requires Underway(tlb.entries[..], slots, parked, i, t, base)
    modifies tlb, tlb.entries
    ensures !tlb.shutdown && Underway(tlb.entries[..], slots, parked, i, t, base)
    ensures Logged(old(tlb.writes), tlb.writes, 1, base, tlb.Size())
    ensures covering < tlb.Size()
    ensures covering < 0 ==>
              forall j :: 0 <= j < tlb.Size() ==> !Matches(tlb.entries[j], PageOf(safeAddr), INVALID_ASID)
    ensures covering >= 0 ==>
              && i <= covering && covering !in parked
              && tlb.entries[covering].mask == 0 && tlb.entries[covering].page == PageOf(safeAddr)
  {
    covering := tlb.Probe(safeAddr, INVALID_ASID);
    if covering >= 0 {
      ghost var c, s := covering, tlb.entries[..];
      NotMoved(s, slots, parked, i, t, base, c);
      Shrink(tlb, covering);
      covering := tlb.Probe(safeAddr, INVALID_ASID);
      if covering >= 0 {
        StillCovering(s, c, tlb.entries[c], covering, PageOf(safeAddr), INVALID_ASID);
      }
    }
  }

  method Shrink(tlb: TlbUnit, c: nat)
    requires c < tlb.Size() && ClashFree(tlb.entries[..]) && !tlb.shutdown
    modifies tlb, tlb.entries
    ensures var e := old(tlb.entries[c]).(page := ShownPage(old(tlb.entries[c]), tlb.masksVpn), mask := 0);
            && tlb.entries[..] == old(tlb.entries[..])[c := e]
            && tlb.writes == old(tlb.writes) + [Write(c, old(tlb.entries[c]), e)]
            && Covers(old(tlb.entries[c]), e.page)
    ensures ClashFree(tlb.entries[..]) && !tlb.shutdown
  {
    var t := tlb.Read(c);
    ghost var e: Entry := tlb.entries[c].(page := ShownPage(tlb.entries[c], tlb.masksVpn), mask := 0);
    ShrinkKeepsClashFree(tlb.entries[..], c, e);
    tlb.WriteIndex(c, t.(pageMask := 0));
  }

  /** Entry j of s, not yet rewritten when entry i < j is, matches the page that i is given. */
  ghost predicate ClashAt(s: seq<Entry>, base: U64, i: int, j: int) {
    && 0 <= i < j < |s|
    && Matches(s[j], InvalidAt(base, |s|, 2 * |s| + i).page, INVALID_ASID)
  }

  /** s with its first i entries already rewritten. */
  function PartlyInvalid(s: seq<Entry>, base: U64, i: nat): (r: seq<Entry>)
    requires i <= |s|
    ensures |r| == |s|
  {
    InvalidTlb(base, |s|)[..i] + s[i..]
  }

  /** A partly rewritten TLB is free of overlap exactly when no rewritten entry took a page
      that one still to come matches. */
  lemma PartlyInvalidClash(s: seq<Entry>, base: U64, i: nat)
    requires GoodSize(|s|) && base % PAIR == 0 && i <= |s| && ClashFree(s)
    ensures ClashFree(PartlyInvalid(s, base, i)) <==> forall k, j :: 0 <= k < i <= j < |s| ==> !ClashAt(s, base, k, j)
  {
    hide Overlap, ClashAt, PartlyInvalid;
    var n, r := |s|, PartlyInvalid(s, base, i);
    forall k, j | 0 <= k < j < n
      ensures Overlap(r[k], r[j]) <==> k < i <= j && ClashAt(s, base, k, j)
    {
      PartlyOverlap(s, base, i, k, j);
    }
  }

  lemma PartlyOverlap(s: seq<Entry>, base: U64, i: nat, k: nat, j: nat)
    requires GoodSize(|s|) && base % PAIR == 0 && i <= |s| && ClashFree(s) && k < j < |s|
    ensures var r := PartlyInvalid(s, base, i);
            Overlap(r[k], r[j]) <==> k < i <= j && ClashAt(s, base, k, j)
  {
    hide SlotAddress, PageOf, Overlap;
    var n, r := |s|, PartlyInvalid(s, base, i);
    if k < i {
      SmallOverlap(r[k], r[j]);
      if j < i {
        SlotsDiffer(base, n, 2 * n + k, 2 * n + j);
      }
    } else {
      assert r[k] == s[k] && r[j] == s[j];
    }
  }

  /** Some entry has matched a page given to one of the first i. */
  ghost predicate ClashedBefore(s: seq<Entry>, base: U64, i: nat) {
    exists k, j :: k < i && ClashAt(s, base, k, j)
  }

  lemma ClashedNext(s: seq<Entry>, base: U64, i: nat)
    requires GoodSize(|s|) && base % PAIR == 0 && i < |s| && ClashFree(s)
    ensures ClashedBefore(s, base, i + 1)
            <==> ClashedBefore(s, base, i) || !ClashFree(PartlyInvalid(s, base, i + 1))
  {
    PartlyInvalidClash(s, base, i + 1);
    if ClashedBefore(s, base, i + 1) && !ClashedBefore(s, base, i) {
      var k, j :| k < i + 1 && ClashAt(s, base, k, j);
      assert k == i;
    }
  }

  lemma PartlyInvalidEnds(s: seq<Entry>, base: U64)
    ensures PartlyInvalid(s, base, 0) == s
    ensures PartlyInvalid(s, base, |s|) == InvalidTlb(base, |s|)
  {
  }

  lemma PartlyInvalidNext(s: seq<Entry>, base: U64, i: nat)
    requires i < |s|
    ensures PartlyInvalid(s, base, i)[i := InvalidAt(base, |s|, 2 * |s| + i)] == PartlyInvalid(s, base, i + 1)
  {
  }

  /** One round of the second pass, which started from s. */
  method InvalidateNext(tlb: TlbUnit, i: nat, base: U64, ghost s: seq<Entry>)
    requires GoodSize(tlb.Size()) && base % PAIR == 0 && i < tlb.Size()
    requires ClashFree(s) && |s| == tlb.Size() && tlb.entries[..] == PartlyInvalid(s, base, i)
    modifies tlb, tlb.entries
    ensures tlb.entries[..] == PartlyInvalid(s, base, i + 1)
    ensures tlb.shutdown || ClashedBefore(s, base, i)
            <==> old(tlb.shutdown) || ClashedBefore(s, base, i + 1)
    ensures old(tlb.shutdown) ==> tlb.shutdown
    ensures Logged(old(tlb.writes), tlb.writes, 1, base, tlb.Size())
  {
    InvalidateTlbEntry(tlb, i, base);
    PartlyInvalidNext(s, base, i);
    ClashedNext(s, base, i);
  }

  /** The second pass, over whatever overlap-free entries it finds. */
  method InvalidateAll(tlb: TlbUnit, base: U64)
    requires GoodSize(tlb.Size()) && base % PAIR == 0
    requires ClashFree(tlb.entries[..])
    modifies tlb, tlb.entries
    ensures tlb.entries[..] == InvalidTlb(base, tlb.Size())
    ensures tlb.shutdown == (old(tlb.shutdown) || ClashedBefore(old(tlb.entries[..]), base, tlb.Size()))
    ensures Logged(old(tlb.writes), tlb.writes, tlb.Size(), base, tlb.Size())
  {
    var n := tlb.Size();
    ghost var s := tlb.entries[..];
    PartlyInvalidEnds(s, base);
    for i := 0 to n
      invariant tlb.entries[..] == PartlyInvalid(s, base, i)
      invariant tlb.shutdown == (old(tlb.shutdown) || ClashedBefore(s, base, i))
      invariant Logged(old(tlb.writes), tlb.writes, i, base, n)
    {
      ghost var mid := tlb.writes;
      InvalidateNext(tlb, i, base, s);
      LoggedBoth(old(tlb.writes), mid, tlb.writes, i, 1, base, n);
    }
  }

  /** Entries all in the scratch range match no page of the final range. */
  lemma ScratchNeverClashes(s: seq<Entry>, slots: seq<nat>, base: U64)
    requires GoodSize(|s|) && base % PAIR == 0
    requires |slots| == |s| && Moved(s, slots, 2 * |s|, base, |s|)
    ensures forall k, j :: !ClashAt(s, base, k, j)
  {
    forall k, j
      ensures !ClashAt(s, base, k, j)
    {
      if 0 <= k < j < |s| {
        SlotsDiffer(base, |s|, slots[j], 2 * |s| + k);
      }
    }
  }

  /** Whatever overlap-free contents the TLB starts with, the safe reset never has two entries
      overlap after any write, makes at most 4n writes, each inside the entry's own range, the
      scratch range or the final range, and leaves exactly the n invalid entries.  The unsafe
      one leaves the same, and shuts the TLB down exactly when some entry matches a page that
      an earlier one is given. */
  method InitTlb(tlb: TlbUnit, safe: bool, base: U64)
    requires GoodSize(tlb.Size()) && base % PAIR == 0
    requires ClashFree(tlb.entries[..]) && !tlb.shutdown
    modifies tlb, tlb.entries
    ensures tlb.entries[..] == InvalidTlb(base, tlb.Size())
    ensures safe ==> !tlb.shutdown
    ensures !safe ==> (tlb.shutdown <==> exists k, j :: ClashAt(old(tlb.entries[..]), base, k, j))
    ensures Logged(old(tlb.writes), tlb.writes, 4 * tlb.Size(), base, tlb.Size())
  {
    ghost var n := tlb.Size();
    if safe {
      ghost var slots := MoveToScratch(tlb, base);
      ScratchNeverClashes(tlb.entries[..], slots, base);
    }
    ghost var mid := tlb.writes;
    InvalidateAll(tlb, base);
    LoggedBoth(old(tlb.writes), mid, tlb.writes, if safe then 3 * n else 0, n, base, n);
  }

  // ----- Calling it again, and calling it too early

  /** The reset TLB is free of overlap, and resetting it again, even unsafely, is harmless. */
  lemma ResetIsStable(base: U64, n: nat)
    requires GoodSize(n) && base % PAIR == 0
    ensures ClashFree(InvalidTlb(base, n))
    ensures forall k, j :: !ClashAt(InvalidTlb(base, n), base, k, j)
  {
    var s := InvalidTlb(base, n);
    forall k: nat, j: nat | k < j < n
      ensures !Overlap(s[k], s[j]) && !ClashAt(s, base, k, j)
    {
      SlotsDiffer(base, n, 2 * n + k, 2 * n + j);
      SmallOverlap(s[k], s[j]);
    }
  }

  /** The bits of EntryHi that hold what is written to them: R, VPN2 and ASID. */
  const WRITABLE_ENTRYHI: U64 := 0xc000_0fff_ffff_e0ff

  /** What those bits are. */
  lemma WritableBits(x: U64)
    ensures BitFields.And(x, WRITABLE_ENTRYHI) == x / REGION * REGION + x / PAIR % VPN2_COUNT * PAIR + x % 0x100 < W64
  {
    hide BitFields.And, Up, BitFields.Low, BitFields.Shr;
    MaskParts();
    BitFields.Powers();
    BitFields.AndSplits(x, 0x6_0000_7fff_ffff, 0xff, 13);
    BitFields.AndOnes(BitFields.Low(x, 13), 8);
    BitFields.LowLow(x, 13, 8);
    var y := BitFields.Shr(x, 13);
    BitFields.AndSplits(y, 0xc_0000, 0x7fff_ffff, 31);
    BitFields.AndOnes(BitFields.Low(y, 31), 31);
    BitFields.LowLow(y, 31, 31);
    var z := BitFields.Shr(y, 31);
    BitFields.AndUp(z, 3, 18);
    var v := BitFields.Shr(z, 18);
    BitFields.AndOnes(v, 2);
    BitFields.MovesAreArithmetic(x, 8, 0x100);
    BitFields.MovesAreArithmetic(x, 13, 0x2000);
    BitFields.MovesAreArithmetic(y, 31, 0x8000_0000);
    BitFields.ShrShr(y, 31, 18);
    BitFields.ShrShr(x, 13, 49);
    BitFields.MovesAreArithmetic(x, 62, REGION);
    BitFields.MovesAreArithmetic(v, 2, 4);
    BitFields.UpIsProduct(v, 18);
    BitFields.UpIsProduct(v * 0x4_0000 * 0x8000_0000 + BitFields.Low(y, 31), 13);
    BitFields.UpIsProduct(v * 0x4_0000, 31);
  }

  lemma MaskParts()
    ensures Up(3, 18) == 0xc_0000 && BitFields.Shr(0xff, 13) == 0 && BitFields.Shr(0x7fff_ffff, 31) == 0
    ensures Up(0xc_0000, 31) + 0x7fff_ffff == 0x6_0000_7fff_ffff
    ensures Up(0x6_0000_7fff_ffff, 13) + 0xff == WRITABLE_ENTRYHI
  {
    hide Up, BitFields.Shr;
    BitFields.Powers();
    BitFields.UpIsProduct(3, 18);
    BitFields.UpIsProduct(0xc_0000, 31);
    BitFields.UpIsProduct(0x6_0000_7fff_ffff, 13);
    BitFields.ShrIsZero(0xff, 13);
    BitFields.ShrIsZero(0x7fff_ffff, 31);
  }

  /** A value of EntryHi as it reads back. */
  function Writable(x: U64): U64 {
    WritableBits(x);
    BitFields.And(x, WRITABLE_ENTRYHI)
  }

  /** Register by register, a read of the reset TLB shows what the test program expects: zeros,
      and the writable bits of base + 8192 i. */
  lemma ResetShows(base: U64, n: nat, i: nat, masksVpn: bool)
    requires GoodSize(n) && base % PAIR == 0 && i < n
    ensures Shown(InvalidTlb(base, n)[i], masksVpn)
         == TlbRegs(0, 0, Writable(Wrap(base + PAIR * i + INVALID_ASID)), 0)
  {
    hide Wrap, SlotAddress, PageOf, BitFields.And;
    var a := Wrap(base + PAIR * i + INVALID_ASID);
    FinalSlot(base, n, i);
    WritableBits(a);
    AlignedAsid(a);
    PageParts(a);
  }

  lemma AlignedAsid(a: U64)
    requires a % PAIR == 0
    ensures a % 0x100 == 0
  {
    QuotientIsUnique(a, 0x100, a / PAIR * (PAIR / 0x100), 0);
  }

  lemma PageParts(a: U64)
    ensures PageOf(a) / VPN2_COUNT == a / REGION && PageOf(a) % VPN2_COUNT == a / PAIR % VPN2_COUNT
  {
    QuotientIsUnique(PageOf(a), VPN2_COUNT, a / REGION, a / PAIR % VPN2_COUNT);
  }

  /** Firmware that used the same range in the opposite order: the reset without the scratch
      range writes entry 0 over the page of entry n-1. */
  lemma ReversedFirmwareClashes(base: U64, n: nat)
    requires GoodSize(n) && n > 1 && base % PAIR == 0
    ensures var s := seq<Entry>(n, i => InvalidAt(base, n, 3 * n - 1 - i));
            ClashFree(s) && ClashAt(s, base, 0, n - 1)
  {
    hide SlotAddress, PageOf;
    var s := seq<Entry>(n, i => InvalidAt(base, n, 3 * n - 1 - i));
    forall k: nat, j: nat | k < j < n
      ensures !Overlap(s[k], s[j])
    {
      SlotsDiffer(base, n, 3 * n - 1 - j, 3 * n - 1 - k);
      SmallOverlap(s[k], s[j]);
    }
  }
}
