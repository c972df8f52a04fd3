/** The heap as sbrk moves its limit, over single calls and over whole runs of them. */
module HeapLimit {
  import opened Words

  const HALF := 0x8000_0000_0000_0000     // 2^63
  const FAILED: U64 := W64 - 1            // (char *)-1

  datatype Heap = Heap(start: U64, limit: U64, end: U64)

  predicate GoodHeap(h: Heap) { h.start <= h.limit <= h.end < HALF }

  /** A value of ptrdiff_t. */
  predicate PtrDiff(n: int) { -HALF <= n < HALF }

  /** The test sbrk makes, in 64-bit pointer arithmetic. */
  predicate Granted(h: Heap, nbytes: int) {
    nbytes < Signed(Wrap(h.end - h.limit), W64) && Wrap(h.limit + nbytes) >= h.start
  }

  function Sbrk(h: Heap, nbytes: int): Heap {
    if Granted(h, nbytes) then h.(limit := Wrap(h.limit + nbytes)) else h
  }

  /** What sbrk returns. */
  function Returned(h: Heap, nbytes: int): U64 { if Granted(h, nbytes) then h.limit else FAILED }

  /** No address the heap can grow from is taken for a failure. */
  lemma FailsExactly(h: Heap, nbytes: int)
    requires GoodHeap(h) && PtrDiff(nbytes)
    ensures Returned(h, nbytes) != FAILED <==> h.limit + nbytes < 0 || h.start <= h.limit + nbytes < h.end
  {
    if h.limit + nbytes >= 0 {
      GrantMeaning(h, nbytes);
    } else {
      WrappedIsGranted(h, nbytes);
    }
  }

  function SbrkAll(h: Heap, calls: seq<int>): Heap
    decreases |calls|
  {
    if calls == [] then h else SbrkAll(Sbrk(h, calls[0]), calls[1..])
  }

  /** A shrink is granted exactly when it stays above the start, and growth exactly when at
      least one byte is left over: the last byte of the heap is never handed out. */
  lemma GrantMeaning(h: Heap, nbytes: int)
    requires GoodHeap(h) && PtrDiff(nbytes) && h.limit + nbytes >= 0
    ensures Granted(h, nbytes) <==> h.start <= h.limit + nbytes < h.end
  {
    assert Wrap(h.end - h.limit) == h.end - h.limit;
    assert nbytes < h.end - h.limit ==> Wrap(h.limit + nbytes) == h.limit + nbytes;
  }

  /** A request that would take the limit below address zero is granted too: the sum wraps
      around to a large pointer. */
  lemma WrappedIsGranted(h: Heap, nbytes: int)
    requires GoodHeap(h) && PtrDiff(nbytes) && h.limit + nbytes < 0
    ensures Granted(h, nbytes) && Sbrk(h, nbytes).limit > h.end
  {
    var x := h.limit + nbytes;
    assert (x + W64) % W64 == x + W64;
    QuotientIsUnique(x, W64, -1, x + W64);
  }

  /** A new heap of 1 MB asked to give back one byte more than its start address: the limit
      becomes the last address there is. */
  lemma WrapGranted()
    ensures var h := Heap(0x10_0000, 0x10_0000, 0x20_0000);
            Granted(h, -0x10_0001) && Sbrk(h, -0x10_0001).limit == W64 - 1
  {
    var h := Heap(0x10_0000, 0x10_0000, 0x20_0000);
    WrappedIsGranted(h, -0x10_0001);
    QuotientIsUnique(-1, W64, -1, W64 - 1);
  }

  /** One call keeps the limit between start and end exactly when it does not wrap. */
  lemma CallKeepsBounds(h: Heap, nbytes: int)
    requires GoodHeap(h) && PtrDiff(nbytes)
    ensures GoodHeap(Sbrk(h, nbytes)) <==> h.limit + nbytes >= 0
  {
    if h.limit + nbytes >= 0 {
      GrantMeaning(h, nbytes);
      assert Granted(h, nbytes) ==> Wrap(h.limit + nbytes) == h.limit + nbytes;
    } else {
      WrappedIsGranted(h, nbytes);
    }
  }

  /** The bounds hold before, between and after the calls. */
  predicate AlwaysGood(h: Heap, calls: seq<int>)
    decreases |calls|
  {
    GoodHeap(h) && (calls != [] ==> AlwaysGood(Sbrk(h, calls[0]), calls[1..]))
  }

  /** No call asks for less than minus the limit it finds. */
  predicate NeverWraps(h: Heap, calls: seq<int>)
    decreases |calls|
  {
    calls != [] ==> h.limit + calls[0] >= 0 && NeverWraps(Sbrk(h, calls[0]), calls[1..])
  }

  predicate AllPtrDiff(calls: seq<int>) {
    forall n :: n in calls ==> PtrDiff(n)
  }

  lemma {:induction false} BoundsKept(h: Heap, calls: seq<int>)
    requires GoodHeap(h) && AllPtrDiff(calls)
    ensures AlwaysGood(h, calls) <==> NeverWraps(h, calls)
    decreases |calls|
  {
    if calls != [] {
      CallKeepsBounds(h, calls[0]);
      if h.limit + calls[0] >= 0 {
        BoundsKept(Sbrk(h, calls[0]), calls[1..]);
      }
    }
  }

  /** Giving back at most heap_start bytes at a time never wraps. */
  lemma {:induction false} SmallShrinksNeverWrap(h: Heap, calls: seq<int>)
    requires GoodHeap(h) && AllPtrDiff(calls)
    requires forall n :: n in calls ==> h.start + n >= 0
    ensures NeverWraps(h, calls)
    decreases |calls|
  {
    if calls != [] {
      assert calls[0] in calls && forall n :: n in calls[1..] ==> n in calls;
      CallKeepsBounds(h, calls[0]);
      SmallShrinksNeverWrap(Sbrk(h, calls[0]), calls[1..]);
    }
  }

  /** The sum of the amounts granted. */
  function GrantedSum(h: Heap, calls: seq<int>): int
    decreases |calls|
  {
    if calls == [] then 0
    else (if Granted(h, calls[0]) then calls[0] else 0) + GrantedSum(Sbrk(h, calls[0]), calls[1..])
  }

  /** What the limit moved by is what was granted. */
  lemma {:induction false} LimitIsSum(h: Heap, calls: seq<int>)
    requires GoodHeap(h) && AllPtrDiff(calls) && NeverWraps(h, calls)
    ensures SbrkAll(h, calls) == h.(limit := SbrkAll(h, calls).limit)
    ensures SbrkAll(h, calls).limit == h.limit + GrantedSum(h, calls)
    decreases |calls|
  {
    if calls != [] {
      CallKeepsBounds(h, calls[0]);
      GrantMeaning(h, calls[0]);
      assert Granted(h, calls[0]) ==> Wrap(h.limit + calls[0]) == h.limit + calls[0];
      LimitIsSum(Sbrk(h, calls[0]), calls[1..]);
    }
  }

  /** The heap call k finds. */
  function HeapAt(h: Heap, calls: seq<int>, k: nat): Heap
    requires k <= |calls|
  {
    SbrkAll(h, calls[..k])
  }

  /** Call k is granted nothing or growth. */
  predicate NoShrink(h: Heap, calls: seq<int>, k: nat)
    requires k < |calls|
  {
    Granted(HeapAt(h, calls, k), calls[k]) ==> calls[k] >= 0
  }

  lemma {:induction false} SbrkAllAppend(h: Heap, calls: seq<int>, n: int)
    ensures SbrkAll(h, calls + [n]) == Sbrk(SbrkAll(h, calls), n)
    decreases |calls|
  {
    if calls == [] {
      assert [n][1..] == [];
    } else {
      assert (calls + [n])[1..] == calls[1..] + [n];
      SbrkAllAppend(Sbrk(h, calls[0]), calls[1..], n);
    }
  }

  lemma {:induction false} NeverWrapsAt(h: Heap, calls: seq<int>, k: nat)
    requires GoodHeap(h) && AllPtrDiff(calls) && NeverWraps(h, calls) && k <= |calls|
    ensures GoodHeap(HeapAt(h, calls, k)) && HeapAt(h, calls, k) == h.(limit := HeapAt(h, calls, k).limit)
    ensures k < |calls| ==> HeapAt(h, calls, k).limit + calls[k] >= 0
    decreases |calls|
  {
    if k > 0 {
      CallKeepsBounds(h, calls[0]);
      NeverWrapsAt(Sbrk(h, calls[0]), calls[1..], k - 1);
      assert calls[..k][1..] == calls[1..][..k - 1];
    }
  }

  /** Call k moves the limit by the amount it asks for, or not at all. */
  lemma CallMovesLimit(h: Heap, calls: seq<int>, k: nat)
    requires GoodHeap(h) && AllPtrDiff(calls) && NeverWraps(h, calls) && k < |calls|
    ensures var was := HeapAt(h, calls, k);
            HeapAt(h, calls, k + 1).limit == if Granted(was, calls[k]) then was.limit + calls[k] else was.limit
  {
    NeverWrapsAt(h, calls, k);
    SbrkAllAppend(h, calls[..k], calls[k]);
    assert calls[..k + 1] == calls[..k] + [calls[k]];
    GrantMeaning(HeapAt(h, calls, k), calls[k]);
  }

  lemma {:induction false} LimitGrows(h: Heap, calls: seq<int>, i: nat, j: nat)
    requires GoodHeap(h) && AllPtrDiff(calls) && NeverWraps(h, calls) && i <= j <= |calls|
    requires forall k :: i <= k < j ==> NoShrink(h, calls, k)
    ensures HeapAt(h, calls, i).limit <= HeapAt(h, calls, j).limit
    decreases j
  {
    if i < j {
      LimitGrows(h, calls, i, j - 1);
      CallMovesLimit(h, calls, j - 1);
      assert NoShrink(h, calls, j - 1);
    }
  }

  /** x is one of the bytes call k is given, from the address returned on. */
  predicate InBlock(h: Heap, calls: seq<int>, k: nat, x: int)
    requires k < |calls|
  {
    var was := HeapAt(h, calls, k);
    Granted(was, calls[k]) && 0 <= x - Returned(was, calls[k]) < calls[k]
  }

  /** Blocks granted without a shrink between them have no byte in common. */
  lemma BlocksApart(h: Heap, calls: seq<int>, i: nat, j: nat, x: int)
    requires GoodHeap(h) && AllPtrDiff(calls) && NeverWraps(h, calls) && i < j < |calls|
    requires forall k :: i < k < j ==> NoShrink(h, calls, k)
    ensures !(InBlock(h, calls, i, x) && InBlock(h, calls, j, x))
  {
    CallMovesLimit(h, calls, i);
    LimitGrows(h, calls, i + 1, j);
  }

  /** And every byte granted lies between the start and the last byte of the heap. */
  lemma BlockInHeap(h: Heap, calls: seq<int>, k: nat, x: int)
    requires GoodHeap(h) && AllPtrDiff(calls) && NeverWraps(h, calls) && k < |calls|
    requires InBlock(h, calls, k, x)
    ensures h.start <= x < h.end - 1
  {
    NeverWrapsAt(h, calls, k);
    GrantMeaning(HeapAt(h, calls, k), calls[k]);
  }
}
