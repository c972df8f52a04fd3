/** The LL/SC counting semaphore, one instruction at a time, for any number of threads. */
module Semaphore {
  import opened Words

  const MAX_VALUE := 0x7fff_ffff
  const MIN_VALUE := -0x8000_0000

  /** The next instruction of a thread, as in the source's two loops.  A Slot is the delay
      slot of the branch before it.  Trapped: an overflow exception ended the thread. */
  datatype Pc =
    | Idle
      // sem_take
    | TakeLl | TakeBeqz | TakeSlotDecrement | TakeSc | TakeRetry | TakeSlotNop
      // sem_release
    | ReleaseLl | ReleaseIncrement | ReleaseSc | ReleaseRetry | ReleaseSlotNop
    | Trapped

  /** held: takes completed by this thread less releases completed by it. */
  datatype Thread = Thread(pc: Pc, tmp: int, taken: bool, held: int)

  /** takes and releases count the completed operations of all threads.  live: the threads
      whose LL reservation has not been lost. */
  datatype State = State(word: int, live: set<nat>, threads: seq<Thread>, takes: nat, releases: nat)

  predicate Init(s: State, initial: int) {
    && 0 <= initial <= MAX_VALUE && s.word == initial && s.takes == 0 && s.releases == 0
    && forall t :: 0 <= t < |s.threads| ==> s.threads[t].pc == Idle && s.threads[t].held == 0
  }

  // ----- Steps.  A reservation may vanish at any step; a write to the word leaves at most
  // the writer's own.

  predicate KeepsWord(s: State, s': State, t: nat, th: Thread)
    requires t < |s.threads|
  {
    && s'.live <= s.live + (if s.threads[t].pc in {TakeLl, ReleaseLl} then {t} else {})
    && s' == s.(live := s'.live, threads := s.threads[t := th])
  }

  /** A successful SC ends a take. */
  predicate Takes(s: State, s': State, t: nat)
    requires t < |s.threads|
  {
    var th := s.threads[t];
    && t in s.live && s'.live <= {t}
    && s' == State(th.tmp, s'.live, s.threads[t := th.(pc := TakeRetry, tmp := 1, held := th.held + 1)],
                   s.takes + 1, s.releases)
  }

  /** A successful SC ends a release. */
  predicate Releases(s: State, s': State, t: nat)
    requires t < |s.threads|
  {
    var th := s.threads[t];
    && t in s.live && s'.live <= {t}
    && s' == State(th.tmp, s'.live, s.threads[t := th.(pc := ReleaseRetry, tmp := 1, held := th.held - 1)],
                   s.takes, s.releases + 1)
  }

  /** One instruction of thread t.  balanced: a thread only releases what it holds. */
  predicate Step(s: State, s': State, t: nat, balanced: bool)
    requires t < |s.threads|
  {
    var th := s.threads[t];
    match th.pc
    case Idle =>
      || KeepsWord(s, s', t, th.(pc := TakeLl))
      || ((balanced ==> th.held > 0) && KeepsWord(s, s', t, th.(pc := ReleaseLl)))
    case TakeLl => KeepsWord(s, s', t, th.(pc := TakeBeqz, tmp := s.word))
    case TakeBeqz => KeepsWord(s, s', t, th.(pc := TakeSlotDecrement, taken := th.tmp == 0))
    case TakeSlotDecrement =>
      if th.tmp - 1 < MIN_VALUE then KeepsWord(s, s', t, th.(pc := Trapped))
      else KeepsWord(s, s', t, th.(pc := if th.taken then TakeLl else TakeSc, tmp := th.tmp - 1))
    case TakeSc => Takes(s, s', t) || KeepsWord(s, s', t, th.(pc := TakeRetry, tmp := 0))
    case TakeRetry => KeepsWord(s, s', t, th.(pc := TakeSlotNop, taken := th.tmp == 0))
    case TakeSlotNop => KeepsWord(s, s', t, th.(pc := if th.taken then TakeLl else Idle))
    case ReleaseLl => KeepsWord(s, s', t, th.(pc := ReleaseIncrement, tmp := s.word))
    case ReleaseIncrement =>
      if th.tmp + 1 > MAX_VALUE then KeepsWord(s, s', t, th.(pc := Trapped))
      else KeepsWord(s, s', t, th.(pc := ReleaseSc, tmp := th.tmp + 1))
    case ReleaseSc => Releases(s, s', t) || KeepsWord(s, s', t, th.(pc := ReleaseRetry, tmp := 0))
    case ReleaseRetry => KeepsWord(s, s', t, th.(pc := ReleaseSlotNop, taken := th.tmp == 0))
    case ReleaseSlotNop => KeepsWord(s, s', t, th.(pc := if th.taken then ReleaseLl else Idle))
    case Trapped => s' == s
  }

  ghost predicate Next(s: State, s': State, balanced: bool) {
    exists t :: 0 <= t < |s.threads| && Step(s, s', t, balanced)
  }

  // ----- The invariant

  /** What the registers of one thread say by themselves. */
  predicate RegistersOk(th: Thread, balanced: bool) {
    && (balanced ==> th.held >= 0)
    && (balanced && th.pc in {ReleaseLl, ReleaseIncrement, ReleaseSc} ==> th.held > 0)
    && match th.pc
       case TakeBeqz => 0 <= th.tmp <= MAX_VALUE
       case TakeSlotDecrement => 0 <= th.tmp <= MAX_VALUE && th.taken == (th.tmp == 0)
       case TakeSc => 0 <= th.tmp < MAX_VALUE
       case ReleaseIncrement => 0 <= th.tmp <= MAX_VALUE
       case ReleaseSc => 0 < th.tmp <= MAX_VALUE
       case ReleaseRetry => balanced && th.tmp == 0 ==> th.held > 0
       case ReleaseSlotNop => balanced && th.taken ==> th.held > 0
       case Trapped => th.tmp == MAX_VALUE
       case _ => true
  }

  /** A live reservation means that the word still holds what LL read. */
  predicate ReservationOk(th: Thread, word: int) {
    match th.pc
    case TakeBeqz => th.tmp == word
    case TakeSlotDecrement => th.tmp == word
    case TakeSc => th.tmp == word - 1
    case ReleaseIncrement => th.tmp == word
    case ReleaseSc => th.tmp == word + 1
    case _ => true
  }

  function TotalHeld(ths: seq<Thread>): int {
    if ths == [] then 0 else TotalHeld(ths[..|ths| - 1]) + ths[|ths| - 1].held
  }

  lemma {:induction false} TotalHeldUpdate(ths: seq<Thread>, t: nat, th: Thread)
    requires t < |ths|
    ensures TotalHeld(ths[t := th]) == TotalHeld(ths) - ths[t].held + th.held
  {
    var n := |ths| - 1;
    if t == n {
      assert ths[t := th][..n] == ths[..n];
    } else {
      TotalHeldUpdate(ths[..n], t, th);
      assert ths[t := th][..n] == ths[..n][t := th];
    }
  }

  predicate Inv(s: State, initial: int, balanced: bool) {
    && s.word == initial - s.takes + s.releases
    && TotalHeld(s.threads) == s.takes - s.releases
    && 0 <= s.word <= MAX_VALUE
    && (forall t :: 0 <= t < |s.threads| ==> RegistersOk(s.threads[t], balanced))
    && (forall t :: 0 <= t < |s.threads| && t in s.live ==> ReservationOk(s.threads[t], s.word))
  }

  lemma {:induction false} NothingHeld(ths: seq<Thread>)
    requires forall t :: 0 <= t < |ths| ==> ths[t].held == 0
    ensures TotalHeld(ths) == 0
  {
    if ths != [] {
      NothingHeld(ths[..|ths| - 1]);
    }
  }

  lemma InitInv(s: State, initial: int, balanced: bool)
    requires Init(s, initial)
    ensures Inv(s, initial, balanced)
  {
    NothingHeld(s.threads);
  }

  lemma KeepsWordInv(s: State, s': State, t: nat, th: Thread, initial: int, balanced: bool)
    requires t < |s.threads| && Inv(s, initial, balanced) && KeepsWord(s, s', t, th)
    requires th.held == s.threads[t].held && RegistersOk(th, balanced)
    requires t in s'.live ==> ReservationOk(th, s.word)
    ensures Inv(s', initial, balanced)
  {
    TotalHeldUpdate(s.threads, t, th);
  }

  lemma ScInv(s: State, s': State, t: nat, initial: int, balanced: bool)
    requires t < |s.threads| && Inv(s, initial, balanced)
    requires || (s.threads[t].pc == TakeSc && Takes(s, s', t))
             || (s.threads[t].pc == ReleaseSc && Releases(s, s', t))
    ensures Inv(s', initial, balanced)
  {
    assert RegistersOk(s.threads[t], balanced) && ReservationOk(s.threads[t], s.word);
    TotalHeldUpdate(s.threads, t, s'.threads[t]);
  }

  lemma InvAt(s: State, t: nat, initial: int, balanced: bool)
    requires Inv(s, initial, balanced) && t < |s.threads|
    ensures RegistersOk(s.threads[t], balanced) && (t in s.live ==> ReservationOk(s.threads[t], s.word))
  {
  }

  /** An instruction other than a successful SC, as far as its own thread goes. */
  lemma PlainStep(s: State, s': State, t: nat, balanced: bool)
    requires t < |s.threads| && Step(s, s', t, balanced) && s.threads[t].pc != Trapped
    requires 0 <= s.word <= MAX_VALUE && RegistersOk(s.threads[t], balanced)
    requires t in s.live ==> ReservationOk(s.threads[t], s.word)
    requires !(s.threads[t].pc == TakeSc && Takes(s, s', t)) && !(s.threads[t].pc == ReleaseSc && Releases(s, s', t))
    ensures |s'.threads| == |s.threads|
    ensures var th := s'.threads[t];
            && KeepsWord(s, s', t, th) && th.held == s.threads[t].held && RegistersOk(th, balanced)
            && (t in s'.live ==> ReservationOk(th, s.word))
  {
  }

  lemma StepInv(s: State, s': State, t: nat, initial: int, balanced: bool)
    requires t < |s.threads| && Inv(s, initial, balanced) && Step(s, s', t, balanced)
    ensures Inv(s', initial, balanced) && |s'.threads| == |s.threads|
  {
    hide RegistersOk, ReservationOk;
    var th := s.threads[t];
    InvAt(s, t, initial, balanced);
    if (th.pc == TakeSc && Takes(s, s', t)) || (th.pc == ReleaseSc && Releases(s, s', t)) {
      ScInv(s, s', t, initial, balanced);
    } else if th.pc != Trapped {
      hide Step;
      PlainStep(s, s', t, balanced);
      KeepsWordInv(s, s', t, s'.threads[t], initial, balanced);
    }
  }

  /** A finite run: a sequence of states, each a step from the one before it. */
  ghost predicate Run(run: seq<State>, initial: int, balanced: bool) {
    && |run| > 0 && Init(run[0], initial)
    && forall i :: 0 <= i < |run| - 1 ==> Next(run[i], run[i + 1], balanced)
  }

  lemma {:induction false} RunInv(run: seq<State>, i: nat, initial: int, balanced: bool)
    requires Run(run, initial, balanced) && i < |run|
    ensures Inv(run[i], initial, balanced)
    decreases i
  {
    if i == 0 {
      InitInv(run[0], initial, balanced);
    } else {
      RunInv(run, i - 1, initial, balanced);
      assert Next(run[i - 1], run[i - 1 + 1], balanced);
      var t :| 0 <= t < |run[i - 1].threads| && Step(run[i - 1], run[i], t, balanced);
      StepInv(run[i - 1], run[i], t, initial, balanced);
    }
  }

  /** In every reachable state, however the threads interleave and however often they release
      without having taken, the value is the initial one less the takes plus the releases
      completed, and it stays between zero and the largest int. */
  lemma ValueIsBalance(run: seq<State>, i: nat, initial: int, balanced: bool)
    requires Run(run, initial, balanced) && i < |run|
    ensures run[i].word == initial - run[i].takes + run[i].releases
    ensures 0 <= run[i].word <= MAX_VALUE
  {
    RunInv(run, i, initial, balanced);
  }

  // ----- Holders

  function Holders(ths: seq<Thread>): nat {
    if ths == [] then 0
    else Holders(ths[..|ths| - 1]) + if ths[|ths| - 1].held > 0 then 1 else 0
  }

  lemma {:induction false} HoldersBelowTotal(ths: seq<Thread>)
    requires forall t :: 0 <= t < |ths| ==> ths[t].held >= 0
    ensures Holders(ths) <= TotalHeld(ths)
  {
    if ths != [] {
      HoldersBelowTotal(ths[..|ths| - 1]);
    }
  }

  /** When threads release only what they hold, never more units are held, nor by more
      threads, than the semaphore started with, and its value is what is left. */
  lemma HoldersBounded(run: seq<State>, i: nat, initial: int)
    requires Run(run, initial, true) && i < |run|
    ensures Holders(run[i].threads) <= TotalHeld(run[i].threads) <= initial
    ensures run[i].word == initial - TotalHeld(run[i].threads)
  {
    RunInv(run, i, initial, true);
    assert forall t :: 0 <= t < |run[i].threads| ==> RegistersOk(run[i].threads[t], true);
    HoldersBelowTotal(run[i].threads);
  }

  // ----- Refinement of an atomic counter

  datatype Action = P | V | Internal

  predicate AtomicStep(v: int, v': int, act: Action) {
    match act
    case P => v > 0 && v' == v - 1
    case V => v < MAX_VALUE && v' == v + 1
    case Internal => v' == v
  }

  /** The operation a step performs: a P or V at the SC that completes it. */
  function ActionOf(s: State, s': State): Action {
    if s'.takes > s.takes then P else if s'.releases > s.releases then V else Internal
  }

  /** Every instruction of every thread is one step of the atomic counter, or none; so a take
      completes only from a value above zero. */
  lemma StepRefines(s: State, s': State, t: nat, initial: int, balanced: bool)
    requires t < |s.threads| && Inv(s, initial, balanced) && Step(s, s', t, balanced)
    ensures Inv(s', initial, balanced) && AtomicStep(s.word, s'.word, ActionOf(s, s'))
  {
    StepInv(s, s', t, initial, balanced);
  }

  /** So a whole run is a run of the atomic counter. */
  lemma RunRefines(run: seq<State>, i: nat, initial: int, balanced: bool)
    requires Run(run, initial, balanced) && i < |run| - 1
    ensures AtomicStep(run[i].word, run[i + 1].word, ActionOf(run[i], run[i + 1]))
  {
    RunInv(run, i, initial, balanced);
    assert Next(run[i], run[i + 1], balanced);
    var t :| 0 <= t < |run[i].threads| && Step(run[i], run[i + 1], t, balanced);
    StepRefines(run[i], run[i + 1], t, initial, balanced);
  }

  // ----- The trapping additions

  /** The subtraction of sem_take never traps; the addition of sem_release traps exactly when
      LL read the largest int, and then leaves the word alone. */
  lemma TrapsExactlyAtMax(s: State, s': State, t: nat, initial: int, balanced: bool)
    requires t < |s.threads| && Inv(s, initial, balanced) && Step(s, s', t, balanced)
    requires s.threads[t].pc != Trapped
    ensures s'.threads[t].pc == Trapped <==> s.threads[t].pc == ReleaseIncrement && s.threads[t].tmp == MAX_VALUE
    ensures s'.threads[t].pc == Trapped ==> s'.word == s.word
  {
    assert RegistersOk(s.threads[t], balanced);
  }

  // ----- One atomic action per call

  lemma StepOthers(s: State, s': State, u: nat, t: nat, balanced: bool)
    requires u < |s.threads| && t < |s.threads| && Step(s, s', u, balanced)
    ensures |s'.threads| == |s.threads| && (t != u ==> s'.threads[t] == s.threads[t])
  {
  }

  /** Every instruction leaves the other threads alone. */
  lemma MoverSteps(s: State, s': State, t: nat, balanced: bool)
    requires t < |s.threads| && Next(s, s', balanced)
    ensures |s'.threads| == |s.threads|
    ensures s'.threads[t] == s.threads[t] || Step(s, s', t, balanced)
  {
    hide Step;
    var u :| 0 <= u < |s.threads| && Step(s, s', u, balanced);
    StepOthers(s, s', u, t, balanced);
  }

  /** The operation by which a thread gets from th to th'. */
  function ActionBy(th: Thread, th': Thread): Action {
    if th'.held > th.held then P else if th'.held < th.held then V else Internal
  }

  /** It is the operation of the step, if that is the thread's. */
  lemma ActionIsStep(s: State, s': State, t: nat, balanced: bool)
    requires t < |s.threads| && Step(s, s', t, balanced)
    ensures |s'.threads| == |s.threads| && ActionBy(s.threads[t], s'.threads[t]) == ActionOf(s, s')
  {
  }

  lemma NextAt(run: seq<State>, i: nat, initial: int, balanced: bool)
    requires Run(run, initial, balanced) && i < |run| - 1
    ensures Next(run[i], run[i + 1], balanced)
  {
  }

  predicate HasThread(run: seq<State>, t: nat) {
    forall k :: 0 <= k < |run| ==> t < |run[k].threads|
  }

  /** The atomic actions of t from state j to state i of a run, in order. */
  function Actions(run: seq<State>, j: nat, i: nat, t: nat): seq<Action>
    requires j <= i < |run| && HasThread(run, t)
  {
    if i == j then []
    else
      var act := ActionBy(run[i - 1].threads[t], run[i].threads[t]);
      Actions(run, j, i - 1, t) + if act == Internal then [] else [act]
  }

  predicate InTake(pc: Pc) { pc in {TakeLl, TakeBeqz, TakeSlotDecrement, TakeSc, TakeRetry, TakeSlotNop} }

  /** What a call has done when its thread is in state th. */
  function DoneBy(th: Thread): seq<Action> {
    match th.pc
    case TakeRetry => if th.tmp != 0 then [P] else []
    case TakeSlotNop => if !th.taken then [P] else []
    case ReleaseRetry => if th.tmp != 0 then [V] else []
    case ReleaseSlotNop => if !th.taken then [V] else []
    case _ => []
  }

  lemma DoneStep(s: State, s': State, t: nat, balanced: bool)
    requires t < |s.threads| && Step(s, s', t, balanced)
    requires t < |s'.threads| && s'.threads[t].pc != Idle && s.threads[t].pc != Trapped
    ensures var act := ActionBy(s.threads[t], s'.threads[t]);
            DoneBy(s'.threads[t]) == DoneBy(s.threads[t]) + if act == Internal then [] else [act]
    ensures s.threads[t].pc != Idle && s'.threads[t].pc != Trapped ==>
              (InTake(s'.threads[t].pc) <==> InTake(s.threads[t].pc))
  {
  }

  lemma IdleDone(th: Thread)
    ensures th.pc == Idle ==> DoneBy(th) == []
  {
  }

  /** t calls at state j and has not returned up to state i; take: it called sem_take. */
  predicate InCall(run: seq<State>, j: nat, i: nat, t: nat, take: bool)
    requires j < i < |run| && HasThread(run, t)
  {
    && run[j].threads[t].pc == Idle && (take <==> InTake(run[j + 1].threads[t].pc))
    && forall k :: j < k <= i ==> run[k].threads[t].pc !in {Idle, Trapped}
  }

  lemma {:induction false} CallActions(run: seq<State>, j: nat, i: nat, t: nat, take: bool,
                                           initial: int, balanced: bool)
    requires Run(run, initial, balanced) && j < i < |run| && HasThread(run, t)
    requires InCall(run, j, i, t, take)
    ensures Actions(run, j, i, t) == DoneBy(run[i].threads[t]) && (take <==> InTake(run[i].threads[t].pc))
    decreases i
  {
    hide Run, Step, Next, DoneBy, InTake;
    NextAt(run, i - 1, initial, balanced);
    MoverSteps(run[i - 1], run[i], t, balanced);
    IdleDone(run[j].threads[t]);
    if i == j + 1 {
      assert Actions(run, j, j, t) == [];
    } else {
      CallActions(run, j, i - 1, t, take, initial, balanced);
    }
    if run[i].threads[t] != run[i - 1].threads[t] {
      DoneStep(run[i - 1], run[i], t, balanced);
    }
  }

  /** Every call that returns does exactly one atomic action between its first instruction and
      its return: a take a P, a release a V. */
  lemma CallIsOneAction(run: seq<State>, j: nat, i: nat, t: nat, take: bool, initial: int, balanced: bool)
    requires Run(run, initial, balanced) && j < i < |run| - 1
    requires HasThread(run, t)
    requires InCall(run, j, i, t, take) && run[i + 1].threads[t].pc == Idle
    ensures Actions(run, j, i + 1, t) == [if take then P else V]
  {
    hide Run, Next;
    CallActions(run, j, i, t, take, initial, balanced);
    NextAt(run, i, initial, balanced);
    MoverSteps(run[i], run[i + 1], t, balanced);
  }

  /** The bounds at which the additions trap are those of a 32-bit two's complement sum. */
  lemma TrapsAreOverflow(x: int)
    requires MIN_VALUE <= x <= MAX_VALUE
    ensures x + 1 > MAX_VALUE <==> Signed((x + 1) % W32, W32) != x + 1
    ensures x - 1 < MIN_VALUE <==> Signed((x - 1) % W32, W32) != x - 1
    ensures Signed(x % W32, W32) == x
  {
    QuotientIsUnique(x, W32, if x < 0 then -1 else 0, if x < 0 then x + W32 else x);
    QuotientIsUnique(x + 1, W32, if x + 1 < 0 then -1 else 0, if x + 1 < 0 then x + 1 + W32 else x + 1);
    QuotientIsUnique(x - 1, W32, if x - 1 < 0 then -1 else 0, if x - 1 < 0 then x - 1 + W32 else x - 1);
  }
}
