/** The LL/SC spin lock, one instruction at a time, for any number of threads.  The 32-bit
    code (ll, sc) and the 64-bit code (lld, scd) are the same instructions at two widths and
    are modelled once, over lock words of any size. */
module Spinlock {
  /** The next instruction of a thread.  Each Slot is the delay slot of the branch before it,
      executed whether or not that branch is taken. */
  datatype Pc =
    | Idle
      // lock
    | LockLl | LockBnez | LockSlotMove | LockSc | LockBeqz | LockSlotNop
      // trylock
    | TryLl | TryBnez | TrySlotNop | TryMove | TrySc | TryBeqz | TrySlotClear | TryReturn
      // between acquire and release; the next step is the store of release
    | Critical

  /** tmp: the scratch register.  taken: the branch whose delay slot is next will be taken.
      stored: whether an SC of the current call has succeeded. */
  datatype Thread = Thread(pc: Pc, tmp: nat, taken: bool, lockval: nat, stored: bool)

  /** live: the threads whose LL reservation has not been lost. */
  datatype State = State(word: nat, live: set<nat>, threads: seq<Thread>)

  predicate Init(s: State) {
    s.word == 0 && forall t :: 0 <= t < |s.threads| ==> s.threads[t].pc == Idle
  }

  // ----- Steps.  A reservation may vanish at any step; a write to the word leaves at most
  // the writer's own.

  /** A step of thread t that leaves the word alone. */
  predicate Local(s: State, s': State, t: nat, th: Thread)
    requires t < |s.threads|
  {
    s'.word == s.word && s'.live <= s.live && s'.threads == s.threads[t := th]
  }

  predicate LoadLinked(s: State, s': State, t: nat, th: Thread)
    requires t < |s.threads|
  {
    s'.word == s.word && s'.live <= s.live + {t} && s'.threads == s.threads[t := th]
  }

  predicate StoreWord(s: State, s': State, t: nat, v: nat, th: Thread)
    requires t < |s.threads|
  {
    s'.word == v && s'.live <= {t} && s'.threads == s.threads[t := th]
  }

  /** SC: 1 and the store with a live reservation, 0 and nothing without; it may also fail
      for no reason. */
  predicate StoreConditional(s: State, s': State, t: nat, next: Pc)
    requires t < |s.threads|
  {
    var th := s.threads[t];
    || (t in s.live && StoreWord(s, s', t, th.tmp, th.(pc := next, tmp := 1, stored := true)))
    || Local(s, s', t, th.(pc := next, tmp := 0))
  }

  ghost predicate Step(s: State, s': State, t: nat)
    requires t < |s.threads|
  {
    var th := s.threads[t];
    match th.pc
    case Idle =>
      exists v: nat, start :: Begin(s, s', t, v, start)
    case LockLl => LoadLinked(s, s', t, th.(pc := LockBnez, tmp := s.word))
    case LockBnez => Local(s, s', t, th.(pc := LockSlotMove, taken := th.tmp != 0))
    case LockSlotMove => Local(s, s', t, th.(pc := if th.taken then LockLl else LockSc, tmp := th.lockval))
    case LockSc => StoreConditional(s, s', t, LockBeqz)
    case LockBeqz => Local(s, s', t, th.(pc := LockSlotNop, taken := th.tmp == 0))
    case LockSlotNop => Local(s, s', t, th.(pc := if th.taken then LockLl else Critical))
    case TryLl => LoadLinked(s, s', t, th.(pc := TryBnez, tmp := s.word))
    case TryBnez => Local(s, s', t, th.(pc := TrySlotNop, taken := th.tmp != 0))
    case TrySlotNop => Local(s, s', t, th.(pc := if th.taken then TryReturn else TryMove))
    case TryMove => Local(s, s', t, th.(pc := TrySc, tmp := th.lockval))
    case TrySc => StoreConditional(s, s', t, TryBeqz)
    case TryBeqz => Local(s, s', t, th.(pc := TrySlotClear, taken := th.tmp == 0))
    case TrySlotClear => Local(s, s', t, th.(pc := if th.taken then TryLl else TryReturn, tmp := 0))
    case TryReturn => Local(s, s', t, th.(pc := if th.tmp == 0 then Critical else Idle))
    case Critical => StoreWord(s, s', t, 0, th.(pc := Idle))
  }

  /** A call of lock or trylock with a non-zero value. */
  predicate Begin(s: State, s': State, t: nat, v: nat, start: Pc)
    requires t < |s.threads|
  {
    && v != 0 && start in {LockLl, TryLl}
    && Local(s, s', t, s.threads[t].(pc := start, lockval := v, stored := false))
  }

  ghost predicate Next(s: State, s': State) {
    exists t :: 0 <= t < |s.threads| && Step(s, s', t)
  }

  // ----- The invariant

  /** t is past its successful SC and has not released. */
  predicate Owns(th: Thread) {
    match th.pc
    case LockBeqz => th.tmp != 0
    case LockSlotNop => !th.taken
    case TryBeqz => th.tmp != 0
    case TrySlotClear => !th.taken
    case TryReturn => th.tmp == 0
    case Critical => true
    case _ => false
  }

  /** What the registers of one thread say by themselves. */
  predicate RegistersOk(th: Thread) {
    && (th.pc != Idle ==> th.lockval != 0)
    && match th.pc
       case LockSlotMove => th.taken == (th.tmp != 0)
       case LockSc => th.tmp == th.lockval
       case LockSlotNop => th.taken == (th.tmp == 0)
       case TryLl => !th.stored
       case TryBnez => !th.stored
       case TrySlotNop => !th.stored && th.taken == (th.tmp != 0)
       case TryMove => !th.stored && th.tmp == 0
       case TrySc => !th.stored && th.tmp == th.lockval
       case TryBeqz => th.stored == (th.tmp != 0)
       case TrySlotClear => th.taken == (th.tmp == 0) && th.stored == (th.tmp != 0)
       case TryReturn => th.stored == (th.tmp == 0)
       case _ => true
  }

  /** A live reservation means that the word still holds what LL read. */
  predicate ReservationOk(th: Thread, word: nat) {
    match th.pc
    case LockBnez => word == th.tmp
    case LockSlotMove => word == th.tmp
    case LockSc => word == 0
    case TryBnez => word == th.tmp
    case TrySlotNop => word == th.tmp
    case TryMove => word == 0
    case TrySc => word == 0
    case _ => true
  }

  ghost predicate Inv(s: State) {
    && (forall t :: 0 <= t < |s.threads| ==> RegistersOk(s.threads[t]))
    && (forall t :: 0 <= t < |s.threads| && t in s.live ==> ReservationOk(s.threads[t], s.word))
    && (forall t, u :: 0 <= t < u < |s.threads| ==> !(Owns(s.threads[t]) && Owns(s.threads[u])))
    && (forall t :: 0 <= t < |s.threads| && Owns(s.threads[t]) ==> s.word == s.threads[t].lockval)
    && (s.word != 0 ==> exists t :: 0 <= t < |s.threads| && Owns(s.threads[t]))
  }

  lemma InitInv(s: State)
    requires Init(s)
    ensures Inv(s)
  {
  }

  /** A step that leaves the word alone keeps the invariant when it keeps the mover's share. */
  lemma KeepWord(s: State, s': State, t: nat, th: Thread)
    requires t < |s.threads| && Inv(s)
    requires s'.word == s.word && s'.live <= s.live + {t} && s'.threads == s.threads[t := th]
    requires RegistersOk(th) && (t in s'.live ==> ReservationOk(th, s.word))
    requires Owns(th) == Owns(s.threads[t]) && (Owns(th) ==> th.lockval == s.threads[t].lockval)
    ensures Inv(s')
  {
    if s'.word != 0 {
      var u :| 0 <= u < |s.threads| && Owns(s.threads[u]);
      assert Owns(s'.threads[u]);
    }
  }

  /** A successful SC: the reservation says the word was zero, so nobody owned the lock. */
  lemma AcquireInv(s: State, s': State, t: nat, th: Thread)
    requires t < |s.threads| && Inv(s) && t in s.live && s.threads[t].pc in {LockSc, TrySc}
    requires StoreWord(s, s', t, s.threads[t].tmp, th) && RegistersOk(th) && Owns(th)
    requires th.lockval == s.threads[t].lockval && th.pc in {LockBeqz, TryBeqz}
    ensures Inv(s') && s.word == 0
  {
    assert ReservationOk(s.threads[t], s.word) && RegistersOk(s.threads[t]);
    assert forall u :: 0 <= u < |s.threads| && Owns(s.threads[u]) ==> RegistersOk(s.threads[u]);
    assert Owns(s'.threads[t]);
  }

  lemma ReleaseInv(s: State, s': State, t: nat)
    requires t < |s.threads| && Inv(s) && s.threads[t].pc == Critical
    requires StoreWord(s, s', t, 0, s.threads[t].(pc := Idle))
    ensures Inv(s')
  {
  }

  lemma ScInv(s: State, s': State, t: nat, next: Pc)
    requires t < |s.threads| && Inv(s) && StoreConditional(s, s', t, next)
    requires (s.threads[t].pc == LockSc && next == LockBeqz) || (s.threads[t].pc == TrySc && next == TryBeqz)
    ensures Inv(s')
  {
    var th := s.threads[t];
    assert RegistersOk(th);
    if s'.threads[t].tmp == 1 {
      AcquireInv(s, s', t, th.(pc := next, tmp := 1, stored := true));
    } else {
      KeepWord(s, s', t, th.(pc := next, tmp := 0));
    }
  }

  lemma InvAt(s: State, t: nat)
    requires Inv(s) && t < |s.threads|
    ensures RegistersOk(s.threads[t]) && (t in s.live ==> ReservationOk(s.threads[t], s.word))
  {
  }

  lemma StepInv(s: State, s': State, t: nat)
    requires t < |s.threads| && Inv(s) && Step(s, s', t)
    ensures Inv(s')
  {
    InvAt(s, t);
    hide Inv;
    match s.threads[t].pc
    case LockSc => ScInv(s, s', t, LockBeqz);
    case TrySc => ScInv(s, s', t, TryBeqz);
    case Critical => ReleaseInv(s, s', t);
    case _ => KeepWord(s, s', t, s'.threads[t]);
  }

  lemma StepOthers(s: State, s': State, u: nat, t: nat)
    requires u < |s.threads| && t < |s.threads| && Step(s, s', u)
    ensures |s'.threads| == |s.threads| && s'.threads[u].pc != s.threads[u].pc
    ensures t != u ==> s'.threads[t] == s.threads[t]
  {
  }

  lemma NextInv(s: State, s': State)
    requires Inv(s) && Next(s, s')
    ensures Inv(s') && |s'.threads| == |s.threads|
  {
    hide Step, Inv;
    var t :| 0 <= t < |s.threads| && Step(s, s', t);
    StepInv(s, s', t);
    StepOthers(s, s', t, t);
  }

  /** A finite run: a sequence of states, each a step from the one before it. */
  ghost predicate Run(run: seq<State>) {
    && |run| > 0 && Init(run[0])
    && forall i :: 0 <= i < |run| - 1 ==> Next(run[i], run[i + 1])
  }

  lemma NextAt(run: seq<State>, i: nat)
    requires Run(run) && i < |run| - 1
    ensures Next(run[i], run[i + 1])
  {
  }

  lemma {:induction false} RunInv(run: seq<State>, i: nat)
    requires Run(run) && i < |run|
    ensures Inv(run[i]) && |run[i].threads| == |run[0].threads|
    decreases i
  {
    if i == 0 {
      InitInv(run[0]);
    } else {
      hide Inv, Next;
      RunInv(run, i - 1);
      NextAt(run, i - 1);
      NextInv(run[i - 1], run[i]);
    }
  }

  /** Mutual exclusion in every reachable state: at most one thread is between acquire and
      release, and the word is zero exactly when there is none, else that one's lockval. */
  lemma MutualExclusion(run: seq<State>, i: nat)
    requires Run(run) && i < |run|
    ensures var s := run[i];
            && (forall t, u | 0 <= t < |s.threads| && 0 <= u < |s.threads| ::
                  Owns(s.threads[t]) && Owns(s.threads[u]) ==> t == u)
            && (s.word == 0 <==> forall t :: 0 <= t < |s.threads| ==> !Owns(s.threads[t]))
            && (forall t :: 0 <= t < |s.threads| && Owns(s.threads[t]) ==> s.word == s.threads[t].lockval)
  {
    RunInv(run, i);
    var s := run[i];
    assert forall t :: 0 <= t < |s.threads| && Owns(s.threads[t]) ==> RegistersOk(s.threads[t]);
  }

  // ----- Refinement of an atomic lock

  datatype AtomicLock = Free | Held(owner: nat, value: nat)

  datatype Action =
    | Acquire(t: nat, v: nat)      // the whole of a lock, or of a trylock that gets it
    | Busy(t: nat, v: nat)         // the whole of a trylock that does not
    | Release(t: nat)
    | Internal

  predicate AtomicStep(a: AtomicLock, a': AtomicLock, act: Action) {
    match act
    case Acquire(t, v) => a == Free && a' == Held(t, v)
    case Busy(t, v) => a.Held? && a.value == v && a' == a
    case Release(t) => a.Held? && a.owner == t && a' == Free
    case Internal => a' == a
  }

  ghost function Abs(s: State): AtomicLock
    requires Inv(s)
  {
    if s.word == 0 then Free
    else
      var t :| 0 <= t < |s.threads| && Owns(s.threads[t]);
      Held(t, s.word)
  }

  lemma AbsOf(s: State, t: nat)
    requires Inv(s) && t < |s.threads| && Owns(s.threads[t])
    ensures Abs(s) == Held(t, s.word) && s.word == s.threads[t].lockval
  {
    assert RegistersOk(s.threads[t]);
  }

  /** Which atomic operation a step of t performs: acquiring at a successful SC, releasing at
      the store, and failing a trylock at the LL that reads a taken lock. */
  function ActionOf(s: State, s': State, t: nat): Action
    requires t < |s.threads| && t < |s'.threads|
  {
    var th := s.threads[t];
    match th.pc
    case LockSc => if s'.threads[t].tmp != 0 then Acquire(t, th.lockval) else Internal
    case TrySc => if s'.threads[t].tmp != 0 then Acquire(t, th.lockval) else Internal
    case TryLl => if s.word != 0 then Busy(t, s.word) else Internal
    case Critical => Release(t)
    case _ => Internal
  }

  /** What a step does to the word and to who owns it. */
  lemma StepEffect(s: State, s': State, t: nat)
    requires t < |s.threads| && Inv(s) && Step(s, s', t)
    ensures |s'.threads| == |s.threads|
    ensures match ActionOf(s, s', t)
            case Acquire(_, v) => s.word == 0 && s'.word == v == s.threads[t].lockval && Owns(s'.threads[t])
            case Release(_) => Owns(s.threads[t]) && s'.word == 0
            case Busy(_, v) => s.word == v != 0 && KeepsOwners(s, s')
            case Internal => KeepsOwners(s, s')
  {
    assert RegistersOk(s.threads[t]) && (t in s.live ==> ReservationOk(s.threads[t], s.word));
  }

  predicate KeepsOwners(s: State, s': State)
    requires |s'.threads| == |s.threads|
  {
    s'.word == s.word && forall u :: 0 <= u < |s.threads| && Owns(s.threads[u]) ==> Owns(s'.threads[u])
  }

  /** Every instruction of every thread is one step of the atomic lock, or none. */
  lemma StepRefines(s: State, s': State, t: nat)
    requires t < |s.threads| && Inv(s) && Step(s, s', t)
    ensures Inv(s') && AtomicStep(Abs(s), Abs(s'), ActionOf(s, s', t))
  {
    StepInv(s, s', t);
    StepEffect(s, s', t);
    hide Step, RegistersOk, ReservationOk, ActionOf, Owns;
    if ActionOf(s, s', t).Acquire? {
      AbsOf(s', t);
    } else if ActionOf(s, s', t).Release? {
      AbsOf(s, t);
    } else if s.word != 0 {
      var u :| 0 <= u < |s.threads| && Owns(s.threads[u]);
      AbsOf(s, u);
      AbsOf(s', u);
    }
  }

  /** Step, seen as a step of the atomic lock. */
  ghost predicate StepAs(s: State, s': State, t: nat)
    requires Inv(s) && Inv(s') && t < |s.threads| && t < |s'.threads|
  {
    Step(s, s', t) && AtomicStep(Abs(s), Abs(s'), ActionOf(s, s', t))
  }

  ghost predicate AtomicNext(s: State, s': State)
    requires Inv(s) && Inv(s')
  {
    exists t :: 0 <= t < |s.threads| && t < |s'.threads| && StepAs(s, s', t)
  }

  /** So a whole run is a run of the atomic lock, which starts free. */
  lemma RunRefines(run: seq<State>, i: nat)
    requires Run(run) && i < |run| - 1
    ensures Inv(run[0]) && Abs(run[0]) == Free
    ensures Inv(run[i]) && Inv(run[i + 1]) && AtomicNext(run[i], run[i + 1])
  {
    RunInv(run, 0);
    RunInv(run, i);
    RunInv(run, i + 1);
    assert Next(run[i], run[i + 1]);
    var t :| 0 <= t < |run[i].threads| && Step(run[i], run[i + 1], t);
    StepRefines(run[i], run[i + 1], t);
    assert StepAs(run[i], run[i + 1], t);
  }

  // ----- What trylock returns

  predicate InTry(th: Thread) {
    th.pc in {TryLl, TryBnez, TrySlotNop, TryMove, TrySc, TryBeqz, TrySlotClear, TryReturn}
  }

  /** The values of tmp that came from this call's last LL. */
  predicate HoldsWordRead(th: Thread) {
    || th.pc == TryBnez
    || th.pc == TrySlotNop
    || (th.pc == TryReturn && th.tmp != 0)
  }

  /** Every instruction moves its thread's program counter and leaves the other threads alone. */
  lemma MoverSteps(s: State, s': State, t: nat)
    requires t < |s.threads| && Next(s, s')
    ensures |s'.threads| == |s.threads|
    ensures if s'.threads[t].pc == s.threads[t].pc then s'.threads[t] == s.threads[t] else Step(s, s', t)
  {
    hide Step;
    var u :| 0 <= u < |s.threads| && Step(s, s', u);
    StepOthers(s, s', u, t);
  }

  /** Such a value was put there by the LL just before, or was there already. */
  lemma ReadStep(s: State, s': State, t: nat)
    requires t < |s.threads| && Next(s, s')
    requires t < |s'.threads| && HoldsWordRead(s'.threads[t])
    ensures InTry(s.threads[t])
    ensures if s.threads[t].pc == TryLl then s.word == s'.threads[t].tmp
            else HoldsWordRead(s.threads[t]) && s.threads[t].tmp == s'.threads[t].tmp
  {
    hide Step, Next;
    MoverSteps(s, s', t);
    if s'.threads[t].pc != s.threads[t].pc {
      OwnReadStep(s, s', t);
    }
  }

  lemma OwnReadStep(s: State, s': State, t: nat)
    requires t < |s.threads| && Step(s, s', t)
    requires t < |s'.threads| && HoldsWordRead(s'.threads[t])
    ensures InTry(s.threads[t])
    ensures if s.threads[t].pc == TryLl then s.word == s'.threads[t].tmp
            else HoldsWordRead(s.threads[t]) && s.threads[t].tmp == s'.threads[t].tmp
  {
  }

  /** A non-zero value about to be returned was the lock word at some state of the run at
      which this very call was under way. */
  lemma {:induction false} ReturnWasWord(run: seq<State>, i: nat, t: nat)
    requires Run(run) && i < |run| && t < |run[0].threads|
    requires t < |run[i].threads| && HoldsWordRead(run[i].threads[t])
    ensures WordDuringCall(run, i, t, run[i].threads[t].tmp)
    decreases i
  {
    if i > 0 {
      hide Run, Step, Next, Inv, WordDuringCall;
      RunInv(run, i - 1);
      NextAt(run, i - 1);
      ReadStep(run[i - 1], run[i], t);
      if run[i - 1].threads[t].pc == TryLl {
        ReadNow(run, i, t);
      } else {
        ReturnWasWord(run, i - 1, t);
        ReadEarlier(run, i, t, run[i].threads[t].tmp);
      }
    }
  }

  lemma ReadNow(run: seq<State>, i: nat, t: nat)
    requires 0 < i < |run| && t < |run[i - 1].threads| && t < |run[i].threads|
    requires InTry(run[i - 1].threads[t]) && InTry(run[i].threads[t])
    ensures WordDuringCall(run, i, t, run[i - 1].word)
  {
    assert CalledSince(run, i - 1, i, t);
  }

  lemma ReadEarlier(run: seq<State>, i: nat, t: nat, v: nat)
    requires 0 < i < |run| && t < |run[i].threads| && InTry(run[i].threads[t])
    requires WordDuringCall(run, i - 1, t, v)
    ensures WordDuringCall(run, i, t, v)
  {
    var j :| CalledSince(run, j, i - 1, t) && run[j].word == v;
    assert CalledSince(run, j, i, t);
  }

  /** The word was v at some state since which, up to state i, t has been in one trylock. */
  ghost predicate WordDuringCall(run: seq<State>, i: nat, t: nat, v: nat) {
    exists j :: CalledSince(run, j, i, t) && run[j].word == v
  }

  ghost predicate CalledSince(run: seq<State>, j: int, i: int, t: nat) {
    0 <= j <= i < |run| && forall k :: j <= k <= i ==> t < |run[k].threads| && InTry(run[k].threads[t])
  }

  /** trylock returns zero exactly when an SC of this call stored lockval, and then the caller
      owns the lock; otherwise it returns a value the word had during the call. */
  lemma TrylockReturn(run: seq<State>, i: nat, t: nat)
    requires Run(run) && i < |run| && t < |run[0].threads|
    requires t < |run[i].threads| && run[i].threads[t].pc == TryReturn
    ensures var th := run[i].threads[t];
            && (th.tmp == 0 <==> th.stored)
            && (th.tmp == 0 ==> run[i].word == th.lockval && Owns(th))
            && (th.tmp != 0 ==> WordDuringCall(run, i, t, th.tmp))
  {
    RunInv(run, i);
    if run[i].threads[t].tmp != 0 {
      ReturnWasWord(run, i, t);
    }
  }

  // ----- One atomic action per call

  predicate HasThread(run: seq<State>, t: nat) {
    forall k :: 0 <= k < |run| ==> t < |run[k].threads|
  }

  /** The atomic actions of t from state j to state i of a run, in order. */
  function Actions(run: seq<State>, j: nat, i: nat, t: nat): seq<Action>
    requires j <= i < |run| && HasThread(run, t)
  {
    if i == j then []
    else
      var s, s' := run[i - 1], run[i];
      var act := if s.threads[t].pc == s'.threads[t].pc then Internal else ActionOf(s, s', t);
      Actions(run, j, i - 1, t) + if act == Internal then [] else [act]
  }

  /** What a call has done when its thread is in state th. */
  function DoneBy(th: Thread, t: nat): seq<Action> {
    if Owns(th) then [Acquire(t, th.lockval)]
    else if HoldsWordRead(th) && th.tmp != 0 then [Busy(t, th.tmp)]
    else []
  }

  lemma SilentStep(s: State, s': State, t: nat)
    requires t < |s.threads| && RegistersOk(s.threads[t]) && Step(s, s', t)
    requires t < |s'.threads| && s'.threads[t].pc != Idle && s.threads[t].pc !in {LockSc, TrySc, TryLl}
    ensures ActionOf(s, s', t) == Internal && DoneBy(s'.threads[t], t) == DoneBy(s.threads[t], t)
  {
  }

  lemma ActingStep(s: State, s': State, t: nat)
    requires t < |s.threads| && RegistersOk(s.threads[t]) && Step(s, s', t)
    requires t < |s'.threads| && s.threads[t].pc in {LockSc, TrySc, TryLl}
    ensures var act := ActionOf(s, s', t);
            DoneBy(s.threads[t], t) == [] && DoneBy(s'.threads[t], t) == if act == Internal then [] else [act]
  {
  }

  lemma DoneStep(s: State, s': State, t: nat)
    requires t < |s.threads| && RegistersOk(s.threads[t]) && Step(s, s', t)
    requires t < |s'.threads| && s'.threads[t].pc != Idle
    ensures var act := ActionOf(s, s', t);
            DoneBy(s'.threads[t], t) == DoneBy(s.threads[t], t) + if act == Internal then [] else [act]
  {
    hide Step, RegistersOk, ActionOf, DoneBy;
    if s.threads[t].pc in {LockSc, TrySc, TryLl} {
      ActingStep(s, s', t);
    } else {
      SilentStep(s, s', t);
    }
  }

  /** t calls at state j and has not returned and released again up to state i. */
  predicate InCall(run: seq<State>, j: nat, i: nat, t: nat)
    requires j <= i < |run| && HasThread(run, t)
  {
    run[j].threads[t].pc == Idle && forall k :: j < k <= i ==> run[k].threads[t].pc != Idle
  }

  lemma {:induction false} CallActions(run: seq<State>, j: nat, i: nat, t: nat)
    requires Run(run) && j <= i < |run| && HasThread(run, t)
    requires InCall(run, j, i, t)
    ensures Actions(run, j, i, t) == DoneBy(run[i].threads[t], t)
    decreases i
  {
    if i == j {
      assert Actions(run, j, i, t) == [] == DoneBy(run[i].threads[t], t);
    } else {
      hide Run, Step, Next, RegistersOk, ReservationOk, Owns, DoneBy, ActionOf;
      CallActions(run, j, i - 1, t);
      RunInv(run, i - 1);
      NextAt(run, i - 1);
      MoverSteps(run[i - 1], run[i], t);
      if run[i - 1].threads[t].pc != run[i].threads[t].pc {
        DoneStep(run[i - 1], run[i], t);
      }
    }
  }

  /** Every call does exactly one atomic action, between its first instruction and its return:
      a lock acquires; a trylock acquires when it returns zero, and finds the lock held with
      the value that it returns otherwise. */
  lemma CallIsOneAction(run: seq<State>, j: nat, i: nat, t: nat)
    requires Run(run) && j <= i < |run| && HasThread(run, t)
    requires InCall(run, j, i, t) && run[i].threads[t].pc in {Critical, TryReturn}
    ensures var th := run[i].threads[t];
            Actions(run, j, i, t) ==
            if th.pc == Critical || th.tmp == 0 then [Acquire(t, th.lockval)] else [Busy(t, th.tmp)]
  {
    CallActions(run, j, i, t);
    RunInv(run, i);
  }

  /** And a thread that is back does so by the one action of its release, or by returning from
      a trylock that has done its own. */
  lemma ReturnsByRelease(run: seq<State>, i: nat, t: nat)
    requires Run(run) && i < |run| - 1 && t < |run[i].threads| && t < |run[i + 1].threads|
    requires run[i].threads[t].pc != Idle && run[i + 1].threads[t].pc == Idle
    ensures ActionOf(run[i], run[i + 1], t) ==
            if run[i].threads[t].pc == Critical then Release(t) else Internal
    ensures run[i].threads[t].pc in {Critical, TryReturn}
  {
    assert Next(run[i], run[i + 1]);
    MoverSteps(run[i], run[i + 1], t);
  }

  // ----- Which calls return how

  predicate InLock(pc: Pc) { pc in {LockLl, LockBnez, LockSlotMove, LockSc, LockBeqz, LockSlotNop} }

  /** A thread leaves the code of lock only as its owner, and the code of trylock only through
      its return; neither changes the value the caller gave. */
  lemma CodeStep(s: State, s': State, t: nat)
    requires t < |s.threads| && Step(s, s', t) && t < |s'.threads|
    ensures InLock(s.threads[t].pc) ==> InLock(s'.threads[t].pc) || s'.threads[t].pc == Critical
    ensures InTry(s.threads[t]) ==>
              if s.threads[t].pc != TryReturn then InTry(s'.threads[t])
              else s'.threads[t].pc == if s.threads[t].tmp == 0 then Critical else Idle
    ensures s.threads[t].pc == Critical ==> s'.threads[t].pc == Idle
    ensures s.threads[t].pc == Idle ==> s'.threads[t].pc in {LockLl, TryLl} && s'.threads[t].lockval != 0
    ensures s.threads[t].pc != Idle ==> s'.threads[t].lockval == s.threads[t].lockval
  {
  }

  /** What a call that began with the step after j may do up to i: one of lock is in its code or
      has got the lock; one of trylock is in its code or has returned zero; both still want to
      put the value that the caller gave. */
  predicate KeepsToCode(run: seq<State>, j: nat, i: nat, t: nat)
    requires j < i < |run| && HasThread(run, t)
  {
    var first, th := run[j + 1].threads[t], run[i].threads[t];
    && th.lockval == first.lockval != 0
    && (first.pc == LockLl ==> InLock(th.pc) || th.pc == Critical)
    && (first.pc != LockLl ==> first.pc == TryLl && (InTry(th) || th.pc == Critical))
  }

  lemma {:induction false} CallKeepsToCode(run: seq<State>, j: nat, i: nat, t: nat)
    requires Run(run) && j < i < |run| && HasThread(run, t) && InCall(run, j, i, t)
    ensures KeepsToCode(run, j, i, t)
    decreases i
  {
    hide Run, Step, Next, InTry, InLock;
    if i > j + 1 {
      CallKeepsToCode(run, j, i - 1, t);
    }
    NextAt(run, i - 1);
    MoverSteps(run[i - 1], run[i], t);
    if run[i - 1].threads[t].pc != run[i].threads[t].pc {
      CodeStep(run[i - 1], run[i], t);
    }
    CodesDiffer(run[i].threads[t]);
  }

  lemma CodesDiffer(th: Thread)
    ensures th.pc == LockLl ==> InLock(th.pc)
    ensures th.pc == TryLl ==> InTry(th)
    ensures th.pc == Critical ==> !InLock(th.pc) && !InTry(th)
  {
  }

  /** lock returns only with the lock, by the one action of acquiring it with the value that its
      caller gave. */
  lemma LockReturnsHolding(run: seq<State>, j: nat, i: nat, t: nat)
    requires Run(run) && j < i < |run| - 1 && HasThread(run, t) && InCall(run, j, i, t)
    requires run[j + 1].threads[t].pc == LockLl && InLock(run[i].threads[t].pc) && !InLock(run[i + 1].threads[t].pc)
    ensures run[i + 1].threads[t].pc == Critical
    ensures Actions(run, j, i + 1, t) == [Acquire(t, run[j + 1].threads[t].lockval)]
  {
    hide Run, Step, Next, InTry, InLock, Actions;
    NextAt(run, i);
    MoverSteps(run[i], run[i + 1], t);
    CodeStep(run[i], run[i + 1], t);
    assert InCall(run, j, i + 1, t);
    CallKeepsToCode(run, j, i + 1, t);
    CallIsOneAction(run, j, i + 1, t);
  }

  /** trylock returns with the lock exactly when it returns zero; by then it has done the one
      action of acquiring it with the value that its caller gave, or else of finding the value
      that it returns. */
  lemma TrylockReturns(run: seq<State>, j: nat, i: nat, t: nat)
    requires Run(run) && j < i < |run| - 1 && HasThread(run, t) && InCall(run, j, i, t)
    requires run[j + 1].threads[t].pc != LockLl && InTry(run[i].threads[t]) && !InTry(run[i + 1].threads[t])
    ensures run[i].threads[t].pc == TryReturn
    ensures run[i + 1].threads[t].pc == if run[i].threads[t].tmp == 0 then Critical else Idle
    ensures Actions(run, j, i, t) ==
            if run[i].threads[t].tmp == 0 then [Acquire(t, run[j + 1].threads[t].lockval)]
            else [Busy(t, run[i].threads[t].tmp)]
  {
    hide Run, Step, Next, InLock, Actions;
    NextAt(run, i);
    MoverSteps(run[i], run[i + 1], t);
    CodeStep(run[i], run[i + 1], t);
    CallKeepsToCode(run, j, i, t);
    CallIsOneAction(run, j, i, t);
  }
}
