/** A machine that traps on unaligned accesses and runs the handlers, against a machine that
    does those accesses itself. */
module UnalignedSimulation {
  import opened Words
  import opened Mips
  import opened UnalignedHandler

  /** The behaviour of every instruction that is neither a branch nor one of the emulated
      loads and stores: any function at all, the same for both machines.  None: it traps. */
  type Rest = (U32, Core) -> Option<Core>

  /** Stopped: an exception nobody repairs; the state is what its handler finds. */
  datatype Outcome = Running(c: Core) | Stopped(c: Core)

  /** One instruction carried out: done, stopped by an exception, or an address error. */
  datatype Exec = Done(c: Core) | Fault | AddressError(store: bool)

  predicate Misaligned(w: U32, a: Access, c: Core) {
    a.size > 0 && EffectiveAddress(w, c.regs) % a.size != 0
  }

  /** The strict machine: any misaligned address is an address error. */
  function StrictExec(w: U32, c: Core, big: bool, rest: Rest): Exec {
    match DecodeAccess(w)
    case None => FromRest(rest(w, c))
    case Some(a) =>
      if Misaligned(w, a, c) then AddressError(a.store)
      else if a.emulated then FromRest(DoAccess(w, a, c, big))
      else FromRest(rest(w, c))
  }

  /** The native machine: the emulated accesses work at any alignment, the others do not. */
  function NativeExec(w: U32, c: Core, big: bool, rest: Rest): Exec {
    match DecodeAccess(w)
    case None => FromRest(rest(w, c))
    case Some(a) =>
      if a.emulated then FromRest(DoAccess(w, a, c, big))
      else if Misaligned(w, a, c) then Fault
      else FromRest(rest(w, c))
  }

  function FromRest(r: Option<Core>): Exec {
    match r
    case None => Fault
    case Some(c) => Done(c)
  }

  /** Control passing to the handler, whose frame holds f; bd: Cause.BD. */
  function Trap(f: Core, bd: bool, store: bool, big: bool): Outcome {
    match Emulate(f, bd, store, big)
    case None => Stopped(f)
    case Some(d) => Running(d)
  }

  /** The state in which the delay slot of b runs: the link is written by the branch. */
  function Linked(b: Branch, c: Core): Core
    requires WellFormed(b)
  {
    c.(regs := SetReg(c.regs, b.link, At(c.pc, 8)))
  }

  /** One step of either machine: an instruction, or a branch with its delay slot.  A branch
      in a delay slot is undefined by the architecture and stops both.  late: the frame of an
      exception in a delay slot does not have the link yet. */
  function Step(strict: bool, late: bool, c: Core, big: bool, rest: Rest): Outcome {
    if c.pc % 4 != 0 then (if strict then Trap(c, false, false, big) else Stopped(c))
    else
      match Fetch(c.mem, c.pc, big)
      case None => Stopped(c)
      case Some(w) =>
        match DecodeBranch(w)
        case None => Finish(strict, w, c, c, false, At(c.pc, 4), big, rest)
        case Some(b) => BranchStep(strict, late, b, c, big, rest)
  }

  /** The branch b at c.pc and its delay slot, which a likely branch not taken skips. */
  function BranchStep(strict: bool, late: bool, b: Branch, c: Core, big: bool, rest: Rest): Outcome
    requires WellFormed(b)
  {
    var f := Linked(b, c);
    var frame := if late then c else f;
    if b.likely && !Taken(b, c.regs, c.fcsr) then Running(f.(pc := At(c.pc, 8)))
    else
      match Fetch(c.mem, At(c.pc, 4), big)
      case None => Stopped(frame)
      case Some(slot) =>
        if DecodeBranch(slot).Some? then Stopped(frame)
        else Finish(strict, slot, f, frame, true, NextOfBranch(b, c), big, rest)
  }

  function NextOfBranch(b: Branch, c: Core): U64
    requires WellFormed(b)
  {
    if Taken(b, c.regs, c.fcsr) then TargetPc(b, c.regs, c.pc) else At(c.pc, 8)
  }

  /** The non-branch instruction w in state f, then on to next.  An exception finds frame; bd:
      frame.pc is the branch in whose delay slot w sits. */
  function Finish(strict: bool, w: U32, f: Core, frame: Core, bd: bool, next: U64, big: bool, rest: Rest): Outcome {
    match if strict then StrictExec(w, f, big, rest) else NativeExec(w, f, big, rest)
    case Done(d) => Running(d.(pc := next))
    case Fault => Stopped(frame)
    case AddressError(store) => Trap(frame, bd, store, big)
  }

  // ----- When the handlers get it right

  /** The architecture leaves a linking branch undefined when it reads the link register. */
  predicate Predictable(b: Branch) {
    b.link != 0 ==> b.rs != b.link
  }

  /** The handler's view of branch word w links: JALR does so whatever rd is. */
  predicate HandlerLinks(w: U32, b: Branch) {
    b.link != 0 || (Opcode(w) == 0 && Funct(w) == 0x09)
  }

  /** The emulation of access word slot, trapping with frame f in the delay slot of branch
      word w, loses a value of $31: the one slot loads, or the one a JALR through another
      register leaves alone. */
  predicate Clobbers(w: U32, b: Branch, slot: U32, f: Core, taken: bool, big: bool) {
    && HandlerLinks(w, b) && taken
    && match DecodeAccess(slot)
       case None => false
       case Some(a) =>
         && a.emulated && Misaligned(slot, a, f)
         && match ReadBytes(f.mem, EffectiveAddress(slot, f.regs), a.size)
            case None => false
            case Some(bs) =>
              if !a.store && Rt(slot) == 31
              then Extend(FromBytes(bs, big), a.size, a.signed) != At(f.pc, 8)
              else b.link != 31 && f.regs[31] != At(f.pc, 8)
  }

  /** With a frame that does not have the link yet: whether the registers differ from the
      native machine's once the access has loaded v into rt from the frame, and v' into rt
      there, and the handler has set $31 if the branch is taken and links.  A store is as a
      load into $0. */
  predicate RegistersDiffer(w: U32, b: Branch, c: Core, taken: bool, rt: nat, v: U64, v': U64)
    requires WellFormed(b)
  {
    var sets, link := taken && HandlerLinks(w, b), At(c.pc, 8);
    || (rt == 31 && (if sets then link else v) != v')
    || (rt != 0 && rt != 31 && v != v')
    || (rt != 31 && sets != (b.link == 31) && c.regs[31] != link)
    || (b.link != 0 && b.link != 31 && rt != b.link && c.regs[b.link] != link)
  }

  /** The byte at x once bs are stored from a upwards. */
  function ByteAfter(m: Memory, a: U64, bs: seq<Byte>, x: U64): Byte
    requires x in m
  {
    if Offset(a, x) < |bs| then bs[Offset(a, x)] else m[x]
  }

  /** Each of the bytes either store puts down is what the other leaves there. */
  predicate SameStores(m: Memory, a: U64, bs: seq<Byte>, a': U64, bs': seq<Byte>)
    requires ReadBytes(m, a, |bs|).Some? && ReadBytes(m, a', |bs'|).Some?
  {
    && (forall k :: 0 <= k < |bs| ==> ByteAfter(m, a', bs', At(a, k)) == bs[k])
    && (forall k :: 0 <= k < |bs'| ==> ByteAfter(m, a, bs, At(a', k)) == bs'[k])
  }

  /** With a late frame, the access that the handlers emulate from it leaves something else
      than the native one, whose registers have the link: only one of the two finds its bytes
      mapped, or the registers differ, or memory does. */
  predicate LateClobbers(w: U32, b: Branch, slot: U32, c: Core, taken: bool, big: bool)
    requires WellFormed(b)
  {
    && (b.likely ==> taken)
    && match DecodeAccess(slot)
       case None => false
       case Some(a) =>
         && a.emulated && Misaligned(slot, a, Linked(b, c))
         && AccessDiffers(w, b, slot, a, c, taken, big)
  }

  predicate AccessDiffers(w: U32, b: Branch, slot: U32, a: Access, c: Core, taken: bool, big: bool)
    requires WellFormed(b)
  {
    var f := Linked(b, c);
    var ea, ea' := EffectiveAddress(slot, c.regs), EffectiveAddress(slot, f.regs);
    match (ReadBytes(c.mem, ea, a.size), ReadBytes(c.mem, ea', a.size))
    case (None, None) => false
    case (Some(bs), Some(bs')) =>
      if a.store then
        || RegistersDiffer(w, b, c, taken, 0, 0, 0)
        || !SameStores(c.mem, ea, ToBytes(c.regs[Rt(slot)], a.size, big),
                       ea', ToBytes(f.regs[Rt(slot)], a.size, big))
      else RegistersDiffer(w, b, c, taken, Rt(slot), Extend(FromBytes(bs, big), a.size, a.signed),
                           Extend(FromBytes(bs', big), a.size, a.signed))
    case _ => true
  }

  /** The step from c is one whose outcome the architecture defines. */
  predicate StepPredictable(c: Core, big: bool) {
    match Fetch(c.mem, c.pc, big)
    case None => true
    case Some(w) => DecodeBranch(w).Some? ==> Predictable(DecodeBranch(w).value)
  }

  /** The step from c emulates an access in a way that loses a value of $31, or with late
      frames a link or its use. */
  predicate StepClobbers(late: bool, c: Core, big: bool) {
    && c.pc % 4 == 0
    && match (Fetch(c.mem, c.pc, big), Fetch(c.mem, At(c.pc, 4), big))
       case (Some(w), Some(slot)) =>
         (match DecodeBranch(w)
          case None => false
          case Some(b) =>
            var taken := Taken(b, c.regs, c.fcsr);
            if late then LateClobbers(w, b, slot, c, taken, big)
            else Clobbers(w, b, slot, Linked(b, c), taken, big))
       case _ => false
  }

  /** Reading the branch's register after the link is written gives what it read before. */
  lemma LinkKeepsBranch(w: U32, b: Branch, c: Core)
    requires DecodeBranch(w) == Some(b) && Predictable(b)
    ensures Taken(b, Linked(b, c).regs, c.fcsr) == Taken(b, c.regs, c.fcsr)
    ensures TargetPc(b, Linked(b, c).regs, c.pc) == TargetPc(b, c.regs, c.pc)
  {
    assert b.link != 0 ==> b.cond !in {Eq, Ne};
  }

  /** With the frame of a trap in the delay slot, whether it has the link yet or not, the
      handlers resume where the branch goes and set $31 exactly when it is taken and links. */
  lemma HandlerFollowsBranch(w: U32, b: Branch, c: Core)
    requires DecodeBranch(w) == Some(b) && Predictable(b)
    requires b.likely ==> Taken(b, c.regs, c.fcsr)
    ensures var next := Next(NextOfBranch(b, c), Taken(b, c.regs, c.fcsr) && HandlerLinks(w, b));
            BranchTo(w, Linked(b, c)) == BranchTo(w, c) == Some(next)
  {
    LenientDecodeAgrees(w);
    LinkKeepsBranch(w, b, c);
    assert b.cond.FpAny? ==> b.cond.cc + b.cond.count <= 8;
  }

  /** Outside a delay slot the handlers do exactly what the native access does. */
  lemma PlainExact(w: U32, c: Core, big: bool, rest: Rest)
    requires c.pc % 4 == 0 && Fetch(c.mem, c.pc, big) == Some(w)
    ensures Finish(true, w, c, c, false, At(c.pc, 4), big, rest)
         == Finish(false, w, c, c, false, At(c.pc, 4), big, rest)
  {
    match DecodeAccess(w)
    case None =>
    case Some(a) =>
      if Misaligned(w, a, c) {
        assert Emulate(c, false, a.store, big) == EmulateWord(w, c, Next(At(c.pc, 4), false), a.store, big);
      }
  }

  /** What the handlers leave of a trap in the delay slot of the branch at f.pc, given where
      they go on. */
  lemma TrapInSlot(w: U32, slot: U32, a: Access, f: Core, next: Next, big: bool)
    requires f.pc % 4 == 0 && Fetch(f.mem, f.pc, big) == Some(w) && BranchTo(w, f) == Some(next)
    requires Fetch(f.mem, At(f.pc, 4), big) == Some(slot)
    requires DecodeAccess(slot) == Some(a)
    ensures Trap(f, true, a.store, big) ==
            if !a.emulated || DoAccess(slot, a, f, big).None? then Stopped(f)
            else
              var d := DoAccess(slot, a, f, big).value;
              Running(d.(pc := next.pc, regs := if next.newRa then SetReg(d.regs, 31, At(f.pc, 8)) else d.regs))
  {
    assert NextPc(f, true, big) == BranchTo(w, f);
    assert Emulate(f, true, a.store, big) == EmulateWord(slot, f, next, a.store, big);
  }

  /** The registers after the access, with and without $31 set again. */
  lemma AccessExact(w: U32, b: Branch, slot: U32, a: Access, f: Core, taken: bool, big: bool)
    requires DecodeBranch(w) == Some(b)
    requires DecodeAccess(slot) == Some(a) && a.emulated && Misaligned(slot, a, f)
    requires b.link == 31 ==> f.regs[31] == At(f.pc, 8)
    requires DoAccess(slot, a, f, big).Some?
    ensures var d := DoAccess(slot, a, f, big).value;
            (taken && HandlerLinks(w, b) ==> SetReg(d.regs, 31, At(f.pc, 8)) == d.regs)
            <==> !Clobbers(w, b, slot, f, taken, big)
  {
    var d := DoAccess(slot, a, f, big).value;
    assert SetReg(d.regs, 31, At(f.pc, 8)) == d.regs <==> d.regs[31] == At(f.pc, 8);
  }

  /** In a delay slot they do what the native access does exactly when no value of $31 is
      lost. */
  lemma SlotExact(w: U32, b: Branch, slot: U32, c: Core, big: bool, rest: Rest)
    requires c.pc % 4 == 0 && Fetch(c.mem, c.pc, big) == Some(w)
    requires DecodeBranch(w) == Some(b) && Predictable(b)
    requires b.likely ==> Taken(b, c.regs, c.fcsr)
    requires Fetch(c.mem, At(c.pc, 4), big) == Some(slot)
    ensures var f := Linked(b, c);
            var next := NextOfBranch(b, c);
            Finish(true, slot, f, f, true, next, big, rest) == Finish(false, slot, f, f, true, next, big, rest)
            <==> !Clobbers(w, b, slot, f, Taken(b, c.regs, c.fcsr), big)
  {
    var f := Linked(b, c);
    match DecodeAccess(slot)
    case None =>
    case Some(a) =>
      if Misaligned(slot, a, f) {
        HandlerFollowsBranch(w, b, c);
        TrapInSlot(w, slot, a, f, BranchTo(w, f).value, big);
        if a.emulated && DoAccess(slot, a, f, big).Some? {
          AccessExact(w, b, slot, a, f, Taken(b, c.regs, c.fcsr), big);
        }
      }
  }

  /** The registers that the two loads leave are the same exactly when none differs. */
  lemma LateRegisters(w: U32, b: Branch, c: Core, taken: bool, rt: nat, v: U64, v': U64)
    requires DecodeBranch(w) == Some(b) && rt < 32
    ensures var loaded := SetReg(c.regs, rt, v);
            var left := if taken && HandlerLinks(w, b) then SetReg(loaded, 31, At(c.pc, 8)) else loaded;
            left == SetReg(Linked(b, c).regs, rt, v') <==> !RegistersDiffer(w, b, c, taken, rt, v, v')
  {
    var left, native := if taken && HandlerLinks(w, b) then SetReg(SetReg(c.regs, rt, v), 31, At(c.pc, 8))
                        else SetReg(c.regs, rt, v), SetReg(Linked(b, c).regs, rt, v');
    assert forall r :: 0 <= r < 32 && r != 31 && r != b.link && r != rt ==> left[r] == native[r];
    assert left[31] == native[31] && left[b.link] == native[b.link] && left[rt] == native[rt]
           <==> !RegistersDiffer(w, b, c, taken, rt, v, v');
    if !RegistersDiffer(w, b, c, taken, rt, v, v') {
      assert forall r :: 0 <= r < 32 ==> left[r] == native[r];
    }
  }

  /** Two stores leave the same memory exactly when they agree on the bytes they put down. */
  lemma StoresExact(m: Memory, a: U64, bs: seq<Byte>, a': U64, bs': seq<Byte>)
    requires ReadBytes(m, a, |bs|).Some? && ReadBytes(m, a', |bs'|).Some? && |bs| < W64 && |bs'| < W64
    ensures WriteBytes(m, a, bs) == WriteBytes(m, a', bs') <==> SameStores(m, a, bs, a', bs')
  {
    var n, n' := WriteBytes(m, a, bs), WriteBytes(m, a', bs');
    forall k | 0 <= k < |bs|
      ensures Offset(a, At(a, k)) == k && n[At(a, k)] == bs[k]
    {
      OffsetOfAt(a, k);
    }
    forall k | 0 <= k < |bs'|
      ensures Offset(a', At(a', k)) == k && n'[At(a', k)] == bs'[k]
    {
      OffsetOfAt(a', k);
    }
    if SameStores(m, a, bs, a', bs') {
      forall x: U64 | x in m
        ensures n[x] == n'[x]
      {
        AtOfOffset(a, x);
        AtOfOffset(a', x);
        assert Offset(a, x) < |bs| ==> ByteAfter(m, a', bs', At(a, Offset(a, x))) == bs[Offset(a, x)];
        assert Offset(a', x) < |bs'| ==> ByteAfter(m, a, bs, At(a', Offset(a', x))) == bs'[Offset(a', x)];
      }
    }
    if n == n' {
      forall k | 0 <= k < |bs|
        ensures ByteAfter(m, a', bs', At(a, k)) == bs[k]
      {
        assert n'[At(a, k)] == bs[k];
      }
      forall k | 0 <= k < |bs'|
        ensures ByteAfter(m, a, bs, At(a', k)) == bs'[k]
      {
        assert n[At(a', k)] == bs'[k];
      }
    }
  }

  lemma AtOfOffset(a: U64, x: U64)
    ensures At(a, Offset(a, x)) == x
  {
    assert Offset(a, x) == x - a || Offset(a, x) == x - a + W64;
  }

  /** With late frames, a delay slot comes out the same exactly when neither a register nor a
      byte differs. */
  lemma LateSlotExact(w: U32, b: Branch, slot: U32, c: Core, big: bool, rest: Rest)
    requires c.pc % 4 == 0 && Fetch(c.mem, c.pc, big) == Some(w)
    requires DecodeBranch(w) == Some(b) && Predictable(b)
    requires b.likely ==> Taken(b, c.regs, c.fcsr)
    requires Fetch(c.mem, At(c.pc, 4), big) == Some(slot)
    ensures var f := Linked(b, c);
            var next := NextOfBranch(b, c);
            Finish(true, slot, f, c, true, next, big, rest) == Finish(false, slot, f, c, true, next, big, rest)
            <==> !LateClobbers(w, b, slot, c, Taken(b, c.regs, c.fcsr), big)
  {
    hide SetReg, AccessDiffers, HandlerLinks, BranchTo, Taken, EffectiveAddress, Emulate, DoAccess;
    var f := Linked(b, c);
    match DecodeAccess(slot)
    case None =>
    case Some(a) =>
      if Misaligned(slot, a, f) {
        HandlerFollowsBranch(w, b, c);
        TrapInSlot(w, slot, a, c, BranchTo(w, c).value, big);
        if a.emulated {
          LateAccess(w, b, slot, a, c, big);
          AccessKeeps(slot, a, c, big);
          AccessKeeps(slot, a, f, big);
        }
      }
  }

  lemma AccessKeeps(slot: U32, a: Access, c: Core, big: bool)
    ensures DoAccess(slot, a, c, big).Some? ==> DoAccess(slot, a, c, big).value.fcsr == c.fcsr
  {
  }

  /** The access from the frame and from the native machine. */
  lemma LateAccess(w: U32, b: Branch, slot: U32, a: Access, c: Core, big: bool)
    requires DecodeBranch(w) == Some(b) && DecodeAccess(slot) == Some(a)
    ensures var taken := Taken(b, c.regs, c.fcsr);
            AccessDiffers(w, b, slot, a, c, taken, big) <==>
            match (DoAccess(slot, a, c, big), DoAccess(slot, a, Linked(b, c), big))
            case (Some(d), Some(e)) =>
              || d.mem != e.mem
              || (if taken && HandlerLinks(w, b) then SetReg(d.regs, 31, At(c.pc, 8)) else d.regs) != e.regs
            case (None, None) => false
            case _ => true
  {
    var f, taken := Linked(b, c), Taken(b, c.regs, c.fcsr);
    hide RegistersDiffer, SameStores, WriteBytes, FromBytes, ToBytes, Taken, EffectiveAddress, HandlerLinks;
    var ea, ea' := EffectiveAddress(slot, c.regs), EffectiveAddress(slot, f.regs);
    match (ReadBytes(c.mem, ea, a.size), ReadBytes(c.mem, ea', a.size))
    case (Some(bs), Some(bs')) =>
      if a.store {
        LateRegisters(w, b, c, taken, 0, 0, 0);
        StoresExact(c.mem, ea, ToBytes(c.regs[Rt(slot)], a.size, big), ea', ToBytes(f.regs[Rt(slot)], a.size, big));
      } else {
        LateRegisters(w, b, c, taken, Rt(slot), Extend(FromBytes(bs, big), a.size, a.signed),
                      Extend(FromBytes(bs', big), a.size, a.signed));
      }
    case _ =>
  }

  /** When the base register is not the link register, the stores are at one address, and
      differ exactly when the bytes stored do. */
  lemma StoresAtOneAddress(m: Memory, a: U64, bs: seq<Byte>, bs': seq<Byte>)
    requires |bs| == |bs'| < W64 && ReadBytes(m, a, |bs|).Some?
    ensures SameStores(m, a, bs, a, bs') <==> bs == bs'
  {
    forall k | 0 <= k < |bs|
      ensures ByteAfter(m, a, bs', At(a, k)) == bs'[k] && ByteAfter(m, a, bs, At(a, k)) == bs[k]
    {
      OffsetOfAt(a, k);
    }
  }

  /** One step of the two machines agrees exactly when $31 keeps its value, and with late
      frames the link is neither lost nor used. */
  lemma StepExact(late: bool, c: Core, big: bool, rest: Rest)
    requires StepPredictable(c, big)
    ensures Step(true, late, c, big, rest) == Step(false, late, c, big, rest) <==> !StepClobbers(late, c, big)
  {
    if c.pc % 4 == 0 {
      match Fetch(c.mem, c.pc, big)
      case None =>
      case Some(w) =>
        match DecodeBranch(w)
        case None =>
          PlainExact(w, c, big, rest);
        case Some(b) =>
          BranchStepExact(late, w, b, c, big, rest);
    }
  }

  lemma BranchStepExact(late: bool, w: U32, b: Branch, c: Core, big: bool, rest: Rest)
    requires c.pc % 4 == 0 && Fetch(c.mem, c.pc, big) == Some(w)
    requires DecodeBranch(w) == Some(b) && Predictable(b)
    ensures BranchStep(true, late, b, c, big, rest) == BranchStep(false, late, b, c, big, rest)
            <==> !StepClobbers(late, c, big)
  {
    match Fetch(c.mem, At(c.pc, 4), big)
    case None =>
    case Some(slot) =>
      var taken := Taken(b, c.regs, c.fcsr);
      assert StepClobbers(late, c, big) ==
             if late then LateClobbers(w, b, slot, c, taken, big) else Clobbers(w, b, slot, Linked(b, c), taken, big);
      if DecodeBranch(slot).Some? {
        BranchesAreNotAccesses(slot);
      } else if !(b.likely && !taken) {
        if late {
          LateSlotExact(w, b, slot, c, big, rest);
        } else {
          SlotExact(w, b, slot, c, big, rest);
        }
      }
  }

  lemma BranchesAreNotAccesses(w: U32)
    ensures DecodeBranch(w).Some? ==> DecodeAccess(w).None?
  {
  }

  // ----- Whole runs

  function Run(strict: bool, late: bool, n: nat, c: Core, big: bool, rest: Rest): Outcome {
    if n == 0 then Running(c)
    else
      match Run(strict, late, n - 1, c, big, rest)
      case Stopped(d) => Stopped(d)
      case Running(d) => Step(strict, late, d, big, rest)
  }

  /** Conditions on the native step i, which hold of a machine that has stopped. */
  predicate PredictableAt(late: bool, i: nat, c: Core, big: bool, rest: Rest) {
    match Run(false, late, i, c, big, rest)
    case Stopped(_) => true
    case Running(d) => StepPredictable(d, big)
  }

  predicate ClobbersAt(late: bool, i: nat, c: Core, big: bool, rest: Rest) {
    match Run(false, late, i, c, big, rest)
    case Stopped(_) => false
    case Running(d) => StepClobbers(late, d, big)
  }

  predicate AgreeAt(late: bool, i: nat, c: Core, big: bool, rest: Rest) {
    Run(true, late, i, c, big, rest) == Run(false, late, i, c, big, rest)
  }

  lemma AgreeNext(late: bool, i: nat, c: Core, big: bool, rest: Rest)
    requires PredictableAt(late, i, c, big, rest) && AgreeAt(late, i, c, big, rest)
    ensures AgreeAt(late, i + 1, c, big, rest) <==> !ClobbersAt(late, i, c, big, rest)
  {
    match Run(false, late, i, c, big, rest)
    case Stopped(d) =>
    case Running(d) => StepExact(late, d, big, rest);
  }

  /** The two machines are in the same state after each of 0 to n steps. */
  predicate Lockstep(late: bool, n: nat, c: Core, big: bool, rest: Rest) {
    AgreeAt(late, n, c, big, rest) && (n > 0 ==> Lockstep(late, n - 1, c, big, rest))
  }

  /** None of the first n native steps loses a value of $31, or a link, when emulated. */
  predicate ClobberFree(late: bool, n: nat, c: Core, big: bool, rest: Rest) {
    n > 0 ==> !ClobbersAt(late, n - 1, c, big, rest) && ClobberFree(late, n - 1, c, big, rest)
  }

  predicate AllPredictable(late: bool, n: nat, c: Core, big: bool, rest: Rest) {
    n > 0 ==> PredictableAt(late, n - 1, c, big, rest) && AllPredictable(late, n - 1, c, big, rest)
  }

  /** The two machines stay in lockstep for n steps exactly when none of the first n native
      states has its step emulated at the price of $31, or with late frames of a link. */
  lemma {:induction false} RunExact(late: bool, n: nat, c: Core, big: bool, rest: Rest)
    requires AllPredictable(late, n, c, big, rest)
    ensures Lockstep(late, n, c, big, rest) <==> ClobberFree(late, n, c, big, rest)
  {
    if n > 0 {
      RunExact(late, n - 1, c, big, rest);
      if Lockstep(late, n - 1, c, big, rest) {
        AgreeNext(late, n - 1, c, big, rest);
      }
    }
  }

  /** What a compiler or assembler can check of a branch word and the word after it: JALR
      links through $31, no linking branch reads its link register, and no load into $31
      sits in the delay slot of a linking branch. */
  predicate SafePair(w: U32, slot: U32) {
    match DecodeBranch(w)
    case None => true
    case Some(b) =>
      && Predictable(b)
      && (HandlerLinks(w, b) ==>
            && b.link == 31
            && (DecodeAccess(slot).Some? && !DecodeAccess(slot).value.store ==> Rt(slot) != 31))
  }

  /** What late frames ask for besides: an unaligned access under a linking branch does not
      name $31, and the branch is taken. */
  predicate LateSafe(w: U32, slot: U32, c: Core) {
    match (DecodeBranch(w), DecodeAccess(slot))
    case (Some(b), Some(a)) =>
      HandlerLinks(w, b) && a.emulated && Misaligned(slot, a, Linked(b, c)) ==>
        Rs(slot) != 31 && Rt(slot) != 31 && Taken(b, c.regs, c.fcsr)
    case _ => true
  }

  predicate SafeAt(late: bool, c: Core, big: bool) {
    match Fetch(c.mem, c.pc, big)
    case None => true
    case Some(w) =>
      match Fetch(c.mem, At(c.pc, 4), big)
      case None => DecodeBranch(w).Some? ==> Predictable(DecodeBranch(w).value)
      case Some(slot) => SafePair(w, slot) && (late ==> LateSafe(w, slot, c))
  }

  predicate SafeAfter(late: bool, i: nat, c: Core, big: bool, rest: Rest) {
    match Run(false, late, i, c, big, rest)
    case Stopped(_) => true
    case Running(d) => SafeAt(late, d, big)
  }

  lemma SafeAtSuffices(late: bool, c: Core, big: bool)
    requires SafeAt(late, c, big)
    ensures StepPredictable(c, big) && !StepClobbers(late, c, big)
  {
    if late {
      match (Fetch(c.mem, c.pc, big), Fetch(c.mem, At(c.pc, 4), big))
      case (Some(w), Some(slot)) =>
        if DecodeBranch(w).Some? && DecodeAccess(slot).Some? {
          LateSafeSuffices(w, DecodeBranch(w).value, slot, DecodeAccess(slot).value, c, big);
        }
      case _ =>
    }
  }

  lemma LateSafeSuffices(w: U32, b: Branch, slot: U32, a: Access, c: Core, big: bool)
    requires DecodeBranch(w) == Some(b) && DecodeAccess(slot) == Some(a)
    requires SafePair(w, slot) && LateSafe(w, slot, c)
    ensures !LateClobbers(w, b, slot, c, Taken(b, c.regs, c.fcsr), big)
  {
    hide WriteBytes, FromBytes, ToBytes, Taken;
    var f, ea := Linked(b, c), EffectiveAddress(slot, c.regs);
    if a.emulated && Misaligned(slot, a, f) {
      assert EffectiveAddress(slot, f.regs) == ea && f.regs[Rt(slot)] == c.regs[Rt(slot)];
      var bs := ToBytes(c.regs[Rt(slot)], a.size, big);
      if ReadBytes(c.mem, ea, a.size).Some? {
        StoresAtOneAddress(c.mem, ea, bs, bs);
      }
    }
  }

  lemma SafeAfterSuffices(late: bool, i: nat, c: Core, big: bool, rest: Rest)
    requires SafeAfter(late, i, c, big, rest)
    ensures PredictableAt(late, i, c, big, rest) && !ClobbersAt(late, i, c, big, rest)
  {
    match Run(false, late, i, c, big, rest)
    case Stopped(_) =>
    case Running(d) => SafeAtSuffices(late, d, big);
  }

  lemma {:induction false} SafeRun(late: bool, n: nat, c: Core, big: bool, rest: Rest)
    requires forall i: nat :: i < n ==> SafeAfter(late, i, c, big, rest)
    ensures AllPredictable(late, n, c, big, rest) && ClobberFree(late, n, c, big, rest)
  {
    hide PredictableAt, ClobbersAt, SafeAfter;
    if n > 0 {
      SafeRun(late, n - 1, c, big, rest);
      assert SafeAfter(late, n - 1, c, big, rest);
      SafeAfterSuffices(late, n - 1, c, big, rest);
    }
  }

  /** Whole-run simulation: as long as the code reached consists of safe pairs, the machine
      that traps and runs the handlers is, state for state, the native machine: the same
      registers, memory and PC after any number of steps, and the same stopping state. */
  lemma RunSimulation(late: bool, n: nat, c: Core, big: bool, rest: Rest)
    requires forall i: nat :: i < n ==> SafeAfter(late, i, c, big, rest)
    ensures Run(true, late, n, c, big, rest) == Run(false, late, n, c, big, rest)
  {
    SafeRun(late, n, c, big, rest);
    RunExact(late, n, c, big, rest);
  }

  // ----- A store read back

  /** An emulated store and then an emulated load of the same width from the same address:
      the load leaves the stored register cut to that width and extended again, in either
      byte order, and memory outside the bytes accessed is as it was. */
  lemma StoreThenLoad(c: Core, ws: U32, wl: U32, big: bool)
    requires Fetch(c.mem, c.pc, big) == Some(ws)
    requires DecodeAccess(ws).Some? && DecodeAccess(wl).Some?
    requires DecodeAccess(ws).value.size == DecodeAccess(wl).value.size
    requires DecodeAccess(wl).value.emulated && !DecodeAccess(wl).value.store
    requires EffectiveAddress(ws, c.regs) == EffectiveAddress(wl, c.regs)
    requires Emulate(c, false, true, big).Some?
    requires At(c.pc, 4) % 4 == 0
    requires Fetch(Emulate(c, false, true, big).value.mem, At(c.pc, 4), big) == Some(wl)
    ensures var d := Emulate(c, false, true, big).value;
            var a := DecodeAccess(wl).value;
            && d.regs == c.regs
            && Emulate(d, false, false, big) ==
               Some(d.(pc := At(d.pc, 4),
                       regs := SetReg(c.regs, Rt(wl), Extend(c.regs[Rt(ws)] % Range(a.size), a.size, a.signed))))
            && d.mem.Keys == c.mem.Keys
            && forall x: U64 :: x in c.mem && Offset(EffectiveAddress(ws, c.regs), x) >= a.size ==> d.mem[x] == c.mem[x]
  {
    hide ToBytes, FromBytes, WriteBytes, Range, BranchTo;
    var a := DecodeAccess(ws).value;
    var ea := EffectiveAddress(ws, c.regs);
    var bs := ToBytes(c.regs[Rt(ws)], a.size, big);
    assert Emulate(c, false, true, big) == EmulateWord(ws, c, Next(At(c.pc, 4), false), true, big);
    var d := Emulate(c, false, true, big).value;
    ReadAfterWrite(c.mem, ea, bs);
    assert d.mem == WriteBytes(c.mem, ea, bs);
    BytesRoundTrip(c.regs[Rt(ws)], a.size, big);
    assert Emulate(d, false, false, big) == EmulateWord(wl, d, Next(At(d.pc, 4), false), false, big);
  }

  // ----- Inputs on which the handlers differ from the native machine

  /** jalr $5, $4 followed by lh $2, 1($3), big-endian at address 0, with data at 0x1001. */
  const JALR_R5: Memory := map[
    0 := 0x00, 1 := 0x80, 2 := 0x28, 3 := 0x09,
    4 := 0x84, 5 := 0x62, 6 := 0x00, 7 := 0x01,
    0x1001 := 0x12, 0x1002 := 0x34]

  const BASE_IN_R3: Regs := ZEROS[3 := 0x1000]

  lemma WordAt(m: Memory, a: U64, b0: Byte, b1: Byte, b2: Byte, b3: Byte)
    requires a < W64 - 4
    requires a in m && a + 1 in m && a + 2 in m && a + 3 in m
    requires [m[a], m[a + 1], m[a + 2], m[a + 3]] == [b0, b1, b2, b3]
    ensures Fetch(m, a, true) == Some(0x100_0000 * b0 + 0x1_0000 * b1 + 0x100 * b2 + b3)
  {
    assert At(a, 0) == a && At(a, 1) == a + 1 && At(a, 2) == a + 2 && At(a, 3) == a + 3;
    var bs := ReadBytes(m, a, 4).value;
    assert bs[..3][..2][..1] == [b0];
    assert bs[..3][..2] == [b0, b1];
    assert bs[..3] == [b0, b1, b2];
    assert FromBytes([b0], true) == b0;
    assert FromBytes([b0, b1], true) == 0x100 * b0 + b1;
    assert FromBytes([b0, b1, b2], true) == 0x1_0000 * b0 + 0x100 * b1 + b2;
    assert FromBytes(bs, true) == 0x100_0000 * b0 + 0x1_0000 * b1 + 0x100 * b2 + b3;
  }

  /** JALR through $5 with an unaligned load in its delay slot: the handler sets $31, which
      the native machine leaves alone. */
  lemma JalrThroughR5Differs(rest: Rest)
    ensures var c := Core(BASE_IN_R3, 0, 0, JALR_R5);
            && StepPredictable(c, true)
            && Step(true, false, c, true, rest) != Step(false, false, c, true, rest)
  {
    var c := Core(BASE_IN_R3, 0, 0, JALR_R5);
    WordAt(JALR_R5, 0, 0x00, 0x80, 0x28, 0x09);
    WordAt(JALR_R5, 4, 0x84, 0x62, 0x00, 0x01);
    var b := Branch(Always, ToReg, 4, 0, 5, false);
    assert DecodeBranch(0x0080_2809) == Some(b);
    UnalignedHalf(Linked(b, c));
    assert StepClobbers(false, c, true);
    StepExact(false, c, true, rest);
  }

  lemma UnalignedHalf(f: Core)
    requires f.regs[3] == 0x1000 && 0x1001 in f.mem && 0x1002 in f.mem
    ensures DecodeAccess(0x8462_0001) == Some(Access(2, false, true, true))
    ensures EffectiveAddress(0x8462_0001, f.regs) == 0x1001 && ReadBytes(f.mem, 0x1001, 2).Some?
  {
    assert At(0x1001, 0) == 0x1001 && At(0x1001, 1) == 0x1002;
  }

  /** bltzal $4, 0 and the same load: the branch is not taken but links. */
  const BLTZAL: Memory := map[
    0 := 0x04, 1 := 0x90, 2 := 0x00, 3 := 0x00,
    4 := 0x84, 5 := 0x62, 6 := 0x00, 7 := 0x01,
    0x1001 := 0x12, 0x1002 := 0x34]

  /** When the frame does not have the link yet, a linking branch that is not taken loses it. */
  lemma BltzalNotTakenLosesLink(rest: Rest)
    ensures var c := Core(BASE_IN_R3, 0, 0, BLTZAL);
            && StepPredictable(c, true)
            && Step(true, true, c, true, rest) != Step(false, true, c, true, rest)
  {
    var c := Core(BASE_IN_R3, 0, 0, BLTZAL);
    var w, slot, b := 0x0490_0000, 0x8462_0001, Branch(LtZ, Relative(0), 4, 0, 31, false);
    BltzalFetches();
    UnalignedHalf(c);
    UnalignedHalf(Linked(b, c));
    assert !Taken(b, c.regs, c.fcsr) && At(c.pc, 8) == 8;
    hide Fetch, DecodeBranch, DecodeAccess, EffectiveAddress, Step, FromBytes, Extend, Taken;
    assert LateClobbers(w, b, slot, c, false, true);
    StepExact(true, c, true, rest);
  }

  lemma BltzalFetches()
    ensures Fetch(BLTZAL, 0, true) == Some(0x0490_0000) && Fetch(BLTZAL, At(0, 4), true) == Some(0x8462_0001)
    ensures DecodeBranch(0x0490_0000) == Some(Branch(LtZ, Relative(0), 4, 0, 31, false))
  {
    WordAt(BLTZAL, 0, 0x04, 0x90, 0x00, 0x00);
    WordAt(BLTZAL, 4, 0x84, 0x62, 0x00, 0x01);
  }

  /** jal 0 followed by sh $31, 1($3). */
  const JAL_STORE: Memory := map[
    0 := 0x0c, 1 := 0x00, 2 := 0x00, 3 := 0x00,
    4 := 0xa4, 5 := 0x7f, 6 := 0x00, 7 := 0x01,
    0x1001 := 0x12, 0x1002 := 0x34]

  /** And then an access that names $31 uses its old value: the store writes 0, not 8. */
  lemma JalStoreOfLinkDiffers(rest: Rest)
    ensures var c := Core(BASE_IN_R3, 0, 0, JAL_STORE);
            && StepPredictable(c, true)
            && Step(true, true, c, true, rest) != Step(false, true, c, true, rest)
  {
    var c := Core(BASE_IN_R3, 0, 0, JAL_STORE);
    var w, slot := 0x0c00_0000, 0xa47f_0001;
    JalFetches();
    JalDecodes();
    hide Step, DoAccess, WriteBytes, EffectiveAddress, ToBytes, Fetch, DecodeBranch, DecodeAccess;
    var b := Branch(Always, InRegion(0), 0, 0, 31, false);
    var a := Access(2, true, false, true);
    HalfStore(slot, a, c, 0);
    HalfStore(slot, a, Linked(b, c), 8);
    JalSteps(w, slot, b, a, c, rest);
    StoredBytes(c.mem);
  }

  lemma JalFetches()
    ensures Fetch(JAL_STORE, 0, true) == Some(0x0c00_0000) && Fetch(JAL_STORE, At(0, 4), true) == Some(0xa47f_0001)
  {
    WordAt(JAL_STORE, 0, 0x0c, 0x00, 0x00, 0x00);
    WordAt(JAL_STORE, 4, 0xa4, 0x7f, 0x00, 0x01);
  }

  lemma JalDecodes()
    ensures DecodeBranch(0x0c00_0000) == Some(Branch(Always, InRegion(0), 0, 0, 31, false))
    ensures DecodeAccess(0xa47f_0001) == Some(Access(2, true, false, true)) && DecodeBranch(0xa47f_0001) == None
  {
  }

  /** Either machine's step over a jump and a misaligned store in its slot. */
  lemma JalSteps(w: U32, slot: U32, b: Branch, a: Access, c: Core, rest: Rest)
    requires c.pc % 4 == 0 && Fetch(c.mem, c.pc, true) == Some(w) && Fetch(c.mem, At(c.pc, 4), true) == Some(slot)
    requires DecodeBranch(w) == Some(b) && Predictable(b) && !b.likely && DecodeBranch(slot) == None
    requires DecodeAccess(slot) == Some(a) && a.store && a.emulated
    requires Misaligned(slot, a, c) && Misaligned(slot, a, Linked(b, c))
    requires DoAccess(slot, a, c, true).Some? && DoAccess(slot, a, Linked(b, c), true).Some?
    ensures Step(true, true, c, true, rest).Running? && Step(false, true, c, true, rest).Running?
    ensures Step(true, true, c, true, rest).c.mem == DoAccess(slot, a, c, true).value.mem
    ensures Step(false, true, c, true, rest).c.mem == DoAccess(slot, a, Linked(b, c), true).value.mem
  {
    hide DoAccess, EffectiveAddress, Emulate, BranchTo, Taken;
    HandlerFollowsBranch(w, b, c);
    TrapInSlot(w, slot, a, c, BranchTo(w, c).value, true);
  }

  lemma HalfStore(slot: U32, a: Access, c: Core, v: U64)
    requires slot == 0xa47f_0001 && a == Access(2, true, false, true)
    requires c.regs[3] == 0x1000 && c.regs[31] == v && 0x1001 in c.mem && 0x1002 in c.mem
    ensures EffectiveAddress(slot, c.regs) == 0x1001
    ensures DoAccess(slot, a, c, true) == Some(c.(mem := WriteBytes(c.mem, 0x1001, ToBytes(v, 2, true))))
  {
    StoreFields();
    assert EffectiveAddress(slot, c.regs) == 0x1001;
    hide WriteBytes, ToBytes, EffectiveAddress, Rs, Rt;
    NextByte();
  }

  lemma StoreFields()
    ensures Rs(0xa47f_0001) == 3 && Rt(0xa47f_0001) == 31 && Imm(0xa47f_0001) == 1
  {
  }

  lemma NextByte()
    ensures At(0x1001, 0) == 0x1001 && At(0x1001, 1) == 0x1002
  {
  }

  lemma StoredBytes(m: Memory)
    requires 0x1002 in m
    ensures WriteBytes(m, 0x1001, ToBytes(0, 2, true))[0x1002] == 0
    ensures WriteBytes(m, 0x1001, ToBytes(8, 2, true))[0x1002] == 8
  {
    LowByte(0);
    LowByte(8);
    assert Offset(0x1001, 0x1002) == 1;
  }

  lemma LowByte(v: nat)
    requires v < 0x100
    ensures ToBytes(v, 2, true)[1] == v
  {
    assert |ToBytes(v / 256, 1, true)| == 1;
  }
}
