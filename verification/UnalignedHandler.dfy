/** The unaligned load and store handlers, over a trap frame and memory that they update in
    place, each tied to a function of the frame and memory they started from. */
module UnalignedHandler {
  import opened Words
  import opened Mips
  import BitFields

  /** The registers saved at an exception.  Slot 0 is not $0: it holds the saved PC. */
  class TrapFrame {
    const regs: array<U64>
    const cause: bv32
    const fcsr: bv32

    constructor (regs: array<U64>, cause: bv32, fcsr: bv32)
      requires regs.Length == 32
      ensures Valid() && this.regs == regs && this.cause == cause && this.fcsr == fcsr
    {
      this.regs, this.cause, this.fcsr := regs, cause, fcsr;
    }

    ghost predicate Valid() { regs.Length == 32 }

    function Pc(): U64
      requires Valid()
      reads regs
    {
      regs[0]
    }

    /** A register of the file the frame stands for: $0 reads as zero although its slot holds
        the PC. */
    function GetReg(r: nat): (v: U64)
      requires Valid() && r < 32
      reads regs
      ensures v == ([0] + regs[1..])[r]
    {
      if r == 0 then 0 else regs[r]
    }

    /** A write to $0 is dropped, so it cannot reach the saved PC either. */
    method SetReg(r: nat, v: U64)
      requires Valid() && r < 32
      modifies regs
      ensures regs[..] == if r == 0 then old(regs[..]) else old(regs[..])[r := v]
    {
      if r != 0 {
        regs[r] := v;
      }
    }

    method SetPc(v: U64)
      requires Valid()
      modifies regs
      ensures regs[..] == old(regs[..])[0 := v]
    {
      regs[0] := v;
    }

    predicate InDelaySlot() { cause & 0x8000_0000 != 0 }
  }

  /** Cause.BD is the highest bit. */
  lemma DelaySlotBit(ef: TrapFrame)
    ensures ef.InDelaySlot() <==> ef.cause >> 31 == 1
  {
  }

  /** Memory as COPYIN and COPYOUT see it.  big: most significant byte first. */
  class Ram {
    var bytes: Memory
    const big: bool

    constructor (bytes: Memory, big: bool)
      ensures this.bytes == bytes && this.big == big
    {
      this.bytes, this.big := bytes, big;
    }

    method CopyOut(a: U64, bs: seq<Byte>) returns (failed: bool)
      modifies this
      ensures failed == ReadBytes(old(bytes), a, |bs|).None?
      ensures bytes == if failed then old(bytes) else WriteBytes(old(bytes), a, bs)
    {
      failed := ReadBytes(bytes, a, |bs|).None?;
      if !failed {
        bytes := WriteBytes(bytes, a, bs);
      }
    }
  }

  /** The machine state a frame and memory stand for. */
  ghost function View(ef: TrapFrame, ram: Ram): Core
    requires ef.Valid()
    reads ef.regs, ram
  {
    Core([0] + ef.regs[1..], ef.regs[0], ef.fcsr, ram.bytes)
  }

  // ----- The condition-code test

  /** The eight condition codes gathered into bits 0 to 7. */
  function CondCodes(f: bv32): bv32 { ((f >> 23) & 0x1) | ((f >> 24) & 0xfe) }

  function ShiftLeft(m: bv32, k: nat): bv32
    requires k < 8
  {
    match k
    case 0 => m
    case 1 => m << 1
    case 2 => m << 2
    case 3 => m << 3
    case 4 => m << 4
    case 5 => m << 5
    case 6 => m << 6
    case 7 => m << 7
  }

  /** The low bits of a BC1, BC1ANY2 or BC1ANY4 mask: one, two or four of them. */
  function CondMask(count: nat): bv32
    requires count in {1, 2, 4}
  {
    if count == 1 then 0x1 else if count == 2 then 0x3 else 0xf
  }

  /** Whether a code selected by the unshifted mask, moved up to cc, has the value tf. */
  predicate MaskTest(codes: bv32, mask: bv32, cc: nat, tf: bool)
    requires cc < 8
  {
    (if tf then codes else !codes) & ShiftLeft(mask, cc) != 0
  }

  predicate CondTest(f: bv32, cc: nat, count: nat, tf: bool)
    requires cc < 8 && count in {1, 2, 4}
  {
    MaskTest(CondCodes(f), CondMask(count), cc, tf)
  }

  /** Bit cc+j of the shifted mask, for j below count; beyond bit 7 a complemented code is
      always set and a plain one never is. */
  predicate BitTest(f: bv32, k: nat, tf: bool) {
    if k < 8 then Fcc(f, k) == tf else !tf
  }

  lemma CondTestBits(f: bv32, cc: nat, count: nat, tf: bool)
    requires cc < 8 && count in {1, 2, 4}
    ensures CondTest(f, cc, count, tf) <==>
              || BitTest(f, cc, tf)
              || (count >= 2 && BitTest(f, cc + 1, tf))
              || (count == 4 && (BitTest(f, cc + 2, tf) || BitTest(f, cc + 3, tf)))
  {
  }

  /** The handler's mask test agrees with the architecture's "some selected condition code
      equals TF" for every FCSR, except that a mask reaching past code 7 makes a branch on
      false unconditional. */
  lemma CondTestMeaning(f: bv32, cc: nat, count: nat, tf: bool)
    requires cc < 8 && count in {1, 2, 4}
    ensures CondTest(f, cc, count, tf) <==> AnyFcc(f, cc, count, tf) || (!tf && cc + count > 8)
  {
    CondTestBits(f, cc, count, tf);
    if BitTest(f, cc, tf) {
      assert Fcc(f, cc) == tf;
    } else if count >= 2 && BitTest(f, cc + 1, tf) {
      assert cc + 1 < 8 ==> Fcc(f, cc + 1) == tf;
    } else if count == 4 && BitTest(f, cc + 2, tf) {
      assert cc + 2 < 8 ==> Fcc(f, cc + 2) == tf;
    } else if count == 4 && BitTest(f, cc + 3, tf) {
      assert cc + 3 < 8 ==> Fcc(f, cc + 3) == tf;
    }
  }

  /** BC1ANY2F on codes 7 and 8, with code 7 set: the handler takes it as a branch that is
      taken, though no code it selects is false. */
  lemma Bc1any2PastCode7()
    ensures var w, f := 0x453c_0000, 0x8000_0000;
            && DecodeBranch(w) == None
            && LenientDecode(w) == Some(Branch(FpAny(7, 2, false), Relative(0), 0, 0, 0, false))
            && CondTest(f, 7, 2, false) && !AnyFcc(f, 7, 2, false)
  {
    CondTestMeaning(0x8000_0000, 7, 2, false);
    assert Fcc(0x8000_0000, 7);
  }

  // ----- Which branches the handlers accept, and what they make of them

  /** The branch the handlers take w for.  It differs from the architecture in three ways:
      JALR always links through $31, BLEZ and BGTZ ignore rt, and the condition-code number
      of BC1ANY2 and BC1ANY4 may have any alignment. */
  function LenientDecode(w: U32): (b: Option<Branch>)
    ensures b.Some? ==> WellFormed(b.value)
    ensures b.Some? && b.value.cond.FpAny? ==> b.value.cond.cc < 8 && b.value.cond.count in {1, 2, 4}
  {
    var op, rs, rt := Opcode(w), Rs(w), Rt(w);
    var rel := Relative(Imm(w));
    if op == 0x00 && Funct(w) == 0x09 then Some(Branch(Always, ToReg, rs, 0, 31, false))
    else if op == 0x06 || op == 0x16 then Some(Branch(LeZ, rel, rs, 0, 0, op == 0x16))
    else if op == 0x07 || op == 0x17 then Some(Branch(GtZ, rel, rs, 0, 0, op == 0x17))
    else if op == 0x11 then
      var cc, likely, tf := rt / 4, (rt / 2) % 2 == 1, rt % 2 == 1;
      if rs !in {0x8, 0x9, 0xa} || (likely && rs != 0x8) then None
      else Some(Branch(FpAny(cc, if rs == 0x8 then 1 else if rs == 0x9 then 2 else 4, tf),
                       rel, 0, 0, 0, likely))
    else DecodeBranch(w)
  }

  /** Everything the architecture decodes as a branch is accepted, as the same branch up to
      the link register of JALR; anything else accepted has a stray rt or condition code. */
  lemma LenientDecodeAgrees(w: U32)
    ensures DecodeBranch(w).Some? ==>
              LenientDecode(w) ==
              Some(if Opcode(w) == 0 && Funct(w) == 0x09 then DecodeBranch(w).value.(link := 31)
                   else DecodeBranch(w).value)
    ensures DecodeBranch(w).None? && LenientDecode(w).Some? <==>
              || (Opcode(w) in {0x06, 0x07, 0x16, 0x17} && Rt(w) != 0)
              || (Opcode(w) == 0x11 && Rs(w) == 0x9 && (Rt(w) / 2) % 2 == 0 && (Rt(w) / 4) % 2 != 0)
              || (Opcode(w) == 0x11 && Rs(w) == 0xa && (Rt(w) / 2) % 2 == 0 && (Rt(w) / 4) % 4 != 0)
  {
  }

  predicate LenientTaken(b: Branch, regs: Regs, fcsr: bv32)
    requires WellFormed(b)
  {
    || b.likely
    || Taken(b, regs, fcsr)
    || (b.cond.FpAny? && !b.cond.tf && b.cond.cc + b.cond.count > 8)
  }

  datatype Next = Next(pc: U64, newRa: bool)

  /** Where the branch w at c.pc leads after its delay slot, and whether it makes the
      handlers set $31. */
  function BranchTo(w: U32, c: Core): Option<Next> {
    match LenientDecode(w)
    case None => None
    case Some(b) =>
      if LenientTaken(b, c.regs, c.fcsr)
      then Some(Next(TargetPc(b, c.regs, c.pc), b.link != 0))
      else Some(Next(At(c.pc, 8), false))
  }

  /** The PC to resume at and whether $31 must be set, for an instruction at c.pc, or in the
      delay slot of the branch at c.pc.  None: the handlers give up. */
  function NextPc(c: Core, bd: bool, big: bool): Option<Next> {
    if !bd then Some(Next(At(c.pc, 4), false))
    else
      match Fetch(c.mem, c.pc, big)
      case None => None
      case Some(w) => BranchTo(w, c)
  }

  method FetchWord(ram: Ram, a: U64) returns (failed: bool, insn: U32)
    ensures failed == Fetch(ram.bytes, a, ram.big).None?
    ensures !failed ==> Fetch(ram.bytes, a, ram.big) == Some(insn)
  {
    match ReadBytes(ram.bytes, a, 4)
    case None => failed, insn := true, 0;
    case Some(bs) =>
      RangeValues();
      failed, insn := false, FromBytes(bs, ram.big);
  }

  lemma RangeValues()
    ensures Range(2) == W16 && Range(4) == W32 && Range(8) == W64
  {
    assert Range(1) == 0x100;
    assert Range(3) == 0x100_0000;
    assert Range(5) == 0x100_0000_0000;
    assert Range(6) == 0x1_0000_0000_0000;
    assert Range(7) == 0x100_0000_0000_0000;
  }

  /** The REGIMM arm of the branch switch. */
  method RegimmCondition(ef: TrapFrame, ghost c: Core, insn: U32)
    returns (failed: bool, condition: bool, link: bool)
    requires ef.Valid() && Opcode(insn) == 0x01
    requires forall r: nat :: r < 32 ==> c.regs[r] == ef.GetReg(r)
    ensures failed == LenientDecode(insn).None?
    ensures !failed ==>
              var b := LenientDecode(insn).value;
              && b.target == Relative(Imm(insn)) && link == (b.link != 0)
              && condition == LenientTaken(b, c.regs, c.fcsr)
  {
    failed, condition, link := false, true, false;
    var rs := ef.GetReg(Rs(insn));
    match Rt(insn) {
      case 0x00 => condition := Signed(rs, W64) < 0;
      case 0x01 => condition := Signed(rs, W64) >= 0;
      case 0x02 =>
      case 0x03 =>
      case 0x10 => condition, link := Signed(rs, W64) < 0, true;
      case 0x11 => condition, link := Signed(rs, W64) >= 0, true;
      case 0x12 => link := true;
      case 0x13 => link := true;
      case _ => failed := true;
    }
  }

  /** The comparing branches BEQ, BNE, BLEZ and BGTZ. */
  method CompareCondition(ef: TrapFrame, ghost c: Core, insn: U32) returns (condition: bool)
    requires ef.Valid() && 0x04 <= Opcode(insn) <= 0x07
    requires forall r: nat :: r < 32 ==> c.regs[r] == ef.GetReg(r)
    ensures LenientDecode(insn).Some?
    ensures var b := LenientDecode(insn).value;
            b.target == Relative(Imm(insn)) && b.link == 0 && condition == LenientTaken(b, c.regs, c.fcsr)
  {
    var rs, rt := ef.GetReg(Rs(insn)), ef.GetReg(Rt(insn));
    condition := || (Opcode(insn) == 0x04 && rs == rt)
                 || (Opcode(insn) == 0x05 && rs != rt)
                 || (Opcode(insn) == 0x06 && Signed(rs, W64) <= 0)
                 || (Opcode(insn) == 0x07 && Signed(rs, W64) > 0);
  }

  /** The COP1 arm of the branch switch. */
  method FpCondition(ef: TrapFrame, ghost c: Core, insn: U32) returns (failed: bool, condition: bool)
    requires Opcode(insn) == 0x11 && c.fcsr == ef.fcsr
    ensures failed == LenientDecode(insn).None?
    ensures !failed ==>
              var b := LenientDecode(insn).value;
              b.target == Relative(Imm(insn)) && b.link == 0 && condition == LenientTaken(b, c.regs, c.fcsr)
  {
    failed, condition := false, false;
    var ccmask: bv32 := 1;
    match Rs(insn) {
      case 0xa => ccmask := ((ccmask << 2) << 1) << 1; assert ccmask == 0x10;
      case 0x9 => ccmask := (ccmask << 1) << 1; assert ccmask == 0x4;
      case 0x8 => ccmask := ccmask << 1; assert ccmask == 0x2;
      case _ =>
        failed := true;
        return;
    }
    ccmask := ccmask - 1;
    ghost var count := if Rs(insn) == 0x8 then 1 else if Rs(insn) == 0x9 then 2 else 4;
    assert ccmask == CondMask(count);
    if (Rt(insn) / 2) % 2 != 0 {
      if ccmask != 1 {
        failed := true;
      } else {
        condition := true;
      }
      return;
    }
    condition := MaskTest(CondCodes(ef.fcsr), ccmask, Rt(insn) / 4, Rt(insn) % 2 == 1);
    CondTestMeaning(ef.fcsr, Rt(insn) / 4, count, Rt(insn) % 2 == 1);
  }

  /** The target of J and JAL as the code computes it, with a mask, a shift and an or. */
  function JumpTarget(oldPc: U64, insn: U32): nat {
    BitFields.Or(BitFields.And(At(oldPc, 4), W64 - 0x1000_0000), BitFields.Shl(InstrIndex(insn), 2))
  }

  /** That is the 256 MB region of the delay slot plus four times the index. */
  lemma JumpTargetIs(oldPc: U64, insn: U32)
    ensures JumpTarget(oldPc, insn) == At(oldPc, 4) / 0x1000_0000 * 0x1000_0000 + 4 * InstrIndex(insn) < W64
  {
    hide BitFields.Or, BitFields.And, BitFields.Low, BitFields.Shr;
    var next, index := At(oldPc, 4), InstrIndex(insn);
    BitFields.Powers();
    BitFields.AndAligns(next, 28);
    BitFields.MovesAreArithmetic(next, 28, 0x1000_0000);
    BitFields.UpIsProduct(next / 0x1000_0000, 28);
    BitFields.UpIsProduct(index, 2);
    BitFields.ShrIsZero(4 * index, 64);
    BitFields.LowIsAll(4 * index, 64);
    BitFields.ShrIsZero(4 * index, 28);
    BitFields.OrIsSum(next / 0x1000_0000, 4 * index, 28);
  }

  /** The part of the branch switch whose branches may fall through: whether the branch is
      taken and whether it then links. */
  method BranchCondition(ef: TrapFrame, ghost c: Core, insn: U32)
    returns (failed: bool, condition: bool, link: bool)
    requires ef.Valid() && c.fcsr == ef.fcsr
    requires forall r: nat :: r < 32 ==> c.regs[r] == ef.GetReg(r)
    requires Opcode(insn) !in {0x00, 0x02, 0x03}
    ensures failed == LenientDecode(insn).None?
    ensures !failed ==>
              var b := LenientDecode(insn).value;
              && b.target == Relative(Imm(insn)) && link == (b.link != 0)
              && condition == LenientTaken(b, c.regs, c.fcsr)
  {
    failed, condition, link := false, true, false;
    match Opcode(insn) {
      case 0x01 => failed, condition, link := RegimmCondition(ef, c, insn);
      case 0x04 => condition := CompareCondition(ef, c, insn);
      case 0x05 => condition := CompareCondition(ef, c, insn);
      case 0x06 => condition := CompareCondition(ef, c, insn);
      case 0x07 => condition := CompareCondition(ef, c, insn);
      case 0x11 => failed, condition := FpCondition(ef, c, insn);
      case 0x14 =>
      case 0x15 =>
      case 0x16 =>
      case 0x17 =>
      case _ => failed := true;
    }
  }

  /** The arms of the branch switch that always jump: JR, JALR, J and JAL. */
  method JumpNext(ef: TrapFrame, ghost c: Core, insn: U32, oldPc: U64)
    returns (failed: bool, newPc: U64, needNewRa: bool)
    requires ef.Valid() && c.pc == oldPc
    requires forall r: nat :: r < 32 ==> c.regs[r] == ef.GetReg(r)
    requires Opcode(insn) in {0x00, 0x02, 0x03}
    ensures failed == BranchTo(insn, c).None?
    ensures !failed ==> BranchTo(insn, c) == Some(Next(newPc, needNewRa))
  {
    failed, newPc, needNewRa := false, 0, false;
    if Opcode(insn) == 0x00 {
      match Funct(insn) {
        case 0x08 =>
          newPc := ef.GetReg(Rs(insn));
        case 0x09 =>
          newPc, needNewRa := ef.GetReg(Rs(insn)), true;
        case _ =>
          failed := true;
      }
    } else {
      JumpTargetIs(oldPc, insn);
      newPc, needNewRa := JumpTarget(oldPc, insn), Opcode(insn) == 0x03;
    }
  }

  method CalculateNextPc(ef: TrapFrame, ram: Ram, oldPc: U64, bd: bool)
    returns (failed: bool, newPc: U64, needNewRa: bool)
    requires ef.Valid() && oldPc == ef.Pc()
    ensures failed == NextPc(View(ef, ram), bd, ram.big).None?
    ensures !failed ==> NextPc(View(ef, ram), bd, ram.big) == Some(Next(newPc, needNewRa))
  {
    failed, newPc, needNewRa := false, 0, false;
    if !bd {
      newPc := At(oldPc, 4);
      return;
    }
    var insn;
    failed, insn := FetchWord(ram, oldPc);
    if failed {
      return;
    }
    ghost var c := View(ef, ram);
    if Opcode(insn) in {0x00, 0x02, 0x03} {
      failed, newPc, needNewRa := JumpNext(ef, c, insn, oldPc);
    } else {
      var condition, condNeedNewRa;
      failed, condition, condNeedNewRa := BranchCondition(ef, c, insn);
      if failed {
        return;
      }
      if !condition {
        newPc := At(oldPc, 8);
      } else {
        newPc := Wrap(oldPc + 4 + 4 * Signed(Imm(insn), W16));
        needNewRa := condNeedNewRa;
      }
    }
  }

  // ----- The handlers

  /** What a handler leaves behind, the frame and memory standing for c.  None: the fatal
      exit.  An access that would be native on an unaligned machine is done, then $31 is set
      if the branch before it asks for that, and the frame resumes past the access. */
  function Emulate(c: Core, bd: bool, store: bool, big: bool): Option<Core> {
    if !store && c.pc % 4 != 0 then None
    else
      match NextPc(c, bd, big)
      case None => None
      case Some(next) =>
        match Fetch(c.mem, if bd then At(c.pc, 4) else c.pc, big)
        case None => None
        case Some(w) => EmulateWord(w, c, next, store, big)
  }

  /** Emulate, once the access and the place to resume are known. */
  function EmulateWord(w: U32, c: Core, next: Next, store: bool, big: bool): Option<Core> {
    match DecodeAccess(w)
    case None => None
    case Some(a) =>
      if !a.emulated || a.store != store then None
      else
        match DoAccess(w, a, c, big)
        case None => None
        case Some(d) =>
          Some(d.(pc := next.pc, regs := if next.newRa then SetReg(d.regs, 31, At(c.pc, 8)) else d.regs))
  }

  /** Locates the faulting instruction and the PC to resume at. */
  method Locate(ef: TrapFrame, ram: Ram, store: bool)
    returns (failed: bool, insn: U32, newPc: U64, needNewRa: bool)
    requires ef.Valid()
    ensures var c := View(ef, ram);
            var bd := ef.InDelaySlot();
            && (failed ==> Emulate(c, bd, store, ram.big) == None)
            && (!failed ==>
                  Emulate(c, bd, store, ram.big)
                  == EmulateWord(insn, c, Next(newPc, needNewRa), store, ram.big))
  {
    insn, newPc, needNewRa := 0, 0, false;
    var pc := ef.Pc();
    var bd := ef.InDelaySlot();
    if !store && pc % 4 != 0 {
      failed := true;
      return;
    }
    failed, newPc, needNewRa := CalculateNextPc(ef, ram, pc, bd);
    if failed {
      return;
    }
    if bd {
      pc := At(pc, 4);
    }
    failed, insn := FetchWord(ram, pc);
  }

  /** Sets $31 when the branch linked, then resumes at newPc. */
  method Resume(ef: TrapFrame, ghost ram: Ram, newPc: U64, needNewRa: bool)
    requires ef.Valid()
    modifies ef.regs
    ensures var c := old(View(ef, ram));
            View(ef, ram) ==
            c.(pc := newPc, regs := if needNewRa then SetReg(c.regs, 31, At(c.pc, 8)) else c.regs)
  {
    if needNewRa {
      ef.SetReg(31, At(ef.Pc(), 8));
    }
    ef.SetPc(newPc);
  }

  /** The load opcodes the handler emulates: width and whether the result is sign-extended. */
  method LoadWidth(insn: U32) returns (fatal: bool, size: nat, signed: bool)
    ensures fatal <==> !(DecodeAccess(insn).Some? && DecodeAccess(insn).value.emulated
                         && !DecodeAccess(insn).value.store)
    ensures !fatal ==> DecodeAccess(insn) == Some(Access(size, false, signed, true))
  {
    fatal, size, signed := false, 2, true;
    match Opcode(insn) {
      case 0x21 => size, signed := 2, true;
      case 0x23 => size, signed := 4, true;
      case 0x25 => size, signed := 2, false;
      case 0x27 => size, signed := 4, false;
      case 0x37 => size, signed := 8, true;
      case _ => fatal := true;
    }
  }

  method StoreWidth(insn: U32) returns (fatal: bool, size: nat)
    ensures fatal <==> !(DecodeAccess(insn).Some? && DecodeAccess(insn).value.emulated
                         && DecodeAccess(insn).value.store)
    ensures !fatal ==> DecodeAccess(insn) == Some(Access(size, true, false, true))
  {
    fatal, size := false, 2;
    match Opcode(insn) {
      case 0x29 => size := 2;
      case 0x2b => size := 4;
      case 0x3f => size := 8;
      case _ => fatal := true;
    }
  }

  /** The effective address; offset and base wrap as 64-bit quantities. */
  method AccessAddress(ef: TrapFrame, ghost ram: Ram, insn: U32) returns (ea: U64)
    requires ef.Valid()
    ensures ea == EffectiveAddress(insn, View(ef, ram).regs)
  {
    ea := Wrap(ef.GetReg(Rs(insn)) + Signed(Imm(insn), W16));
  }

  method Load(ef: TrapFrame, ram: Ram, insn: U32, size: nat, signed: bool) returns (failed: bool)
    requires ef.Valid() && size > 0
    modifies ef.regs
    ensures var d := DoAccess(insn, Access(size, false, signed, true), old(View(ef, ram)), ram.big);
            if failed then d.None? && ef.regs[..] == old(ef.regs[..]) else d == Some(View(ef, ram))
  {
    var ea := AccessAddress(ef, ram, insn);
    match ReadBytes(ram.bytes, ea, size) {
      case None =>
        failed := true;
      case Some(bs) =>
        failed := false;
        var val := Extend(FromBytes(bs, ram.big), size, signed);
        ef.SetReg(Rt(insn), val);
        assert View(ef, ram).regs == SetReg(old(View(ef, ram)).regs, Rt(insn), val);
    }
  }

  method Store(ef: TrapFrame, ram: Ram, insn: U32, size: nat) returns (failed: bool)
    requires ef.Valid()
    modifies ram
    ensures var d := DoAccess(insn, Access(size, true, false, true), old(View(ef, ram)), ram.big);
            if failed then d.None? && ram.bytes == old(ram.bytes) else d == Some(View(ef, ram))
  {
    var ea := AccessAddress(ef, ram, insn);
    failed := ram.CopyOut(ea, ToBytes(ef.GetReg(Rt(insn)), size, ram.big));
  }

  /** Handles an address error on a load: a fatal exit changes nothing; otherwise frame and
      memory are what Emulate makes of those at entry. */
  method UnalignedLoadHandler(ef: TrapFrame, ram: Ram) returns (fatal: bool)
    requires ef.Valid()
    modifies ef.regs
    ensures fatal == Emulate(old(View(ef, ram)), ef.InDelaySlot(), false, ram.big).None?
    ensures fatal ==> ef.regs[..] == old(ef.regs[..])
    ensures !fatal ==> Emulate(old(View(ef, ram)), ef.InDelaySlot(), false, ram.big) == Some(View(ef, ram))
  {
    var insn, newPc, needNewRa;
    fatal, insn, newPc, needNewRa := Locate(ef, ram, false);
    if fatal {
      return;
    }
    var size, signed;
    fatal, size, signed := LoadWidth(insn);
    if fatal {
      return;
    }
    fatal := Load(ef, ram, insn, size, signed);
    if fatal {
      return;
    }
    assert View(ef, ram).pc == old(View(ef, ram)).pc;
    Resume(ef, ram, newPc, needNewRa);
  }

  /** Handles an address error on a store, in the same way. */
  method UnalignedStoreHandler(ef: TrapFrame, ram: Ram) returns (fatal: bool)
    requires ef.Valid()
    modifies ef.regs, ram
    ensures fatal == Emulate(old(View(ef, ram)), ef.InDelaySlot(), true, ram.big).None?
    ensures fatal ==> ef.regs[..] == old(ef.regs[..]) && ram.bytes == old(ram.bytes)
    ensures !fatal ==> Emulate(old(View(ef, ram)), ef.InDelaySlot(), true, ram.big) == Some(View(ef, ram))
  {
    var insn, newPc, needNewRa;
    fatal, insn, newPc, needNewRa := Locate(ef, ram, true);
    if fatal {
      return;
    }
    var size;
    fatal, size := StoreWidth(insn);
    if fatal {
      return;
    }
    fatal := Store(ef, ram, insn, size);
    if fatal {
      return;
    }
    Resume(ef, ram, newPc, needNewRa);
  }
}
