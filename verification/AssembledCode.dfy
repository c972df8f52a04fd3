/** What the handlers do for instructions as an assembler writes them: mnemonic by mnemonic, in
    terms of the operands, without the decoding functions. */
module AssembledCode {
  import opened Words
  import opened Mips
  import opened UnalignedHandler
  import opened UnalignedSimulation

  // ----- Instruction words

  predicate Offset16(d: int) { -0x8000 <= d < 0x8000 }

  /** An immediate instruction: opcode, two registers and a signed 16-bit operand. */
  function IWord(op: nat, rs: nat, rt: nat, d: int): U32
    requires op < 64 && rs < 32 && rt < 32
  {
    op * 0x400_0000 + rs * 0x20_0000 + rt * 0x1_0000 + d % 0x1_0000
  }

  function JWord(op: nat, index: nat): U32
    requires op < 64 && index < 0x400_0000
  {
    op * 0x400_0000 + index
  }

  /** JR and JALR. */
  function RWord(rs: nat, rd: nat, funct: nat): U32
    requires rs < 32 && rd < 32 && funct < 64
  {
    rs * 0x20_0000 + rd * 0x800 + funct
  }

  lemma IFields(op: nat, rs: nat, rt: nat, d: int)
    requires op < 64 && rs < 32 && rt < 32
    ensures var w := IWord(op, rs, rt, d);
            Opcode(w) == op && Rs(w) == rs && Rt(w) == rt && Imm(w) == d % 0x1_0000
  {
    var w, i := IWord(op, rs, rt, d), d % 0x1_0000;
    QuotientIsUnique(w, 0x400_0000, op, rs * 0x20_0000 + rt * 0x1_0000 + i);
    QuotientIsUnique(w, 0x20_0000, op * 32 + rs, rt * 0x1_0000 + i);
    QuotientIsUnique(op * 32 + rs, 32, op, rs);
    QuotientIsUnique(w, 0x1_0000, op * 1024 + rs * 32 + rt, i);
    QuotientIsUnique(op * 1024 + rs * 32 + rt, 32, op * 32 + rs, rt);
  }

  lemma JFields(op: nat, index: nat)
    requires op < 64 && index < 0x400_0000
    ensures Opcode(JWord(op, index)) == op && InstrIndex(JWord(op, index)) == index
  {
    QuotientIsUnique(JWord(op, index), 0x400_0000, op, index);
  }

  lemma RFields(rs: nat, rd: nat, funct: nat)
    requires rs < 32 && rd < 32 && funct < 64
    ensures var w := RWord(rs, rd, funct);
            Opcode(w) == 0 && Rs(w) == rs && Funct(w) == funct && Rd(w) == rd
  {
    var w := RWord(rs, rd, funct);
    QuotientIsUnique(w, 0x400_0000, 0, w);
    QuotientIsUnique(w, 0x20_0000, rs, rd * 0x800 + funct);
    QuotientIsUnique(rs, 32, 0, rs);
    QuotientIsUnique(w, 64, rs * 0x8000 + rd * 32, funct);
    QuotientIsUnique(w, 0x800, rs * 0x400 + rd, funct);
    QuotientIsUnique(rs * 0x400 + rd, 32, rs * 32, rd);
  }

  /** The operand comes back with its sign. */
  lemma OperandSigned(d: int)
    requires Offset16(d)
    ensures Signed(d % 0x1_0000, W16) == d
  {
    QuotientIsUnique(d, 0x1_0000, if d < 0 then -1 else 0, if d < 0 then d + 0x1_0000 else d);
    SignedMeaning(d % 0x1_0000, W16);
  }

  // ----- Branches

  const SIGN_BIT := 0x8000_0000_0000_0000

  predicate Negative(x: U64) { x >= SIGN_BIT }

  /** Where a branch with operand d goes on: d instructions past its delay slot, or just past
      the delay slot. */
  function Goes(pc: U64, d: int, taken: bool): U64 {
    if taken then At(At(pc, 4), 4 * d) else At(pc, 8)
  }

  lemma TargetOf(b: Branch, regs: Regs, pc: U64, d: int)
    requires WellFormed(b) && Offset16(d) && b.target == Relative(d % 0x1_0000)
    ensures TargetPc(b, regs, pc) == Goes(pc, d, true)
  {
    OperandSigned(d);
    WrapTwice(pc + 4, 4 * d);
  }

  lemma WrapTwice(x: int, y: int)
    ensures Wrap(Wrap(x) + y) == Wrap(x + y)
  {
    var q, r := x / W64, x % W64;
    assert x == W64 * q + r;
    WrapIs(x, q, r);
    var q', r' := (r + y) / W64, (r + y) % W64;
    assert r + y == W64 * q' + r';
    WrapIs(r + y, q', r');
    WrapIs(x + y, q + q', r');
  }

  lemma WrapIs(x: int, q: int, r: int)
    requires 0 <= r < W64 && x == W64 * q + r
    ensures Wrap(x) == r
  {
    QuotientIsUnique(x, W64, q, r);
  }

  /** beq and bne. */
  lemma EqualBranches(rs: nat, rt: nat, d: int, c: Core)
    requires rs < 32 && rt < 32 && Offset16(d)
    ensures BranchTo(IWord(0x04, rs, rt, d), c) == Some(Next(Goes(c.pc, d, c.regs[rs] == c.regs[rt]), false))
    ensures BranchTo(IWord(0x05, rs, rt, d), c) == Some(Next(Goes(c.pc, d, c.regs[rs] != c.regs[rt]), false))
  {
    hide TargetPc, IWord, Goes;
    IFields(0x04, rs, rt, d);
    IFields(0x05, rs, rt, d);
    var rel := Relative(d % 0x1_0000);
    TargetOf(Branch(Eq, rel, rs, rt, 0, false), c.regs, c.pc, d);
    TargetOf(Branch(Ne, rel, rs, rt, 0, false), c.regs, c.pc, d);
    NotTaken(c.pc, d);
  }

  lemma NotTaken(pc: U64, d: int)
    ensures Goes(pc, d, false) == At(pc, 8)
  {
  }

  lemma SignOf(x: U64)
    ensures Signed(x, W64) < 0 <==> Negative(x)
    ensures Signed(x, W64) == 0 <==> x == 0
  {
    SignedMeaning(x, W64);
  }

  /** blez and bgtz. */
  lemma ZeroBranches(rs: nat, d: int, c: Core)
    requires rs < 32 && Offset16(d)
    ensures var x := c.regs[rs];
            && BranchTo(IWord(0x06, rs, 0, d), c) == Some(Next(Goes(c.pc, d, x == 0 || Negative(x)), false))
            && BranchTo(IWord(0x07, rs, 0, d), c) == Some(Next(Goes(c.pc, d, x != 0 && !Negative(x)), false))
  {
    hide TargetPc, IWord, Goes, Signed, Negative;
    IFields(0x06, rs, 0, d);
    IFields(0x07, rs, 0, d);
    SignOf(c.regs[rs]);
    var rel := Relative(d % 0x1_0000);
    TargetOf(Branch(LeZ, rel, rs, 0, 0, false), c.regs, c.pc, d);
    TargetOf(Branch(GtZ, rel, rs, 0, 0, false), c.regs, c.pc, d);
    NotTaken(c.pc, d);
  }

  /** bltz, bgez, bltzal and bgezal; the last two set $31 when taken. */
  lemma SignBranches(rs: nat, d: int, c: Core)
    requires rs < 32 && Offset16(d)
    ensures var neg := Negative(c.regs[rs]);
            && BranchTo(IWord(0x01, rs, 0x00, d), c) == Some(Next(Goes(c.pc, d, neg), false))
            && BranchTo(IWord(0x01, rs, 0x01, d), c) == Some(Next(Goes(c.pc, d, !neg), false))
            && BranchTo(IWord(0x01, rs, 0x10, d), c) == Some(Next(Goes(c.pc, d, neg), neg))
            && BranchTo(IWord(0x01, rs, 0x11, d), c) == Some(Next(Goes(c.pc, d, !neg), !neg))
  {
    hide TargetPc, IWord, Goes, Signed, Negative;
    IFields(0x01, rs, 0x00, d);
    IFields(0x01, rs, 0x01, d);
    IFields(0x01, rs, 0x10, d);
    IFields(0x01, rs, 0x11, d);
    SignOf(c.regs[rs]);
    var rel := Relative(d % 0x1_0000);
    TargetOf(Branch(LtZ, rel, rs, 0, 0, false), c.regs, c.pc, d);
    TargetOf(Branch(GeZ, rel, rs, 0, 0, false), c.regs, c.pc, d);
    TargetOf(Branch(LtZ, rel, rs, 0, 31, false), c.regs, c.pc, d);
    TargetOf(Branch(GeZ, rel, rs, 0, 31, false), c.regs, c.pc, d);
    NotTaken(c.pc, d);
  }

  /** The likely branches: an exception in their slot means that they were taken. */
  lemma LikelyBranches(op: nat, rs: nat, rt: nat, d: int, c: Core)
    requires rs < 32 && rt < 32 && Offset16(d)
    requires op in {0x14, 0x15, 0x16, 0x17} || (op == 0x01 && rt in {0x02, 0x03, 0x12, 0x13})
    ensures BranchTo(IWord(op, rs, rt, d), c)
         == Some(Next(Goes(c.pc, d, true), op == 0x01 && rt in {0x12, 0x13}))
  {
    hide TargetPc, IWord, Goes, Taken;
    IFields(op, rs, rt, d);
    var b := LenientDecode(IWord(op, rs, rt, d)).value;
    TargetOf(b, c.regs, c.pc, d);
  }

  /** Condition code k of the floating-point status: bit 23, and bits 25 to 31. */
  predicate CodeSet(f: bv32, k: nat)
    requires k < 8
  {
    match k
    case 0 => (f >> 23) % 2 == 1
    case 1 => (f >> 25) % 2 == 1
    case 2 => (f >> 26) % 2 == 1
    case 3 => (f >> 27) % 2 == 1
    case 4 => (f >> 28) % 2 == 1
    case 5 => (f >> 29) % 2 == 1
    case 6 => (f >> 30) % 2 == 1
    case 7 => f >> 31 == 1
  }

  lemma CodeIs(f: bv32, k: nat)
    requires k < 8
    ensures Fcc(f, k) <==> CodeSet(f, k)
  {
  }

  function CodeWord(count: nat, cc: nat, tf: bool, d: int): U32
    requires count in {1, 2, 4} && cc < 8
  {
    IWord(0x11, if count == 1 then 0x8 else if count == 2 then 0x9 else 0xa, 4 * cc + (if tf then 1 else 0), d)
  }

  /** bc1f and bc1t on code cc; bc1any2f and bc1any2t on it and the next; bc1any4f and
      bc1any4t on four of them. */
  lemma CodeBranches(count: nat, cc: nat, tf: bool, d: int, c: Core)
    requires count in {1, 2, 4} && cc + count <= 8 && Offset16(d)
    ensures var taken := exists k :: cc <= k < cc + count && CodeSet(c.fcsr, k) == tf;
            BranchTo(CodeWord(count, cc, tf, d), c) == Some(Next(Goes(c.pc, d, taken), false))
  {
    hide TargetPc, IWord, Goes, Fcc, CodeSet, LenientDecode, CodeWord;
    var b := Branch(FpAny(cc, count, tf), Relative(d % 0x1_0000), 0, 0, 0, false);
    CodeDecodes(count, cc, tf, d);
    TargetOf(b, c.regs, c.pc, d);
    NotTaken(c.pc, d);
    forall k | cc <= k < cc + count
      ensures Fcc(c.fcsr, k) <==> CodeSet(c.fcsr, k)
    {
      CodeIs(c.fcsr, k);
    }
    assert AnyFcc(c.fcsr, cc, count, tf) <==> exists k :: cc <= k < cc + count && CodeSet(c.fcsr, k) == tf;
  }

  lemma CodeDecodes(count: nat, cc: nat, tf: bool, d: int)
    requires count in {1, 2, 4} && cc + count <= 8
    ensures LenientDecode(CodeWord(count, cc, tf, d))
         == Some(Branch(FpAny(cc, count, tf), Relative(d % 0x1_0000), 0, 0, 0, false))
  {
    hide IWord;
    IFields(0x11, if count == 1 then 0x8 else if count == 2 then 0x9 else 0xa, 4 * cc + (if tf then 1 else 0), d);
  }

  /** bc1fl and bc1tl. */
  lemma LikelyCodeBranches(cc: nat, tf: bool, d: int, c: Core)
    requires cc < 8 && Offset16(d)
    ensures BranchTo(IWord(0x11, 0x8, 4 * cc + (if tf then 3 else 2), d), c) == Some(Next(Goes(c.pc, d, true), false))
  {
    hide TargetPc, IWord, Goes, Taken;
    IFields(0x11, 0x8, 4 * cc + (if tf then 3 else 2), d);
    TargetOf(Branch(FpAny(cc, 1, tf), Relative(d % 0x1_0000), 0, 0, 0, true), c.regs, c.pc, d);
  }

  /** j and jal stay in the 256 MB of their delay slot; jr and jalr go where the register says.
      jal and jalr set $31. */
  lemma Jumps(index: nat, rs: nat, rd: nat, c: Core)
    requires index < 0x400_0000 && rs < 32 && rd < 32
    ensures var target := At(c.pc, 4) - At(c.pc, 4) % 0x1000_0000 + 4 * index;
            && target < W64
            && BranchTo(JWord(0x02, index), c) == Some(Next(target, false))
            && BranchTo(JWord(0x03, index), c) == Some(Next(target, true))
            && BranchTo(RWord(rs, 0, 0x08), c) == Some(Next(c.regs[rs], false))
            && BranchTo(RWord(rs, rd, 0x09), c) == Some(Next(c.regs[rs], true))
  {
    hide JWord, RWord;
    JFields(0x02, index);
    JFields(0x03, index);
    RFields(rs, 0, 0x08);
    RFields(rs, rd, 0x09);
  }

  // ----- Loads and stores

  predicate LoadOp(op: nat) { op in {0x21, 0x23, 0x25, 0x27, 0x37} }       // lh, lw, lhu, lwu, ld

  predicate StoreOp(op: nat) { op in {0x29, 0x2b, 0x3f} }                  // sh, sw, sd

  function Width(op: nat): nat {
    if op in {0x21, 0x25, 0x29} then 2 else if op in {0x23, 0x27, 0x2b} then 4 else 8
  }

  predicate SignedOp(op: nat) { op in {0x21, 0x23, 0x37} }

  /** The n bytes from ea are mapped. */
  predicate Mapped(m: Memory, ea: U64, n: nat) {
    forall k :: 0 <= k < n ==> At(ea, k) in m
  }

  /** v is what a load of op from ea leaves: its low bytes are memory's, and the bits above them
      all zero, or all like the highest of them. */
  predicate Loaded(v: U64, op: nat, m: Memory, ea: U64, big: bool)
    requires Mapped(m, ea, Width(op))
  {
    var n := Width(op);
    && (forall k :: 0 <= k < n ==> ByteOf(v, k) == m[At(ea, Place(k, n, big))])
    && (if SignedOp(op) then 2 * v < Range(n) || 2 * (W64 - v) <= Range(n) else v < Range(n))
  }

  lemma AddressOf(op: nat, base: nat, rt: nat, d: int, regs: Regs)
    requires op < 64 && base < 32 && rt < 32 && Offset16(d)
    ensures EffectiveAddress(IWord(op, base, rt, d), regs) == At(regs[base], d)
  {
    IFields(op, base, rt, d);
    OperandSigned(d);
  }

  lemma {:induction false} BytesAbove(x: nat, m: nat, k: nat, n: nat)
    requires k < n
    ensures ByteOf(x + Range(n) * m, k) == ByteOf(x, k)
  {
    hide ByteOf;
    var y, z := Range(n - 1) * m, x + Range(n) * m;
    assert Range(n) * m == 256 * y by {
      assert (256 * Range(n - 1)) * m == 256 * (Range(n - 1) * m);
    }
    QuotientIsUnique(z, 256, x / 256 + y, x % 256);
    if k == 0 {
      LowByteOf(x);
      LowByteOf(z);
    } else {
      NextByteOf(x, k);
      NextByteOf(z, k);
      BytesAbove(x / 256, m, k - 1, n - 1);
    }
  }

  lemma ExtendMeaning(x: nat, n: nat, signed: bool)
    requires n in {2, 4, 8} && x < Range(n)
    ensures var v := Extend(x, n, signed);
            && (forall k :: 0 <= k < n ==> ByteOf(v, k) == ByteOf(x, k))
            && (if signed then 2 * v < Range(n) || 2 * (W64 - v) <= Range(n) else v < Range(n))
  {
    hide Signed, ByteOf;
    RangeValues();
    RangeAdd(n, 8 - n);
    var v, s := Extend(x, n, signed), Signed(x, Range(n));
    SignedMeaning(x, Range(n));
    if signed && s < 0 {
      QuotientIsUnique(s, Range(n), -1, s + Range(n));
      QuotientIsUnique(s, W64, -1, s + W64);
      assert v == x + Range(n) * (Range(8 - n) - 1);
      forall k | 0 <= k < n
        ensures ByteOf(v, k) == ByteOf(x, k)
      {
        BytesAbove(x, Range(8 - n) - 1, k, n);
      }
    } else if signed {
      QuotientIsUnique(s, Range(n), 0, s);
    }
  }

  /** The handlers on a load: they give up exactly when a byte of it is not mapped; otherwise
      they load the bytes at base + d, sign- or zero-extended, into rt, set $31 if the branch
      asks for it, change nothing else and go on to next. */
  lemma LoadAssembled(op: nat, base: nat, rt: nat, d: int, c: Core, bd: bool, next: Next, big: bool)
    requires LoadOp(op) && base < 32 && rt < 32 && Offset16(d) && c.pc % 4 == 0
    requires NextPc(c, bd, big) == Some(next)
    requires Fetch(c.mem, if bd then At(c.pc, 4) else c.pc, big) == Some(IWord(op, base, rt, d))
    ensures var ea := At(c.regs[base], d);
            match Emulate(c, bd, false, big)
            case None => !Mapped(c.mem, ea, Width(op))
            case Some(e) =>
              && Mapped(c.mem, ea, Width(op)) && e.pc == next.pc && e.mem == c.mem && e.fcsr == c.fcsr
              && (next.newRa ==> e.regs[31] == At(c.pc, 8))
              && (rt != 0 && !(next.newRa && rt == 31) ==> Loaded(e.regs[rt], op, c.mem, ea, big))
              && forall r :: 0 <= r < 32 && r != rt && !(next.newRa && r == 31) ==> e.regs[r] == c.regs[r]
  {
    hide IWord, NextPc, EffectiveAddress, Extend, FromBytes, Loaded;
    var w, ea, n := IWord(op, base, rt, d), At(c.regs[base], d), Width(op);
    IFields(op, base, rt, d);
    AddressOf(op, base, rt, d, c.regs);
    assert DecodeAccess(w) == Some(Access(n, false, SignedOp(op), true));
    assert Emulate(c, bd, false, big) == EmulateWord(w, c, next, false, big);
    if Mapped(c.mem, ea, n) {
      LoadedIs(op, c.mem, ea, big);
    }
  }

  /** The four bytes at a are those of the instruction word w. */
  predicate Spells(m: Memory, a: U64, w: U32, big: bool) {
    Mapped(m, a, 4) && forall k :: 0 <= k < 4 ==> m[At(a, Place(k, 4, big))] == ByteOf(w, k)
  }

  /** The handlers decode that word and no other, and fail exactly when a byte is not mapped. */
  lemma FetchSpells(m: Memory, a: U64, w: U32, big: bool)
    ensures Fetch(m, a, big) == Some(w) <==> Spells(m, a, w, big)
    ensures Fetch(m, a, big) == None <==> !Mapped(m, a, 4)
  {
    hide FromBytes, ToBytes, ByteOf;
    if Mapped(m, a, 4) {
      var bs := ReadBytes(m, a, 4).value;
      forall k | 0 <= k < 4
        ensures ByteOf(FromBytes(bs, big), k) == m[At(a, Place(k, 4, big))]
      {
        FromBytesOrder(bs, big, k);
      }
      if Spells(m, a, w, big) {
        SpelledIs(bs, w, big);
      }
    }
  }

  lemma SpelledIs(bs: seq<Byte>, w: U32, big: bool)
    requires |bs| == 4 && forall k :: 0 <= k < 4 ==> bs[Place(k, 4, big)] == ByteOf(w, k)
    ensures FromBytes(bs, big) == w
  {
    hide FromBytes, ToBytes, ByteOf;
    var spelled := ToBytes(w, 4, big);
    forall i | 0 <= i < 4
      ensures bs[i] == spelled[i]
    {
      var k := Place(i, 4, big);
      assert Place(k, 4, big) == i;
      ToBytesOrder(w, 4, big, k);
    }
    assert bs == spelled;
    BytesRoundTrip(w, 4, big);
    RangeValues();
  }

  lemma LoadedIs(op: nat, m: Memory, ea: U64, big: bool)
    requires LoadOp(op) && Mapped(m, ea, Width(op))
    ensures ReadBytes(m, ea, Width(op)).Some?
    ensures Loaded(Extend(FromBytes(ReadBytes(m, ea, Width(op)).value, big), Width(op), SignedOp(op)), op, m, ea, big)
  {
    hide Extend, FromBytes, ByteOf;
    var n := Width(op);
    var bs := ReadBytes(m, ea, n).value;
    ExtendMeaning(FromBytes(bs, big), n, SignedOp(op));
    forall k | 0 <= k < n
      ensures ByteOf(FromBytes(bs, big), k) == m[At(ea, Place(k, n, big))]
    {
      FromBytesOrder(bs, big, k);
    }
  }

  /** The handlers on a store: byte k of rt goes to its place in memory, nothing else does. */
  lemma StoreAssembled(op: nat, base: nat, rt: nat, d: int, c: Core, bd: bool, next: Next, big: bool)
    requires StoreOp(op) && base < 32 && rt < 32 && Offset16(d)
    requires NextPc(c, bd, big) == Some(next)
    requires Fetch(c.mem, if bd then At(c.pc, 4) else c.pc, big) == Some(IWord(op, base, rt, d))
    ensures var ea, n := At(c.regs[base], d), Width(op);
            match Emulate(c, bd, true, big)
            case None => !Mapped(c.mem, ea, n)
            case Some(e) =>
              && Mapped(c.mem, ea, n) && e.pc == next.pc && e.fcsr == c.fcsr && e.mem.Keys == c.mem.Keys
              && (next.newRa ==> e.regs[31] == At(c.pc, 8))
              && (forall r :: 0 <= r < 32 && !(next.newRa && r == 31) ==> e.regs[r] == c.regs[r])
              && (forall k :: 0 <= k < n ==> e.mem[At(ea, Place(k, n, big))] == ByteOf(c.regs[rt], k))
              && (forall x :: x in c.mem && Offset(ea, x) >= n ==> e.mem[x] == c.mem[x])
  {
    hide IWord, NextPc, EffectiveAddress, ToBytes, WriteBytes, ByteOf, Offset;
    var w, ea, n := IWord(op, base, rt, d), At(c.regs[base], d), Width(op);
    IFields(op, base, rt, d);
    AddressOf(op, base, rt, d, c.regs);
    assert DecodeAccess(w) == Some(Access(n, true, false, true));
    assert Emulate(c, bd, true, big) == EmulateWord(w, c, next, true, big);
    if Mapped(c.mem, ea, n) {
      var bs := ToBytes(c.regs[rt], n, big);
      ReadAfterWrite(c.mem, ea, bs);
      forall k | 0 <= k < n
        ensures WriteBytes(c.mem, ea, bs)[At(ea, Place(k, n, big))] == ByteOf(c.regs[rt], k)
      {
        ToBytesOrder(c.regs[rt], n, big, k);
        StoredAt(c.mem, ea, bs, Place(k, n, big));
      }
    }
  }

  lemma StoredAt(m: Memory, ea: U64, bs: seq<Byte>, k: nat)
    requires k < |bs| < W64 && At(ea, k) in m
    ensures At(ea, k) in WriteBytes(m, ea, bs) && WriteBytes(m, ea, bs)[At(ea, k)] == bs[k]
  {
    OffsetOfAt(ea, k);
  }

  /** On a strict machine such an access traps exactly when its address is not a multiple of its
      width, a load and a store to their own handlers; otherwise it fails exactly when a byte of
      it is not mapped. */
  lemma TrapsExactly(op: nat, base: nat, rt: nat, d: int, c: Core, big: bool, rest: Rest)
    requires (LoadOp(op) || StoreOp(op)) && base < 32 && rt < 32 && Offset16(d)
    ensures var w, ea := IWord(op, base, rt, d), At(c.regs[base], d);
            if ea % Width(op) != 0 then StrictExec(w, c, big, rest) == AddressError(StoreOp(op))
            else StrictExec(w, c, big, rest) == NativeExec(w, c, big, rest)
    ensures var w, ea := IWord(op, base, rt, d), At(c.regs[base], d);
            if Mapped(c.mem, ea, Width(op)) then NativeExec(w, c, big, rest).Done?
            else NativeExec(w, c, big, rest) == Fault
  {
    hide IWord, EffectiveAddress, Extend, FromBytes, ToBytes;
    IFields(op, base, rt, d);
    AddressOf(op, base, rt, d, c.regs);
    assert DecodeAccess(IWord(op, base, rt, d)) == Some(Access(Width(op), StoreOp(op), SignedOp(op), true));
  }

  /** Every other opcode is fatal to either handler, and so are stores to the load handler and
      loads to the store handler. */
  lemma OthersAreFatal(op: nat, rs: nat, rt: nat, d: int, c: Core, bd: bool, store: bool, big: bool)
    requires op < 64 && rs < 32 && rt < 32 && !(if store then StoreOp(op) else LoadOp(op))
    requires Fetch(c.mem, if bd then At(c.pc, 4) else c.pc, big) == Some(IWord(op, rs, rt, d))
    ensures Emulate(c, bd, store, big) == None
  {
    hide IWord, NextPc;
    IFields(op, rs, rt, d);
  }

  /** Where the handlers go on: past the access, or in a delay slot where the branch whose bytes
      stand before it goes; that is fatal if those are not mapped. */
  lemma GoesOn(c: Core, w: U32, big: bool)
    ensures NextPc(c, false, big) == Some(Next(At(c.pc, 4), false))
    ensures Spells(c.mem, c.pc, w, big) ==> NextPc(c, true, big) == BranchTo(w, c)
    ensures !Mapped(c.mem, c.pc, 4) ==> NextPc(c, true, big) == None
  {
    hide Spells, Fetch, BranchTo;
    FetchSpells(c.mem, c.pc, w, big);
  }
}
