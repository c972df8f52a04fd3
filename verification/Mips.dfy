/** The part of the MIPS64 architecture that unaligned-access emulation has to agree with:
    instruction fields, branches with a delay slot, and loads and stores.  This is the
    reference side of the simulation.  The specification of the handlers shares the fields,
    the byte-wise accesses and the decoding of the branches on which the two agree. */
module Mips {
  import opened Words

  // ----- Instruction fields

  function Opcode(w: U32): nat { w / 0x400_0000 }
  function Rs(w: U32): nat { (w / 0x20_0000) % 32 }
  function Rt(w: U32): nat { (w / 0x1_0000) % 32 }
  function Rd(w: U32): nat { (w / 0x800) % 32 }
  function Funct(w: U32): nat { w % 64 }
  function Imm(w: U32): nat { w % 0x1_0000 }
  function InstrIndex(w: U32): nat { w % 0x400_0000 }

  // ----- Machine state

  type Memory = map<U64, Byte>

  predicate GoodRegs(r: seq<U64>) { |r| == 32 && r[0] == 0 }

  const ZEROS: seq<U64> := seq(32, i => 0)

  type Regs = r: seq<U64> | GoodRegs(r) witness ZEROS

  /** Architectural state between instructions.  $0 reads as zero by construction. */
  datatype Core = Core(regs: Regs, pc: U64, fcsr: bv32, mem: Memory)

  function SetReg(r: Regs, i: nat, v: U64): Regs
    requires i < 32
  {
    if i == 0 then r else r[i := v]
  }

  // ----- Memory, a byte at a time

  /** The address k bytes past a. */
  function At(a: U64, k: int): U64 { Wrap(a + k) }

  /** How far x lies past a, going round the address space. */
  function Offset(a: U64, x: U64): U64 { Wrap(x - a) }

  lemma OffsetOfAt(a: U64, k: U64)
    ensures Offset(a, At(a, k)) == k
  {
    assert At(a, k) == a + k || At(a, k) == a + k - W64;
  }

  /** The n bytes at a, or None when one of them is not mapped. */
  function ReadBytes(m: Memory, a: U64, n: nat): (r: Option<seq<Byte>>)
    ensures r.Some? ==> |r.value| == n
    ensures r.Some? <==> forall k :: 0 <= k < n ==> At(a, k) in m
    ensures r.Some? ==> forall k :: 0 <= k < n ==> r.value[k] == m[At(a, k)]
  {
    if forall k :: 0 <= k < n ==> At(a, k) in m
    then Some(seq(n, k requires 0 <= k < n && At(a, k) in m => m[At(a, k)]))
    else None
  }

  /** m with bs stored from a upwards. */
  function WriteBytes(m: Memory, a: U64, bs: seq<Byte>): Memory {
    map x: U64 | x in m :: if Offset(a, x) < |bs| then bs[Offset(a, x)] else m[x]
  }

  /** 256 to the n: how many values n bytes hold. */
  function Range(n: nat): (r: nat)
    ensures r > 0
  {
    if n == 0 then 1 else 256 * Range(n - 1)
  }

  /** The number the bytes spell: most significant byte first when big, else last. */
  function FromBytes(bs: seq<Byte>, big: bool): (v: nat)
    ensures v < Range(|bs|)
  {
    if bs == [] then 0
    else if big then 256 * FromBytes(bs[..|bs| - 1], big) + bs[|bs| - 1]
    else bs[0] + 256 * FromBytes(bs[1..], big)
  }

  /** The low n bytes of v. */
  function ToBytes(v: nat, n: nat, big: bool): (bs: seq<Byte>)
    ensures |bs| == n
  {
    if n == 0 then []
    else if big then ToBytes(v / 256, n - 1, big) + [v % 256]
    else [v % 256] + ToBytes(v / 256, n - 1, big)
  }

  lemma ModByDigits(v: nat, m: nat)
    requires m > 0
    ensures 256 * ((v / 256) % m) + v % 256 == v % (256 * m)
  {
    var q := v / 256;
    var k := q / m;
    assert v == 256 * q + v % 256;
    assert q == m * k + q % m;
    var rest := 256 * (q % m) + v % 256;
    assert v == (256 * m) * k + rest by {
      assert 256 * (m * k) == (256 * m) * k;
    }
    assert 0 <= rest < 256 * m;
    QuotientIsUnique(v, 256 * m, k, rest);
  }

  /** Writing a number out in bytes and reading it back keeps its low n bytes. */
  lemma {:induction false} BytesRoundTrip(v: nat, n: nat, big: bool)
    ensures FromBytes(ToBytes(v, n, big), big) == v % Range(n)
  {
    if n > 0 {
      var bs := ToBytes(v, n, big);
      BytesRoundTrip(v / 256, n - 1, big);
      ModByDigits(v, Range(n - 1));
      if big {
        assert bs[..|bs| - 1] == ToBytes(v / 256, n - 1, big);
      } else {
        assert bs[1..] == ToBytes(v / 256, n - 1, big);
      }
    }
  }

  lemma {:induction false} RangeAdd(m: nat, n: nat)
    ensures Range(m + n) == Range(m) * Range(n)
  {
    if m > 0 {
      RangeAdd(m - 1, n);
      assert 256 * (Range(m - 1) * Range(n)) == (256 * Range(m - 1)) * Range(n);
    }
  }

  /** Byte k of v, counted from the least significant. */
  function ByteOf(v: int, k: nat): int { v / Range(k) % 256 }

  lemma NextByteOf(v: nat, k: nat)
    requires k > 0
    ensures ByteOf(v, k) == ByteOf(v / 256, k - 1)
  {
    var m := Range(k - 1);
    var q := v / 256;
    assert v == 256 * q + v % 256 && q == m * (q / m) + q % m;
    assert 256 * (m * (q / m)) == (256 * m) * (q / m);
    assert 0 <= 256 * (q % m) + v % 256 < 256 * m;
    QuotientIsUnique(v, 256 * m, q / m, 256 * (q % m) + v % 256);
  }

  lemma LowByteOf(v: int)
    ensures ByteOf(v, 0) == v % 256
  {
    assert Range(0) == 1;
  }

  /** Where byte k of an n-byte number stands: last in big-endian order, first in the other. */
  function Place(k: int, n: int, big: bool): int { if big then n - 1 - k else k }

  lemma {:induction false} ToBytesOrder(v: nat, n: nat, big: bool, k: nat)
    requires k < n
    ensures ToBytes(v, n, big)[Place(k, n, big)] == ByteOf(v, k)
  {
    hide ByteOf;
    if k == 0 {
      LowByteOf(v);
    } else {
      NextByteOf(v, k);
      ToBytesOrder(v / 256, n - 1, big, k - 1);
    }
  }

  lemma {:induction false} FromBytesOrder(bs: seq<Byte>, big: bool, k: nat)
    requires k < |bs|
    ensures ByteOf(FromBytes(bs, big), k) == bs[Place(k, |bs|, big)]
  {
    hide ByteOf;
    var rest, first := if big then bs[..|bs| - 1] else bs[1..], if big then bs[|bs| - 1] else bs[0];
    assert FromBytes(bs, big) == 256 * FromBytes(rest, big) + first;
    QuotientIsUnique(FromBytes(bs, big), 256, FromBytes(rest, big), first);
    if k == 0 {
      LowByteOf(FromBytes(bs, big));
    } else {
      NextByteOf(FromBytes(bs, big), k);
      FromBytesOrder(rest, big, k - 1);
    }
  }

  /** Reading back what was just written, at any address and for any length short of the
      whole address space, returns it, and bytes elsewhere keep their value. */
  lemma ReadAfterWrite(m: Memory, a: U64, bs: seq<Byte>)
    requires |bs| < W64
    requires ReadBytes(m, a, |bs|).Some?
    ensures ReadBytes(WriteBytes(m, a, bs), a, |bs|) == Some(bs)
    ensures WriteBytes(m, a, bs).Keys == m.Keys
    ensures forall x: U64 :: x in m && Offset(a, x) >= |bs| ==> WriteBytes(m, a, bs)[x] == m[x]
  {
    var m' := WriteBytes(m, a, bs);
    forall k | 0 <= k < |bs|
      ensures At(a, k) in m' && m'[At(a, k)] == bs[k]
    {
      OffsetOfAt(a, k);
    }
    assert ReadBytes(m', a, |bs|).value == bs;
  }

  // ----- Branches and jumps

  datatype Cond =
    | Always
    | Eq | Ne | LeZ | GtZ | LtZ | GeZ
    | FpAny(cc: nat, count: nat, tf: bool)

  datatype Target = ToReg | InRegion(index: nat) | Relative(imm: nat)

  /** A decoded branch.  link is the register that receives the return address; 0 for none. */
  datatype Branch = Branch(cond: Cond, target: Target, rs: nat, rt: nat, link: nat, likely: bool)

  predicate WellFormed(b: Branch) {
    b.rs < 32 && b.rt < 32 && b.link < 32
  }

  /** Floating-point condition code k: bit 23 of FCSR for code 0, bit 24+k for the others. */
  predicate Fcc(f: bv32, k: nat) {
    match k
    case 0 => f & 0x0080_0000 != 0
    case 1 => f & 0x0200_0000 != 0
    case 2 => f & 0x0400_0000 != 0
    case 3 => f & 0x0800_0000 != 0
    case 4 => f & 0x1000_0000 != 0
    case 5 => f & 0x2000_0000 != 0
    case 6 => f & 0x4000_0000 != 0
    case 7 => f & 0x8000_0000 != 0
    case _ => false
  }

  /** Whether one of the count condition codes from cc upwards has the value tf. */
  predicate AnyFcc(f: bv32, cc: nat, count: nat, tf: bool) {
    exists k :: cc <= k < cc + count && k < 8 && Fcc(f, k) == tf
  }

  /** MIPS64 Volume II, chapter 3, and the MIPS-3D pages for BC1ANY2 and BC1ANY4.
      None: not a branch, or an encoding the architecture reserves. */
  function DecodeBranch(w: U32): (b: Option<Branch>)
    ensures b.Some? ==> WellFormed(b.value)
  {
    var op, rs, rt := Opcode(w), Rs(w), Rt(w);
    var rel := Relative(Imm(w));
    if op == 0x00 then
      if Funct(w) == 0x08 then Some(Branch(Always, ToReg, rs, 0, 0, false))
      else if Funct(w) == 0x09 then Some(Branch(Always, ToReg, rs, 0, Rd(w), false))
      else None
    else if op == 0x01 then
      match rt
      case 0x00 => Some(Branch(LtZ, rel, rs, 0, 0, false))
      case 0x01 => Some(Branch(GeZ, rel, rs, 0, 0, false))
      case 0x02 => Some(Branch(LtZ, rel, rs, 0, 0, true))
      case 0x03 => Some(Branch(GeZ, rel, rs, 0, 0, true))
      case 0x10 => Some(Branch(LtZ, rel, rs, 0, 31, false))
      case 0x11 => Some(Branch(GeZ, rel, rs, 0, 31, false))
      case 0x12 => Some(Branch(LtZ, rel, rs, 0, 31, true))
      case 0x13 => Some(Branch(GeZ, rel, rs, 0, 31, true))
      case _ => None
    else if op == 0x02 then Some(Branch(Always, InRegion(InstrIndex(w)), 0, 0, 0, false))
    else if op == 0x03 then Some(Branch(Always, InRegion(InstrIndex(w)), 0, 0, 31, false))
    else if op == 0x04 || op == 0x14 then Some(Branch(Eq, rel, rs, rt, 0, op == 0x14))
    else if op == 0x05 || op == 0x15 then Some(Branch(Ne, rel, rs, rt, 0, op == 0x15))
    else if (op == 0x06 || op == 0x16) && rt == 0 then Some(Branch(LeZ, rel, rs, 0, 0, op == 0x16))
    else if (op == 0x07 || op == 0x17) && rt == 0 then Some(Branch(GtZ, rel, rs, 0, 0, op == 0x17))
    else if op == 0x11 then
      var cc, likely, tf := rt / 4, (rt / 2) % 2 == 1, rt % 2 == 1;
      if rs == 0x8 then Some(Branch(FpAny(cc, 1, tf), rel, 0, 0, 0, likely))
      else if rs == 0x9 && !likely && cc % 2 == 0 then Some(Branch(FpAny(cc, 2, tf), rel, 0, 0, 0, false))
      else if rs == 0xa && !likely && cc % 4 == 0 then Some(Branch(FpAny(cc, 4, tf), rel, 0, 0, 0, false))
      else None
    else None
  }

  predicate Taken(b: Branch, regs: Regs, fcsr: bv32)
    requires WellFormed(b)
  {
    match b.cond
    case Always => true
    case Eq => regs[b.rs] == regs[b.rt]
    case Ne => regs[b.rs] != regs[b.rt]
    case LeZ => Signed(regs[b.rs], W64) <= 0
    case GtZ => Signed(regs[b.rs], W64) > 0
    case LtZ => Signed(regs[b.rs], W64) < 0
    case GeZ => Signed(regs[b.rs], W64) >= 0
    case FpAny(cc, count, tf) => AnyFcc(fcsr, cc, count, tf)
  }

  /** Where b goes when taken, b standing at pc. */
  function TargetPc(b: Branch, regs: Regs, pc: U64): U64
    requires WellFormed(b)
  {
    match b.target
    case ToReg => regs[b.rs]
    case InRegion(index) => Wrap(At(pc, 4) / 0x1000_0000 * 0x1000_0000 + 4 * index)
    case Relative(imm) => Wrap(pc + 4 + 4 * Signed(imm, W16))
  }

  // ----- Loads and stores

  /** A load or store that needs a size-aligned address.  emulated: one of LH, LHU, LW,
      LWU, LD, SH, SW, SD; the others are the coprocessor and LL/SC forms. */
  datatype Access = Access(size: nat, store: bool, signed: bool, emulated: bool)

  function DecodeAccess(w: U32): (a: Option<Access>)
    ensures a.Some? ==> a.value.size in {2, 4, 8}
  {
    match Opcode(w)
    case 0x21 => Some(Access(2, false, true, true))
    case 0x23 => Some(Access(4, false, true, true))
    case 0x25 => Some(Access(2, false, false, true))
    case 0x27 => Some(Access(4, false, false, true))
    case 0x37 => Some(Access(8, false, true, true))
    case 0x29 => Some(Access(2, true, false, true))
    case 0x2b => Some(Access(4, true, false, true))
    case 0x3f => Some(Access(8, true, false, true))
    case 0x30 => Some(Access(4, false, false, false))
    case 0x31 => Some(Access(4, false, false, false))
    case 0x32 => Some(Access(4, false, false, false))
    case 0x34 => Some(Access(8, false, false, false))
    case 0x35 => Some(Access(8, false, false, false))
    case 0x36 => Some(Access(8, false, false, false))
    case 0x38 => Some(Access(4, true, false, false))
    case 0x39 => Some(Access(4, true, false, false))
    case 0x3a => Some(Access(4, true, false, false))
    case 0x3c => Some(Access(8, true, false, false))
    case 0x3d => Some(Access(8, true, false, false))
    case 0x3e => Some(Access(8, true, false, false))
    case _ => None
  }

  function EffectiveAddress(w: U32, regs: Regs): U64 {
    Wrap(regs[Rs(w)] + Signed(Imm(w), W16))
  }

  /** The register image of a loaded number: sign- or zero-extended to 64 bits. */
  function Extend(v: nat, size: nat, signed: bool): U64 {
    Wrap(if signed then Signed(v, Range(size)) else v)
  }

  /** The access done natively at whatever alignment; None when it leaves mapped memory. */
  function DoAccess(w: U32, a: Access, c: Core, big: bool): Option<Core> {
    var ea := EffectiveAddress(w, c.regs);
    match ReadBytes(c.mem, ea, a.size)
    case None => None
    case Some(bs) =>
      if a.store
      then Some(c.(mem := WriteBytes(c.mem, ea, ToBytes(c.regs[Rt(w)], a.size, big))))
      else Some(c.(regs := SetReg(c.regs, Rt(w), Extend(FromBytes(bs, big), a.size, a.signed))))
  }

  /** The instruction word at a, or None when it is not mapped. */
  function Fetch(m: Memory, a: U64, big: bool): Option<U32> {
    match ReadBytes(m, a, 4)
    case None => None
    case Some(bs) =>
      assert Range(4) == W32 by { assert Range(1) == 256 && Range(2) == 0x1_0000; }
      Some(FromBytes(bs, big))
  }
}
