/**
  The packed predecoded instruction: 64 bits, with a short or a long immediate
  told apart by one tag bit, and the choice of how to build it.
*/
module Packing {
  import opened Common
  import opened Bits
  import opened Layout
  import opened Codec

  type Int8 = v: int | -128 <= v < 128

  const NOREG: Int8 := -1

  function ToInt8(v: int): Int8 {
    (v + 128) % 256 - 128
  }

  /** One byte as a signed number, and back. */
  function ByteValue(b: Bits): Int8
    requires |b| == 8
  {
    FromToNat(b);
    assert Pow2(8) == 256 by { assert Pow2(4) == 16; }
    ToInt8(ToNat(b))
  }

  function ByteBits(v: Int8): (b: Bits)
    ensures |b| == 8
  {
    FromNat(v % 256, 8)
  }

  /** An instruction.  `low` is the upper half of the 64 bits: either a long
      immediate, or a 16-bit short one below the bytes of rs2 and rs3. */
  datatype Insn = Insn(op: int, op_rd: Int8, op_rs1: Int8, low: Word) {
    function Rd(): Int8 { op_rd }
    function Rs1(): Int8 { op_rs1 }
    function Rs2(): Int8 { ByteValue(low[16..24]) }
    function Rs3(): Int8 { ByteValue(low[24..32]) }

    /** The tag bit says which immediate it is; a short one is a 13-bit signed
        number above three flag bits. */
    function Immed(): Word {
      if low[0] then SignExtend(low[3..16]) else low
    }
  }

  function Blank(op: int): Insn { Insn(op, NOREG, NOREG, Ones(32)) }

  function SetRs2(i: Insn, rs2: int): Insn {
    i.(low := i.low[..16] + ByteBits(ToInt8(rs2)) + i.low[24..])
  }

  function SetRs3(i: Insn, rs3: int): Insn {
    i.(low := i.low[..24] + ByteBits(ToInt8(rs3)))
  }

  /** imm<<3|1, truncated to 16 bits. */
  function ShortImmediate(imm: Word): (b: Bits)
    ensures |b| == 16
  {
    [true, false, false] + imm[..13]
  }

  function WithShort(op: int, rd: int, imm: Word): Insn {
    Insn(op, ToInt8(rd), NOREG, ShortImmediate(imm) + Ones(16))
  }

  function Reg1Insn(op: int, rd: int, rs1: int): Insn {
    Blank(op).(op_rd := ToInt8(rd), op_rs1 := ToInt8(rs1))
  }

  function Reg2Insn(op: int, rd: int, rs1: int, rs2: int): Insn {
    SetRs2(Reg1Insn(op, rd, rs1), rs2)
  }

  function Reg3Insn(op: int, rd: int, rs1: int, rs2: int, rs3: int): Insn {
    SetRs3(Reg2Insn(op, rd, rs1, rs2), rs3)
  }

  function Reg0Imm(op: int, rd: int, imm: Word): Insn {
    Blank(op).(op_rd := ToInt8(rd), low := imm)
  }

  function Reg1Imm(op: int, rd: int, rs1: int, imm: Word): Insn {
    WithShort(op, rd, imm).(op_rs1 := ToInt8(rs1))
  }

  function Reg2Imm(op: int, rd: int, rs1: int, rs2: int, imm: Word): Insn {
    SetRs2(Reg1Imm(op, rd, rs1, imm), rs2)
  }

  /** The builder the generated decoder calls for a compiled layout. */
  function Build(op: int, d: Decode, w: Word): Insn
    requires |d.regs| == 4
  {
    var r0, r1, r2, r3 := EvalReg(d.regs[0], w), EvalReg(d.regs[1], w), EvalReg(d.regs[2], w), EvalReg(d.regs[3], w);
    var imm := EvalImm(d.immed, w);
    if d.big then Reg0Imm(op, r0, imm)
    else if d.regs[3] != NoReg then Reg3Insn(op, r0, r1, r2, r3)
    else if d.immed == [] then (if d.regs[2] != NoReg then Reg2Insn(op, r0, r1, r2) else Reg1Insn(op, r0, r1))
    else (if d.regs[2] != NoReg then Reg2Imm(op, r0, r1, r2, imm) else Reg1Imm(op, r0, r1, imm))
  }

  // ------------------------------------------------------------- round trips

  lemma BytesRoundTrip(v: int)
    requires -128 <= v < 128
    ensures ToInt8(v) == v
    ensures ByteValue(ByteBits(v)) == v
  {
    hide FromNat, ToNat;
    PowEight();
    ToFromNat(v % 256, 8);
  }

  lemma PowEight()
    ensures Pow2(8) == 256
  {
    assert Pow2(4) == 16;
  }

  lemma OnesIsNoReg()
    ensures ByteValue(Ones(8)) == NOREG
  {
    hide FromNat, ToNat;
    PowEight();
    BytesRoundTrip(-1);
    OnesFromNat(8);
  }

  lemma {:induction false} OnesFromNat(n: nat)
    ensures Pow2(n) > 0 && FromNat(Pow2(n) - 1, n) == Ones(n)
  {
    if n > 0 {
      OnesFromNat(n - 1);
      var v := Pow2(n) - 1;
      assert v % 2 == 1 && v / 2 == Pow2(n - 1) - 1;
      assert FromNat(v, n) == [true] + FromNat(v / 2, n - 1);
      assert Ones(n) == [true] + Ones(n - 1);
    }
  }

  lemma SetRs2Reads(i: Insn, v: int)
    requires -128 <= v < 128
    ensures SetRs2(i, v).Rd() == i.Rd() && SetRs2(i, v).Rs1() == i.Rs1()
    ensures SetRs2(i, v).Rs2() == v && SetRs2(i, v).Rs3() == i.Rs3() && SetRs2(i, v).Immed() == if i.low[0] then i.Immed() else SetRs2(i, v).low
  {
    hide ByteValue, ByteBits, ToInt8;
    BytesRoundTrip(v);
    var j := SetRs2(i, v);
    assert j.low[16..24] == ByteBits(v);
    assert j.low[24..32] == i.low[24..32];
    assert j.low[3..16] == i.low[3..16];
  }

  lemma SetRs3Reads(i: Insn, v: int)
    requires -128 <= v < 128
    ensures SetRs3(i, v).Rd() == i.Rd() && SetRs3(i, v).Rs1() == i.Rs1()
    ensures SetRs3(i, v).Rs3() == v && SetRs3(i, v).Rs2() == i.Rs2()
  {
    hide ByteValue, ByteBits, ToInt8;
    BytesRoundTrip(v);
    var j := SetRs3(i, v);
    assert j.low[24..32] == ByteBits(v);
    assert j.low[16..24] == i.low[16..24];
  }

  lemma BlankReads(op: int, imm: Word)
    ensures Blank(op).Rs2() == NOREG && Blank(op).Rs3() == NOREG
    ensures WithShort(op, NOREG, imm).Rs2() == NOREG && WithShort(op, NOREG, imm).Rs3() == NOREG
  {
    OnesIsNoReg();
    hide ByteValue, ShortImmediate, ToInt8;
    assert Ones(32)[16..24] == Ones(8) && Ones(32)[24..32] == Ones(8);
    var low := WithShort(op, NOREG, imm).low;
    assert low[16..] == Ones(16);
    assert low[16..24] == low[16..][..8] == Ones(8);
    assert low[24..32] == low[16..][8..] == Ones(8);
  }

  /** The value fits 13 bits as a signed number. */
  predicate FitsShort(imm: Word) {
    forall k :: 12 <= k < 32 ==> imm[k] == imm[12]
  }

  /** A short immediate reads back exactly when it fits 13 signed bits. */
  lemma ShortReads(op: int, rd: int, imm: Word)
    ensures var low := WithShort(op, rd, imm).low; low[0] && !low[1] && !low[2]
    ensures WithShort(op, rd, imm).Immed() == imm <==> FitsShort(imm)
  {
    var i := WithShort(op, rd, imm);
    assert i.low[3..16] == imm[..13];
    var v := i.Immed();
    assert v == imm[..13] + seq(19, _ => imm[..13][12]);
    assert forall k :: 12 <= k < 32 ==> v[k] == imm[12];
    assert forall k :: 0 <= k < 12 ==> v[k] == imm[k];
    if FitsShort(imm) { assert v == imm; }
  }

  /** A long immediate reads back exactly when it is even, or is -1. */
  lemma LongReads(op: int, rd: int, imm: Word)
    ensures Reg0Imm(op, rd, imm).Immed() == imm <==> !imm[0] || imm == Ones(32)
  {
    var v := Reg0Imm(op, rd, imm).Immed();
    if imm[0] {
      assert v == imm[3..16] + seq(19, _ => imm[3..16][12]);
      if v == imm {
        AllSame(imm);
      }
    }
  }

  lemma AllSame(imm: Word)
    requires imm[0] && imm == imm[3..16] + seq(19, _ => imm[3..16][12])
    ensures imm == Ones(32)
  {
    assert forall k :: 0 <= k < 13 ==> imm[k] == imm[k + 3];
    assert forall k :: 13 <= k < 32 ==> imm[k] == imm[15];
    assert imm[3] && imm[6] && imm[9] && imm[12] && imm[15];
    assert imm[13] && imm[10] && imm[7] && imm[4] && imm[1];
    assert imm[14] && imm[11] && imm[8] && imm[5] && imm[2];
  }

  /** Register numbers small enough for the signed byte they are packed in. */
  predicate Small(d: Decode, w: Word) {
    |d.regs| == 4 && forall k :: 0 <= k < 4 ==> -1 <= EvalReg(d.regs[k], w) < 128
  }

  /** Packing keeps rd always; all four registers unless the immediate is long;
      and the immediate exactly when it fits the form it was given. */
  lemma PackedReads(op: int, d: Decode, w: Word)
    requires Small(d, w)
    ensures Build(op, d, w).Rd() == EvalReg(d.regs[0], w)
    ensures d.big ==> Build(op, d, w).Rs1() == -1
    ensures !d.big ==>
              && Build(op, d, w).Rs1() == EvalReg(d.regs[1], w)
              && Build(op, d, w).Rs2() == EvalReg(d.regs[2], w)
              && Build(op, d, w).Rs3() == EvalReg(d.regs[3], w)
    ensures d.big ==> (Build(op, d, w).Immed() == EvalImm(d.immed, w) <==>
                       !EvalImm(d.immed, w)[0] || EvalImm(d.immed, w) == Ones(32))
    ensures !d.big && d.regs[3] == NoReg && d.immed != [] ==>
              (Build(op, d, w).Immed() == EvalImm(d.immed, w) <==> FitsShort(EvalImm(d.immed, w)))
  {
    hide EvalImm, ByteValue, ByteBits, ToInt8, FitsShort, SetRs2, SetRs3, ShortImmediate;
    var r0, r1, r2, r3 := EvalReg(d.regs[0], w), EvalReg(d.regs[1], w), EvalReg(d.regs[2], w), EvalReg(d.regs[3], w);
    var imm := EvalImm(d.immed, w);
    BytesRoundTrip(r0);
    BytesRoundTrip(r1);
    BlankReads(op, imm);
    LongReads(op, r0, imm);
    ShortReads(op, r0, imm);
    SetRs2Reads(Reg1Insn(op, r0, r1), r2);
    SetRs2Reads(Reg1Imm(op, r0, r1, imm), r2);
    SetRs3Reads(Reg2Insn(op, r0, r1, r2), r3);
  }

  /** The highest bit of an immediate is written first. */
  predicate HighestFirst(l: Layout) {
    forall i, j :: 0 <= i < |l| && l[i].Immediate? && 0 <= j < |l[i].parts| ==> l[i].parts[j].hi <= l[i].parts[0].hi
  }

  /** Where the compiler chooses the short form, it holds every immediate the
      layout can hold, but for the unsigned ones that fill all thirteen bits and
      have the highest set. */
  lemma ShortHolds(l: Layout, imm: Word)
    requires !Big(l) && HighestFirst(l) && Representable(l, imm)
    ensures FitsShort(imm) <==> !(imm[12] && !imm[13])
  {
    BigIs(l);
    forall k | 13 <= k < 32 ensures !Covered(l, k) && (SignBelow(l, imm, k) <==> SignBelow(l, imm, 13)) {
      if SignBelow(l, imm, k) {
        var i :| 0 <= i < |l| && l[i].Immediate? && l[i].signed && l[i].parts[0].hi < k && HighBit(l[i].parts[0], imm);
        assert l[i].parts[0].hi < 13;
      }
      if SignBelow(l, imm, 13) {
        var i :| 0 <= i < |l| && l[i].Immediate? && l[i].signed && l[i].parts[0].hi < 13 && HighBit(l[i].parts[0], imm);
      }
    }
    if imm[13] {
      var i :| 0 <= i < |l| && l[i].Immediate? && l[i].signed && l[i].parts[0].hi < 13 && HighBit(l[i].parts[0], imm);
      assert l[i].parts[0].hi < 12 ==> SignBelow(l, imm, 12);
    }
  }

  // ------------------------------------------------------- the register table

  const GPREG: nat := 0
  const FPREG: nat := 32
  const VPREG: nat := 64
  const VMREG: nat := 96

  /** The register fields a layout may name. */
  datatype RegName =
    | Cfd | Crd | Cs2 | Ds2 | Fs4 | Rs4 | Cs1 | Cd1 | Rd1 | Rs5
    | Rd | Fd | Vd | Vs3 | Rs1 | Fs1 | Vs1 | Rs2 | Fs2 | Vs2 | Rs3 | Fs3 | Vm

  /** Where each lies, its width, what is added to it, and the registers it
      gives. */
  function RegField(name: RegName): Field {
    match name
    case Cfd => Field(2, 3, 8 + FPREG, [0])
    case Crd => Field(2, 3, 8 + GPREG, [0])
    case Cs2 => Field(2, 3, 8 + GPREG, [2])
    case Ds2 => Field(2, 3, 8 + FPREG, [2])
    case Fs4 => Field(2, 5, FPREG, [2])
    case Rs4 => Field(2, 5, GPREG, [2])
    case Cs1 => Field(7, 3, 8 + GPREG, [1])
    case Cd1 => Field(7, 3, 8 + GPREG, [0, 1])
    case Rd1 => Field(7, 5, GPREG, [0, 1])
    case Rs5 => Field(7, 5, GPREG, [1])
    case Rd => Field(7, 5, GPREG, [0])
    case Fd => Field(7, 5, FPREG, [0])
    case Vd => Field(7, 5, VPREG, [0])
    case Vs3 => Field(7, 5, VPREG, [3])
    case Rs1 => Field(15, 5, GPREG, [1])
    case Fs1 => Field(15, 5, FPREG, [1])
    case Vs1 => Field(15, 5, VPREG, [1])
    case Rs2 => Field(20, 5, GPREG, [2])
    case Fs2 => Field(20, 5, FPREG, [2])
    case Vs2 => Field(20, 5, VPREG, [2])
    case Rs3 => Field(27, 5, GPREG, [3])
    case Fs3 => Field(27, 5, FPREG, [3])
    case Vm => Field(25, 1, VMREG, [3])
  }

  predicate LiesAt(name: RegName, lo: nat, width: nat, targets: seq<nat>) {
    RegField(name).lo == lo && RegField(name).width == width && RegField(name).targets == targets
  }

  /** The table by instruction format: where the register fields of the 32-bit and
      of the 16-bit instructions lie and which register each gives. */
  lemma TableByFormat(n: RegName)
    ensures n in {RegName.Rd, Fd, Vd} ==> LiesAt(n, 7, 5, [0])
    ensures n in {RegName.Rs1, Fs1, Vs1} ==> LiesAt(n, 15, 5, [1])
    ensures n in {RegName.Rs2, Fs2, Vs2} ==> LiesAt(n, 20, 5, [2])
    ensures n in {RegName.Rs3, Fs3} ==> LiesAt(n, 27, 5, [3])
    ensures n == Vs3 ==> LiesAt(n, 7, 5, [3])
    ensures n == Vm ==> LiesAt(n, 25, 1, [3])
    ensures n == Rd1 ==> LiesAt(n, 7, 5, [0, 1])
    ensures n == Rs5 ==> LiesAt(n, 7, 5, [1])
    ensures n == Cd1 ==> LiesAt(n, 7, 3, [0, 1])
    ensures n == Cs1 ==> LiesAt(n, 7, 3, [1])
    ensures n in {Crd, Cfd} ==> LiesAt(n, 2, 3, [0])
    ensures n in {Cs2, Ds2} ==> LiesAt(n, 2, 3, [2])
    ensures n in {Rs4, Fs4} ==> LiesAt(n, 2, 5, [2])
  {
  }

  /** And by register file: integer registers are numbered from 0, floating-point
      ones from 32, vector ones from 64 and the mask from 96; the three-bit fields
      reach the eight registers from number 8 of their file. */
  lemma TableByFile(n: RegName)
    ensures RegField(n).offset ==
              (if n in {Fd, Fs1, Fs2, Fs3, Fs4, Cfd, Ds2} then 32 else if n in {Vd, Vs1, Vs2, Vs3} then 64
               else if n == Vm then 96 else 0)
              + if RegField(n).width == 3 then 8 else 0
  {
  }

  predicate IsRegField(f: Field) {
    exists n :: f == RegField(n)
  }

  predicate FromTable(l: Layout) {
    forall i :: 0 <= i < |l| && l[i].Register? ==> IsRegField(l[i].field)
  }

  lemma TableFieldsAreSmall(f: Field)
    requires IsRegField(f)
    ensures f.lo + f.width <= 32 && f.targets != []
    ensures f.offset + Pow2(f.width) <= 128
  {
    assert Pow2(1) == 2 && Pow2(3) == 8 && Pow2(5) == 32 by { assert Pow2(2) == 4; }
  }

  predicate ExprSmall(e: RegExpr) {
    e.Extract? ==> e.lo + e.width <= 32 && e.offset + Pow2(e.width) <= 128
  }

  lemma {:induction false} RegsAreSmall(l: Layout, regs: seq<RegExpr>, k: nat)
    requires |regs| == 4 && k < 4 && FromTable(l)
    requires ExprSmall(regs[k]) && (regs[k].Fixed? ==> regs[k].n < 128)
    ensures ExprSmall(Regs(regs, l)[k]) && (Regs(regs, l)[k].Fixed? ==> Regs(regs, l)[k].n < 128)
    decreases |l|
  {
    hide SetTargets, ExprSmall;
    if l != [] {
      assert FromTable(l[1..]) by { assert forall i :: 0 <= i < |l[1..]| ==> l[1..][i] == l[i + 1]; }
      if l[0].Register? {
        var f := l[0].field;
        assert PieceOk(l[0]);
        TableFieldsAreSmall(f);
        assert ExprSmall(Extract(f.lo, f.width, f.offset)) by { SmallField(f); }
        SetTargetsAt(regs, f.targets, Extract(f.lo, f.width, f.offset), k);
        RegsAreSmall(l[1..], SetTargets(regs, f.targets, Extract(f.lo, f.width, f.offset)), k);
      } else {
        RegsAreSmall(l[1..], regs, k);
      }
    }
  }

  lemma SmallField(f: Field)
    requires f.lo + f.width <= 32 && f.offset + Pow2(f.width) <= 128
    ensures ExprSmall(Extract(f.lo, f.width, f.offset))
  {
  }

  lemma SmallValue(e: RegExpr, w: Word)
    requires ExprSmall(e) && (e.Fixed? ==> e.n < 128)
    ensures -1 <= EvalReg(e, w) < 128
  {
    if e.Extract? { FromToNat(w[e.lo..e.lo + e.width]); }
  }

  /** With fields from the table every register number fits its byte. */
  lemma TableIsSmall(kind: Kind, l: Layout, w: Word)
    requires FromTable(l) && Compiled(kind, l).Some?
    ensures Small(Compiled(kind, l).value, w)
  {
    hide EvalReg, Regs, Imms, Code, Mask, FromTable;
    forall k | 0 <= k < 4
      ensures -1 <= EvalReg(Regs(Defaults(kind), l)[k], w) < 128
    {
      RegsAreSmall(l, Defaults(kind), k);
      SmallValue(Regs(Defaults(kind), l)[k], w);
    }
  }

  // -------------------------------------------------------------- end to end

  /** The accessors return what was encoded, or what the type implies: rd always; the
      other registers unless the immediate is long, which leaves no room for them;
      the immediate when the layout can hold it and it fits the form it is packed
      in. */
  predicate Recovers(i: Insn, d: Decode, kind: Kind, l: Layout, o: Operands)
    requires o.Ok()
  {
    && (if d.big then i.Rs1() == -1 && (0 !in TargetsOf(l) ==> i.Rd() == if kind == Cds then 2 else if kind == Cjl then 1 else -1)
        else Implied(kind, TargetsOf(l), i.Rd(), i.Rs1(), i.Rs2(), i.Rs3()))
    && (0 in TargetsOf(l) ==> i.Rd() == o.regs[0])
    && (!d.big && 1 in TargetsOf(l) ==> i.Rs1() == o.regs[1])
    && (!d.big && 2 in TargetsOf(l) ==> i.Rs2() == o.regs[2])
    && (!d.big && 3 in TargetsOf(l) ==> i.Rs3() == o.regs[3])
    && (Representable(l, o.imm) && d.big && !o.imm[0] ==> i.Immed() == o.imm)
    && (Representable(l, o.imm) && !d.big && 3 !in TargetsOf(l) && d.immed != [] && FitsShort(o.imm) ==> i.Immed() == o.imm)
  }

  /** From operands to bits to a packed instruction and back, for every layout with
      fields from the register table. */
  lemma DecoderRoundTrip(op: int, kind: Kind, l: Layout, o: Operands, w: Word)
    requires Compiled(kind, l).Some? && Placed(l, 0) && TargetsApart(l) && FromTable(l)
    requires o.Ok() && RegsFit(l, o) && w[..Width(l)] == Encode(l, o)
    ensures var d := Compiled(kind, l).value;
            Matches(w, d.mask, d.code) && Recovers(Build(op, d, w), d, kind, l, o)
  {
    hide EvalReg, EvalImm, Regs, Imms, Code, Mask, FromTable, Matches, Encode, Small, Placed, TargetsApart, RegsFit, Representable, FitsShort, Insn.Rs2, Insn.Rs3, Insn.Immed, Build;
    var d := Compiled(kind, l).value;
    EncodeThenDecode(kind, l, o, w);
    TableIsSmall(kind, l, w);
    PackedReads(op, d, w);
    RegsAt(l, Defaults(kind), |l|, 3);
  }
}
