/**
  The guest machine: registers, little-endian byte memory, the predecoded
  program and two step functions over it.  `Ustep` is what the interpreter does
  (fused compare-and-swap, no reservations); `Istep` is LR/SC as section 8.2 of
  the RISC-V Unprivileged ISA (20191213) describes it.
*/
module Machine {
  import opened Common

  // ---------------------------------------------------------------- values

  /** A 64-bit register value, read as a signed integer. */
  type Word = v: int | -0x8000_0000_0000_0000 <= v < 0x8000_0000_0000_0000

  type Byte = b: int | 0 <= b < 256

  type Regs = x: seq<Word> | |x| == 32 witness seq(32, _ => 0)

  type Memory = seq<Byte>

  /** x0 reads as zero whatever the array holds. */
  function Get(x: Regs, n: int): Word {
    if 0 < n < 32 then x[n] else 0
  }

  function Set(x: Regs, n: int, v: Word): Regs {
    if 0 < n < 32 then x[n := v] else x
  }

  /** The operand width of `.w` and `.d`, in bytes. */
  datatype Width = W4 | W8 {
    function Bytes(): nat { if W4? then 4 else 8 }

    function Modulus(): nat {
      if W4? then 0x1_0000_0000 else 0x1_0000_0000_0000_0000
    }
  }

  /** Truncation to a signed integer of width `w`, then sign extension. */
  function Truncate(w: Width, v: int): Word {
    match w
    case W4 => (v + 0x8000_0000) % 0x1_0000_0000 - 0x8000_0000
    case W8 => (v + 0x8000_0000_0000_0000) % 0x1_0000_0000_0000_0000 - 0x8000_0000_0000_0000
  }

  function Zeros(n: nat): (s: seq<Byte>)
    ensures |s| == n
  {
    seq(n, _ => 0)
  }

  function Unsigned(bytes: seq<Byte>): nat {
    if bytes == [] then 0 else bytes[0] + 256 * Unsigned(bytes[1..])
  }

  function ToBytes(v: nat, n: nat): (s: seq<Byte>)
    ensures |s| == n
  {
    if n == 0 then [] else [v % 256] + ToBytes(v / 256, n - 1)
  }

  predicate InRange(mem: Memory, a: int, w: Width) {
    0 <= a && a + w.Bytes() <= |mem|
  }

  function Load(mem: Memory, a: int, w: Width): Word
    requires InRange(mem, a, w)
  {
    Truncate(w, Unsigned(mem[a..a + w.Bytes()]))
  }

  function Store(mem: Memory, a: int, w: Width, v: Word): (mem': Memory)
    requires InRange(mem, a, w)
    ensures |mem'| == |mem|
  {
    mem[..a] + ToBytes(v % w.Modulus(), w.Bytes()) + mem[a + w.Bytes()..]
  }

  // --------------------------------------------------------------- program

  datatype Opcode =
    | LrW | LrD | ScW | ScD | Bne | CBnez
    | Cas12W | Cas12D | Cas10W | Cas10D
    | Zero                  // an entry the predecode walk never wrote
    | Compressed(id: int)   // any other two-byte instruction
    | Plain(id: int)        // any other four-byte instruction

  /** A predecoded instruction, seen through the accessors of `Insn_t`. */
  datatype Insn = Insn(op: Opcode, rd: int, rs1: int, rs2: int, rs3: int, imm: int) {
    predicate IsLr() { op.LrW? || op.LrD? }
    predicate IsSc() { op.ScW? || op.ScD? }
    predicate IsBranch() { op.Bne? || op.CBnez? }
    predicate IsCas() { op.Cas12W? || op.Cas12D? || op.Cas10W? || op.Cas10D? }

    /** Opcodes are numbered with ZERO and the compressed ones first. */
    predicate IsCompressed() { op.Zero? || op.CBnez? || op.Compressed? }

    function Len(): nat { if IsCompressed() then 2 else 4 }

    /** The register a branch compares with: c.bnez compares with x0. */
    function TestReg(): int { if op.CBnez? then 0 else rs2 }

    function AccessWidth(): Width {
      if op.LrW? || op.ScW? || op.Cas12W? || op.Cas10W? then W4 else W8
    }

    /** What a fused instruction adds to the pc when the swap succeeds. */
    function FusedLen(): nat { if op.Cas10W? || op.Cas10D? then 10 else 12 }
  }

  /** The predecoded code segment: one entry for every two bytes. */
  datatype Code = Code(base: int, table: seq<Insn>) {
    function Limit(): int { base + 2 * |table| }
    predicate Valid(pc: int) { base <= pc < Limit() }
    function Index(pc: int): nat
      requires Valid(pc)
    {
      (pc - base) / 2
    }
    function At(pc: int): Insn
      requires Valid(pc)
    {
      table[Index(pc)]
    }
  }

  // --------------------------------------------------------------- machine

  datatype Hart = Hart(x: Regs, pc: int)

  datatype Machine = Machine(mem: Memory, harts: seq<Hart>)

  /** The bytes [addr, addr+len). */
  datatype Span = Span(addr: int, len: nat) {
    predicate Covers(s: Span) { addr <= s.addr && s.addr + s.len <= addr + len }
    predicate Overlaps(s: Span) { len > 0 && s.len > 0 && addr < s.addr + s.len && s.addr < addr + len }
  }

  /** A machine together with the reservation each hart holds, if any. */
  datatype Config = Config(m: Machine, resv: seq<Option<Span>>) {
    predicate Ok() { |resv| == |m.harts| }
  }

  /** What one of the other instructions does: new registers, pc, memory, and
      the bytes it stored to. */
  datatype Effect = Effect(x: Regs, pc: int, mem: Memory, stored: seq<Span>)

  /** The meaning of the instructions that fusion does not touch: any function
      of the instruction, the hart, memory and an outside input (a system
      call's result, say).  None is a fault. */
  type Semantics = (Insn, Hart, Memory, int) -> Option<Effect>

  predicate Touched(r: Option<Span>, stored: seq<Span>) {
    r.Some? && exists i :: 0 <= i < |stored| && r.value.Overlaps(stored[i])
  }

  /** A store by hart h breaks every other hart's reservation it touches. */
  function Break(resv: seq<Option<Span>>, h: nat, stored: seq<Span>): (r: seq<Option<Span>>)
    ensures |r| == |resv|
  {
    seq(|resv|, i requires 0 <= i < |resv| =>
      if i != h && Touched(resv[i], stored) then None else resv[i])
  }

  /** Hart h moves to (x, pc) and memory becomes mem. */
  function Update(m: Machine, h: nat, x: Regs, pc: int, mem: Memory): Machine
    requires h < |m.harts|
  {
    Machine(mem, m.harts[h := Hart(x, pc)])
  }

  // ------------------------------------- instructions shared by both machines

  predicate Taken(i: Insn, x: Regs) {
    Get(x, i.rs1) != Get(x, i.TestReg())
  }

  function BranchStep(i: Insn, c: Config, h: nat): Config
    requires c.Ok() && h < |c.resv| && i.IsBranch()
  {
    var hart := c.m.harts[h];
    var pc := if Taken(i, hart.x) then hart.pc + i.imm else hart.pc + i.Len();
    Config(Update(c.m, h, hart.x, pc, c.m.mem), c.resv)
  }

  function OtherStep(i: Insn, sem: Semantics, c: Config, h: nat, input: int): Option<Config>
    requires c.Ok() && h < |c.resv|
  {
    match sem(i, c.m.harts[h], c.m.mem, input)
    case None => None
    case Some(e) =>
      Some(Config(Update(c.m, h, e.x, e.pc, e.mem), Break(c.resv, h, e.stored)))
  }

  /** Load `i.rd` from the address in `i.rs1` and reserve the bytes read. */
  function LrStep(i: Insn, c: Config, h: nat): Option<Config>
    requires c.Ok() && h < |c.resv| && i.IsLr()
  {
    var hart, w := c.m.harts[h], i.AccessWidth();
    var a := Get(hart.x, i.rs1);
    if !InRange(c.m.mem, a, w) then None else
    Some(Config(Update(c.m, h, Set(hart.x, i.rd, Load(c.m.mem, a, w)), hart.pc + 4, c.m.mem),
                c.resv[h := Some(Span(a, w.Bytes()))]))
  }

  /** An SC that succeeds: store, write zero to `i.rd`, give up the reservation. */
  function ScStep(i: Insn, c: Config, h: nat): Option<Config>
    requires c.Ok() && h < |c.resv| && i.IsSc()
  {
    var hart, w := c.m.harts[h], i.AccessWidth();
    var a := Get(hart.x, i.rs1);
    if !InRange(c.m.mem, a, w) then None else
    Some(Config(Update(c.m, h, Set(hart.x, i.rd, 0), hart.pc + 4,
                       Store(c.m.mem, a, w, Get(hart.x, i.rs2))),
                Break(c.resv, h, [Span(a, w.Bytes())])[h := None]))
  }

  // ------------------------------------------------------ the ISA's machine

  predicate Aligned(a: int, w: Width) { a % w.Bytes() == 0 }

  predicate Reserved(c: Config, h: nat, a: int, w: Width)
    requires h < |c.resv|
  {
    c.resv[h].Some? && c.resv[h].value.Covers(Span(a, w.Bytes()))
  }

  function FailCode(code: int): (c: Word)
    ensures c != 0
  {
    if Truncate(W8, code) != 0 then Truncate(W8, code) else 1
  }

  /** An SC that fails: a nonzero code in `i.rd`, no store, reservation gone. */
  function ScFail(i: Insn, c: Config, h: nat, code: int): Config
    requires c.Ok() && h < |c.resv|
  {
    var hart := c.m.harts[h];
    Config(Update(c.m, h, Set(hart.x, i.rd, FailCode(code)), hart.pc + 4, c.m.mem), c.resv[h := None])
  }

  /** One scheduling choice: which hart moves, the outside input it sees, and
      whether an SC that may succeed does. */
  datatype Choice = Choice(hart: nat, input: int, succeed: bool)

  /** One step of the machine with LR/SC and reservations.  A misaligned or
      out-of-range access is an exception, and the fused opcodes do not exist. */
  function Istep(code: Code, sem: Semantics, c: Config, ch: Choice): (r: Option<Config>)
    requires c.Ok() && ch.hart < |c.resv|
    ensures r.Some? ==> r.value.Ok() && |r.value.resv| == |c.resv|
  {
    var h := ch.hart;
    var hart := c.m.harts[h];
    if !code.Valid(hart.pc) then None else
    var i := code.At(hart.pc);
    if i.IsLr() || i.IsSc() then
      var a, w := Get(hart.x, i.rs1), i.AccessWidth();
      if !Aligned(a, w) || !InRange(c.m.mem, a, w) then None
      else if i.IsLr() then LrStep(i, c, h)
      else if ch.succeed && Reserved(c, h, a, w) then ScStep(i, c, h)
      else Some(ScFail(i, c, h, ch.input))
    else if i.IsBranch() then Some(BranchStep(i, c, h))
    else if i.IsCas() then None
    else OtherStep(i, sem, c, h, ch.input)
  }

  function Irun(code: Code, sem: Semantics, c: Config, s: seq<Choice>): (r: Option<Config>)
    requires c.Ok() && forall k :: 0 <= k < |s| ==> s[k].hart < |c.resv|
    ensures r.Some? ==> r.value.Ok() && |r.value.resv| == |c.resv|
    decreases |s|
  {
    if s == [] then Some(c) else
    match Istep(code, sem, c, s[0])
    case None => None
    case Some(c1) => Irun(code, sem, c1, s[1..])
  }

  // ------------------------------------------------- the interpreter's machine

  /** The fused instruction: compare-and-swap on memory, the old value into the
      register the branch at pc+4 tests, zero into `i.rd` on success.  On failure
      control goes where that branch would have gone. */
  function CasStep(code: Code, i: Insn, c: Config, h: nat): Option<Config>
    requires c.Ok() && h < |c.resv| && i.IsCas()
  {
    var hart, w := c.m.harts[h], i.AccessWidth();
    var a := Get(hart.x, i.rs1);
    if !InRange(c.m.mem, a, w) || !code.Valid(hart.pc + 4) then None else
    var wanted := Truncate(w, Get(hart.x, i.rs2));
    var found := Load(c.m.mem, a, w);
    var branch := code.At(hart.pc + 4);
    var x := Set(hart.x, branch.rs1, found);
    if found == wanted then
      Some(Config(Update(c.m, h, Set(x, i.rd, 0), hart.pc + i.FusedLen(),
                         Store(c.m.mem, a, w, Get(hart.x, i.rs3))),
                  Break(c.resv, h, [Span(a, w.Bytes())])[h := None]))
    else
      Some(Config(Update(c.m, h, x, hart.pc + branch.imm + 4, c.m.mem),
                  c.resv[h := Some(Span(a, w.Bytes()))]))
  }

  /** One instruction of the interpreter.  `c.resv` rides along as the record of
      what an ISA machine would have reserved; no instruction reads it, since the
      interpreter's reservation check always answers yes. */
  function Ustep(code: Code, sem: Semantics, c: Config, h: nat, input: int): (r: Option<Config>)
    requires c.Ok() && h < |c.resv|
    ensures r.Some? ==> r.value.Ok() && |r.value.resv| == |c.resv|
  {
    var hart := c.m.harts[h];
    if !code.Valid(hart.pc) then None else
    var i := code.At(hart.pc);
    if i.IsLr() then LrStep(i, c, h)
    else if i.IsSc() then ScStep(i, c, h)
    else if i.IsBranch() then Some(BranchStep(i, c, h))
    else if i.IsCas() then CasStep(code, i, c, h)
    else OtherStep(i, sem, c, h, input)
  }

  /** Hart h executes one instruction, seeing `input`. */
  datatype Turn = Turn(hart: nat, input: int)

  function Urun(code: Code, sem: Semantics, c: Config, s: seq<Turn>): (r: Option<Config>)
    requires c.Ok() && forall k :: 0 <= k < |s| ==> s[k].hart < |c.resv|
    ensures r.Some? ==> r.value.Ok() && |r.value.resv| == |c.resv|
    decreases |s|
  {
    if s == [] then Some(c) else
    match Ustep(code, sem, c, s[0].hart, s[0].input)
    case None => None
    case Some(c1) => Urun(code, sem, c1, s[1..])
  }

  // ---------------------------------------------------------------- lemmas

  function Power256(n: nat): nat {
    if n == 0 then 1 else 256 * Power256(n - 1)
  }

  lemma {:induction false} UnsignedToBytes(v: nat, n: nat)
    requires v < Power256(n)
    ensures Unsigned(ToBytes(v, n)) == v
  {
    if n > 0 {
      UnsignedToBytes(v / 256, n - 1);
      assert ToBytes(v, n)[1..] == ToBytes(v / 256, n - 1);
    }
  }

  lemma {:induction false} UnsignedZeros(b: seq<Byte>)
    requires forall k :: 0 <= k < |b| ==> b[k] == 0
    ensures Unsigned(b) == 0
  {
    if b != [] { UnsignedZeros(b[1..]); }
  }

  lemma ModulusIsPower(w: Width)
    ensures Power256(w.Bytes()) == w.Modulus()
  {
    assert Power256(3) == 0x100_0000;
    assert Power256(6) == 0x1_0000_0000_0000;
  }

  /** A load returns what the last store of the same width left there, truncated
      and sign-extended. */
  lemma LoadAfterStore(mem: Memory, a: int, w: Width, v: Word)
    requires InRange(mem, a, w)
    ensures Load(Store(mem, a, w, v), a, w) == Truncate(w, v)
  {
    var n := v % w.Modulus();
    var bytes := ToBytes(n, w.Bytes());
    assert Store(mem, a, w, v)[a..a + w.Bytes()] == bytes;
    ModulusIsPower(w);
    UnsignedToBytes(n, w.Bytes());
    TruncateMod(w, v);
  }

  lemma TruncateMod(w: Width, v: int)
    ensures Truncate(w, v % w.Modulus()) == Truncate(w, v)
  {
    RemainderPlus(v, w.Modulus() / 2, w.Modulus());
  }

  /** The interpreter never looks at reservations: configurations that differ
      only there step to configurations that differ only there. */
  lemma UspikeIgnoresReservations(code: Code, sem: Semantics, c: Config, d: Config, h: nat, input: int)
    requires c.Ok() && d.Ok() && c.m == d.m && h < |c.resv|
    ensures Ustep(code, sem, c, h, input).Some? <==> Ustep(code, sem, d, h, input).Some?
    ensures Ustep(code, sem, c, h, input).Some? ==>
              Ustep(code, sem, c, h, input).value.m == Ustep(code, sem, d, h, input).value.m
  {
  }
}
