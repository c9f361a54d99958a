/**
  Instruction layouts: literal bits, register fields and immediate pieces.  The
  compiler turns a layout into a mask, a code and extraction expressions; encoding
  and decoding with them undo each other.
*/
module Layout {
  import opened Common
  import opened Bits

  // ---------------------------------------------------------------- layouts

  /** Bits hi..lo of the immediate, as one contiguous piece of the instruction. */
  datatype Part = Part(hi: nat, lo: nat) {
    predicate Ok() { lo <= hi < 32 }
    function Width(): nat
      requires Ok()
    {
      hi - lo + 1
    }
  }

  /** A named register field: where the register table says it lies, its width,
      what is added to it, and which of rd, rs1, rs2, rs3 it gives. */
  datatype Field = Field(lo: nat, width: nat, offset: nat, targets: seq<nat>)

  /** One item of a layout.  Literal bits are lowest first; the parts of an
      immediate are in written order, highest first, and a minus sign makes the
      first of them signed. */
  datatype Piece =
    | Literal(bits: Bits)
    | Immediate(signed: bool, parts: seq<Part>)
    | Register(field: Field)

  predicate PieceOk(p: Piece) {
    match p
    case Literal(_) => true
    case Immediate(_, parts) => parts != [] && forall i :: 0 <= i < |parts| ==> parts[i].Ok()
    case Register(f) => f.lo + f.width <= 32 && forall i :: 0 <= i < |f.targets| ==> f.targets[i] < 4
  }

  type Layout = l: seq<Piece> | forall i :: 0 <= i < |l| ==> PieceOk(l[i]) witness []

  function PartsWidth(parts: seq<Part>): nat
    requires forall i :: 0 <= i < |parts| ==> parts[i].Ok()
  {
    if parts == [] then 0 else PartsWidth(parts[1..]) + parts[0].Width()
  }

  function PieceWidth(p: Piece): nat
    requires PieceOk(p)
  {
    match p
    case Literal(bits) => |bits|
    case Immediate(_, parts) => PartsWidth(parts)
    case Register(f) => f.width
  }

  /** Layouts run from the lowest bit up. */
  function Width(l: Layout): nat {
    if l == [] then 0 else PieceWidth(l[0]) + Width(l[1..])
  }

  // ------------------------------------------------------- compiled layouts

  /** One immediate piece: x or xs of `len` bits at `pos`, shifted left. */
  datatype ImmExpr = ImmExpr(signed: bool, pos: nat, len: nat, shift: nat)

  /** How one register number is obtained. */
  datatype RegExpr = NoReg | Fixed(n: nat) | Extract(lo: nat, width: nat, offset: nat)

  datatype Decode = Decode(mask: Bits, code: Bits, regs: seq<RegExpr>, immed: seq<ImmExpr>, big: bool, len: nat)

  function PartsImms(signed: bool, parts: seq<Part>, pos: nat): seq<ImmExpr>
    requires forall i :: 0 <= i < |parts| ==> parts[i].Ok()
  {
    if parts == [] then [] else
    PartsImms(false, parts[1..], pos) +
      [ImmExpr(signed, pos + PartsWidth(parts[1..]), parts[0].Width(), parts[0].lo)]
  }

  function Imms(l: Layout, pos: nat): seq<ImmExpr> {
    if l == [] then [] else
    (if l[0].Immediate? then PartsImms(l[0].signed, l[0].parts, pos) else [])
      + Imms(l[1..], pos + PieceWidth(l[0]))
  }

  function SetTargets(regs: seq<RegExpr>, targets: seq<nat>, e: RegExpr): (r: seq<RegExpr>)
    requires forall i :: 0 <= i < |targets| ==> targets[i] < |regs|
    ensures |r| == |regs|
    decreases |targets|
  {
    if targets == [] then regs else SetTargets(regs[targets[0] := e], targets[1..], e)
  }

  function Regs(regs: seq<RegExpr>, l: Layout): (r: seq<RegExpr>)
    requires |regs| == 4
    ensures |r| == 4
    decreases |l|
  {
    if l == [] then regs else
    Regs(if l[0].Register? then SetTargets(regs, l[0].field.targets, Extract(l[0].field.lo, l[0].field.width, l[0].field.offset)) else regs,
         l[1..])
  }

  function Code(l: Layout): (b: Bits)
    ensures |b| == Width(l)
  {
    if l == [] then [] else
    (if l[0].Literal? then l[0].bits else Zeros(PieceWidth(l[0]))) + Code(l[1..])
  }

  function Mask(l: Layout): (b: Bits)
    ensures |b| == Width(l)
  {
    if l == [] then [] else
    (if l[0].Literal? then Ones(|l[0].bits|) else Zeros(PieceWidth(l[0]))) + Mask(l[1..])
  }

  predicate Big(l: Layout) {
    l != [] && ((l[0].Immediate? && l[0].parts[0].hi >= 13) || Big(l[1..]))
  }

  /** Some immediate is written from bit 13 or above: too wide for a short one. */
  lemma {:induction false} BigIs(l: Layout)
    ensures Big(l) <==> exists i :: 0 <= i < |l| && l[i].Immediate? && l[i].parts[0].hi >= 13
  {
    if l != [] {
      var rest := l[1..];
      BigIs(rest);
      if i :| 0 <= i < |rest| && rest[i].Immediate? && rest[i].parts[0].hi >= 13 {
        assert l[i + 1] == rest[i];
      }
      if i :| 0 <= i < |l| && l[i].Immediate? && l[i].parts[0].hi >= 13 {
        assert i > 0 ==> rest[i - 1] == l[i];
      }
    }
  }

  /** The register expressions a layout of the given type starts from. */
  datatype Kind = Csl | Css | Crs | Cds | Cjl | OtherKind

  function Defaults(kind: Kind): (r: seq<RegExpr>)
    ensures |r| == 4
  {
    match kind
    case Csl => [NoReg, Fixed(2), NoReg, NoReg]
    case Css => [NoReg, Fixed(2), NoReg, NoReg]
    case Crs => [NoReg, Fixed(2), NoReg, NoReg]
    case Cds => [Fixed(2), Fixed(2), NoReg, NoReg]
    case Cjl => [Fixed(1), NoReg, NoReg, NoReg]
    case OtherKind => [NoReg, NoReg, NoReg, NoReg]
  }

  /** The compiled layout, or None if it is neither 16 nor 32 bits wide. */
  function Compiled(kind: Kind, l: Layout): Option<Decode> {
    if Width(l) != 16 && Width(l) != 32 then None else
    Some(Decode(Mask(l), Code(l), Regs(Defaults(kind), l), Imms(l, 0), Big(l), Width(l) / 8))
  }

  lemma NoParts(start: nat)
    ensures PartsWidth([]) == 0 && PartsImms(false, [], start) == []
  {
  }

  /** Part j of what is left, split off. */
  lemma UnfoldParts(signed: bool, parts: seq<Part>, j: nat, start: nat)
    requires j < |parts| && forall i :: 0 <= i < |parts| ==> parts[i].Ok()
    ensures PartsWidth(parts[j..]) == PartsWidth(parts[j + 1..]) + parts[j].Width()
    ensures PartsImms(signed, parts[j..], start)
            == PartsImms(false, parts[j + 1..], start)
               + [ImmExpr(signed, start + PartsWidth(parts[j + 1..]), parts[j].Width(), parts[j].lo)]
  {
    assert parts[j..][0] == parts[j] && parts[j..][1..] == parts[j + 1..];
  }

  /** The parts of one immediate, lowest first. */
  method CompileImmediate(signed: bool, parts: seq<Part>, start: nat, before: seq<ImmExpr>)
    returns (pos: nat, immed: seq<ImmExpr>)
    requires parts != [] && forall i :: 0 <= i < |parts| ==> parts[i].Ok()
    ensures pos == start + PartsWidth(parts)
    ensures immed == before + PartsImms(signed, parts, start)
  {
    NoParts(start);
    hide PartsWidth, PartsImms;
    pos, immed := start, before;
    var j := |parts| - 1;
    assert parts[j + 1..] == [];
    while j > 0
      invariant 0 <= j < |parts|
      invariant pos == start + PartsWidth(parts[j + 1..])
      invariant immed == before + PartsImms(false, parts[j + 1..], start)
    {
      UnfoldParts(false, parts, j, start);
      immed := immed + [ImmExpr(false, pos, parts[j].Width(), parts[j].lo)];
      pos := pos + parts[j].Width();
      j := j - 1;
    }
    UnfoldParts(signed, parts, 0, start);
    assert parts[0..] == parts;
    immed := immed + [ImmExpr(signed, pos, parts[0].Width(), parts[0].lo)];
    pos := pos + parts[0].Width();
  }

  method CompileRegister(f: Field, before: seq<RegExpr>) returns (registers: seq<RegExpr>)
    requires |before| == 4 && PieceOk(Register(f))
    ensures registers == SetTargets(before, f.targets, Extract(f.lo, f.width, f.offset))
  {
    registers := before;
    var t := 0;
    while t < |f.targets|
      invariant 0 <= t <= |f.targets| && |registers| == 4
      invariant SetTargets(registers, f.targets[t..], Extract(f.lo, f.width, f.offset)) ==
                SetTargets(before, f.targets, Extract(f.lo, f.width, f.offset))
    {
      registers := registers[f.targets[t] := Extract(f.lo, f.width, f.offset)];
      assert f.targets[t..][1..] == f.targets[t + 1..];
      t := t + 1;
    }
  }

  /** What is left to compile from piece k on, added to what has been compiled. */
  predicate Compiling(kind: Kind, l: Layout, k: nat, pos: nat, code: Bits, mask: Bits,
                      immed: seq<ImmExpr>, registers: seq<RegExpr>, big: bool)
  {
    && k <= |l| && |registers| == 4
    && pos + Width(l[k..]) == Width(l)
    && code + Code(l[k..]) == Code(l)
    && mask + Mask(l[k..]) == Mask(l)
    && immed + Imms(l[k..], pos) == Imms(l, 0)
    && Regs(registers, l[k..]) == Regs(Defaults(kind), l)
    && (big || Big(l[k..]) <==> Big(l))
  }

  lemma CompilingStep(kind: Kind, l: Layout, k: nat, pos: nat, code: Bits, mask: Bits,
                      immed: seq<ImmExpr>, registers: seq<RegExpr>, big: bool)
    requires Compiling(kind, l, k, pos, code, mask, immed, registers, big) && k < |l|
    ensures l[k].Literal? ==>
              Compiling(kind, l, k + 1, pos + |l[k].bits|, code + l[k].bits, mask + Ones(|l[k].bits|), immed, registers, big)
    ensures l[k].Immediate? ==>
              var w := PartsWidth(l[k].parts);
              Compiling(kind, l, k + 1, pos + w, code + Zeros(w), mask + Zeros(w),
                        immed + PartsImms(l[k].signed, l[k].parts, pos), registers, big || l[k].parts[0].hi >= 13)
    ensures l[k].Register? ==>
              var f := l[k].field;
              Compiling(kind, l, k + 1, pos + f.width, code + Zeros(f.width), mask + Zeros(f.width), immed,
                        SetTargets(registers, f.targets, Extract(f.lo, f.width, f.offset)), big)
  {
    hide Imms, Regs, Code, Mask, Big, Width, PartsWidth, PartsImms, SetTargets;
    Unfold(l, k, pos, registers);
  }

  /** The first piece of what is left, split off. */
  lemma Unfold(l: Layout, k: nat, pos: nat, regs: seq<RegExpr>)
    requires k < |l| && |regs| == 4
    ensures var p := l[k];
            && Width(l[k..]) == PieceWidth(p) + Width(l[k + 1..])
            && Code(l[k..]) == (if p.Literal? then p.bits else Zeros(PieceWidth(p))) + Code(l[k + 1..])
            && Mask(l[k..]) == (if p.Literal? then Ones(|p.bits|) else Zeros(PieceWidth(p))) + Mask(l[k + 1..])
    ensures var p := l[k];
            && Imms(l[k..], pos) == (if p.Immediate? then PartsImms(p.signed, p.parts, pos) else []) + Imms(l[k + 1..], pos + PieceWidth(p))
            && Regs(regs, l[k..]) == Regs(if p.Register? then SetTargets(regs, p.field.targets, Extract(p.field.lo, p.field.width, p.field.offset)) else regs, l[k + 1..])
            && (Big(l[k..]) <==> (p.Immediate? && p.parts[0].hi >= 13) || Big(l[k + 1..]))
  {
    assert l[k..][0] == l[k] && l[k..][1..] == l[k + 1..];
    hide *;
    UnfoldBits(l[k..]);
    UnfoldOperands(l[k..], pos, regs);
  }

  lemma UnfoldBits(l: Layout)
    requires l != []
    ensures var p := l[0];
            && Width(l) == PieceWidth(p) + Width(l[1..])
            && Code(l) == (if p.Literal? then p.bits else Zeros(PieceWidth(p))) + Code(l[1..])
            && Mask(l) == (if p.Literal? then Ones(|p.bits|) else Zeros(PieceWidth(p))) + Mask(l[1..])
  {
    hide PieceWidth, Ones, Zeros;
  }

  lemma UnfoldOperands(l: Layout, pos: nat, regs: seq<RegExpr>)
    requires l != [] && |regs| == 4
    ensures var p := l[0];
            && Imms(l, pos) == (if p.Immediate? then PartsImms(p.signed, p.parts, pos) else []) + Imms(l[1..], pos + PieceWidth(p))
            && Regs(regs, l) == Regs(if p.Register? then SetTargets(regs, p.field.targets, Extract(p.field.lo, p.field.width, p.field.offset)) else regs, l[1..])
            && (Big(l) <==> (p.Immediate? && p.parts[0].hi >= 13) || Big(l[1..]))
  {
    hide PieceWidth, SetTargets, PartsImms;
  }

  /** The layout compiler: one pass over the pieces from the lowest bit up. */
  method Compile(kind: Kind, l: Layout) returns (r: Option<Decode>)
    ensures r == Compiled(kind, l)
  {
    hide Imms, Regs, Code, Mask, Big, Width, PartsWidth, PartsImms, SetTargets;
    var pos: nat, code: Bits, mask: Bits, immed: seq<ImmExpr>, big := 0, [], [], [], false;
    var registers := [NoReg, NoReg, NoReg, NoReg];
    if kind.Csl? || kind.Css? || kind.Crs? || kind.Cds? { registers := registers[1 := Fixed(2)]; }
    if kind.Cjl? { registers := registers[0 := Fixed(1)]; }
    if kind.Cds? { registers := registers[0 := Fixed(2)]; }
    assert registers == Defaults(kind);
    var k := 0;
    CompilingBegins(kind, l);
    while k < |l|
      invariant 0 <= k <= |l|
      invariant Compiling(kind, l, k, pos, code, mask, immed, registers, big)
      decreases |l| - k
    {
      CompilingStep(kind, l, k, pos, code, mask, immed, registers, big);
      match l[k] {
        case Literal(bits) =>
          code, mask, pos := code + bits, mask + Ones(|bits|), pos + |bits|;
        case Immediate(signed, parts) =>
          var start := pos;
          pos, immed := CompileImmediate(signed, parts, start, immed);
          code, mask := code + Zeros(pos - start), mask + Zeros(pos - start);
          big := big || parts[0].hi >= 13;
        case Register(f) =>
          registers := CompileRegister(f, registers);
          code, mask, pos := code + Zeros(f.width), mask + Zeros(f.width), pos + f.width;
      }
      k := k + 1;
    }
    CompilingEnds(kind, l, pos, code, mask, immed, registers, big);
    if pos == 16 || pos == 32 {
      r := Some(Decode(mask, code, registers, immed, big, pos / 8));
    } else {
      r := None;
    }
  }

  lemma CompilingBegins(kind: Kind, l: Layout)
    ensures Compiling(kind, l, 0, 0, [], [], [], Defaults(kind), false)
  {
    assert l[0..] == l;
  }

  lemma CompilingEnds(kind: Kind, l: Layout, pos: nat, code: Bits, mask: Bits,
                      immed: seq<ImmExpr>, registers: seq<RegExpr>, big: bool)
    requires Compiling(kind, l, |l|, pos, code, mask, immed, registers, big)
    ensures pos == Width(l) && code == Code(l) && mask == Mask(l) && immed == Imms(l, 0)
    ensures registers == Regs(Defaults(kind), l) && (big <==> Big(l))
  {
    assert l[|l|..] == [];
  }
}
