/**
  Encoding by a layout and decoding by its compiled form undo each other.
*/
module Codec {
  import opened Common
  import opened Bits
  import opened Layout

  /** What an instruction carries: numbers for rd, rs1, rs2, rs3, and an
      immediate. */
  datatype Operands = Operands(regs: seq<nat>, imm: Word) {
    predicate Ok() { |regs| == 4 }
  }

  // --------------------------------------------------------------- encoding

  function EncodeParts(parts: seq<Part>, imm: Word): (b: Bits)
    requires forall i :: 0 <= i < |parts| ==> parts[i].Ok()
    ensures |b| == PartsWidth(parts)
  {
    if parts == [] then [] else
    assert parts[0].Ok();
    EncodeParts(parts[1..], imm) + imm[parts[0].lo..parts[0].hi + 1]
  }

  function FieldValue(f: Field, o: Operands): nat
    requires o.Ok()
  {
    if f.targets != [] && f.targets[0] < 4 && f.offset <= o.regs[f.targets[0]] then o.regs[f.targets[0]] - f.offset else 0
  }

  function EncodePiece(p: Piece, o: Operands): (b: Bits)
    requires PieceOk(p) && o.Ok()
    ensures |b| == PieceWidth(p)
  {
    match p
    case Literal(bits) => bits
    case Immediate(_, parts) => EncodeParts(parts, o.imm)
    case Register(f) => FromNat(FieldValue(f, o), f.width)
  }

  function Encode(l: Layout, o: Operands): (b: Bits)
    requires o.Ok()
    ensures |b| == Width(l)
  {
    if l == [] then [] else EncodePiece(l[0], o) + Encode(l[1..], o)
  }

  // --------------------------------------------------------------- decoding

  function EvalReg(e: RegExpr, w: Word): int {
    match e
    case NoReg => -1
    case Fixed(n) => n
    case Extract(lo, width, offset) => if lo + width <= 32 then ToNat(w[lo..lo + width]) + offset else -1
  }

  function Term(e: ImmExpr, w: Word): Word {
    if e.pos + e.len > 32 || e.len == 0 then Zeros(32) else
    ShiftLeft(if e.signed then Xs(w, e.pos, e.len) else X(w, e.pos, e.len), e.shift)
  }

  /** All the terms or-ed together. */
  function EvalImm(exprs: seq<ImmExpr>, w: Word): Word {
    if exprs == [] then Zeros(32) else Or(Term(exprs[0], w), EvalImm(exprs[1..], w))
  }

  predicate Matches(w: Word, mask: Bits, code: Bits) {
    |mask| <= 32 && |code| <= 32 && And(w, ZeroExtend(mask)) == ZeroExtend(code)
  }

  // ---------------------------------------------------- well-formed layouts

  /** Every register field lies where the register table says it does, and names
      at least one register. */
  predicate Placed(l: Layout, pos: nat) {
    l != [] ==>
      && (l[0].Register? ==> l[0].field.lo == pos && l[0].field.targets != [])
      && Placed(l[1..], pos + PieceWidth(l[0]))
  }

  function TargetsOf(l: Layout): set<nat> {
    if l == [] then {} else
    (if l[0].Register? then set t | t in l[0].field.targets else {}) + TargetsOf(l[1..])
  }

  /** No two fields give the same register. */
  predicate TargetsApart(l: Layout) {
    l != [] ==>
      && (l[0].Register? ==> forall t | t in l[0].field.targets :: t !in TargetsOf(l[1..]))
      && TargetsApart(l[1..])
  }

  predicate FieldFits(f: Field, o: Operands)
    requires o.Ok()
  {
    && f.targets != [] && f.targets[0] < 4
    && forall i :: 0 <= i < |f.targets| ==>
         && f.targets[i] < 4 && o.regs[f.targets[i]] == o.regs[f.targets[0]]
         && f.offset <= o.regs[f.targets[i]] < f.offset + Pow2(f.width)
  }

  /** Every register number fits its field. */
  predicate RegsFit(l: Layout, o: Operands)
    requires o.Ok()
  {
    forall i :: 0 <= i < |l| && l[i].Register? ==> FieldFits(l[i].field, o)
  }

  // ---------------------------------------------------------------- matching

  lemma {:induction false} MaskSelectsLiterals(l: Layout, o: Operands, i: nat)
    requires o.Ok() && i < Width(l)
    ensures Code(l)[i] <==> Mask(l)[i] && Encode(l, o)[i]
  {
    hide PieceWidth, EncodePiece, Code, Mask, Encode;
    var n := PieceWidth(l[0]);
    PieceInFront(l, o);
    if i >= n {
      BehindPiece(l, i - n);
      MaskSelectsLiterals(l[1..], o, i - n);
    }
  }

  lemma PieceInFront(l: Layout, o: Operands)
    requires o.Ok() && l != []
    ensures var n := PieceWidth(l[0]);
            && n <= Width(l) && Width(l) - n == Width(l[1..])
            && Encode(l, o)[..n] == EncodePiece(l[0], o) && Encode(l, o)[n..] == Encode(l[1..], o)
            && (forall i :: 0 <= i < n ==> (Mask(l)[i] <==> l[0].Literal?))
            && (forall i :: 0 <= i < n ==> (Code(l)[i] <==> l[0].Literal? && Encode(l, o)[i]))
  {
    hide EncodeParts;
  }

  /** An encoded instruction matches its own mask and code, whatever follows it. */
  lemma EncodedMatches(l: Layout, o: Operands, w: Word)
    requires o.Ok() && Width(l) <= 32 && w[..Width(l)] == Encode(l, o)
    ensures Matches(w, Mask(l), Code(l))
  {
    forall i | 0 <= i < 32
      ensures And(w, ZeroExtend(Mask(l)))[i] == ZeroExtend(Code(l))[i]
    {
      if i < Width(l) {
        assert w[i] == w[..Width(l)][i];
        MaskSelectsLiterals(l, o, i);
      }
    }
  }

  // ---------------------------------------------------------------- registers

  lemma {:induction false} SetTargetsAt(regs: seq<RegExpr>, targets: seq<nat>, e: RegExpr, k: nat)
    requires k < |regs| && forall i :: 0 <= i < |targets| ==> targets[i] < |regs|
    ensures SetTargets(regs, targets, e)[k] == if k in targets then e else regs[k]
    decreases |targets|
  {
    if targets != [] {
      SetTargetsAt(regs[targets[0] := e], targets[1..], e, k);
    }
  }

  /** Each register expression gives back the number that was encoded; registers
      no field gives keep their default. */
  lemma {:induction false} RegsRecovered(l: Layout, pos: nat, w: Word, o: Operands, regs: seq<RegExpr>, k: nat)
    requires o.Ok() && |regs| == 4 && k < 4 && pos + Width(l) <= 32
    requires w[pos..pos + Width(l)] == Encode(l, o)
    requires Placed(l, pos) && TargetsApart(l) && RegsFit(l, o)
    ensures EvalReg(Regs(regs, l)[k], w) == if k in TargetsOf(l) then o.regs[k] else EvalReg(regs[k], w)
    decreases |l|
  {
    hide SetTargets, EncodePiece, PieceWidth, FieldFits, EvalReg;
    if l != [] {
      var n := PieceWidth(l[0]);
      SplitWord(w, pos, EncodePiece(l[0], o), Encode(l[1..], o));
      assert RegsFit(l[1..], o) by {
        assert forall i :: 0 <= i < |l[1..]| ==> l[1..][i] == l[i + 1];
      }
      if l[0].Register? {
        var f := l[0].field;
        var e := Extract(f.lo, f.width, f.offset);
        assert forall i :: 0 <= i < |f.targets| ==> f.targets[i] < |regs| by { assert PieceOk(l[0]); }
        RegsRecovered(l[1..], pos + n, w, o, SetTargets(regs, f.targets, e), k);
        SetTargetsAt(regs, f.targets, e, k);
        if k in f.targets { FieldRecovered(f, w, o, k); }
      } else {
        RegsRecovered(l[1..], pos + n, w, o, regs, k);
      }
    }
  }

  lemma FieldRecovered(f: Field, w: Word, o: Operands, k: nat)
    requires o.Ok() && PieceOk(Register(f)) && FieldFits(f, o) && k in f.targets
    requires w[f.lo..f.lo + PieceWidth(Register(f))] == EncodePiece(Register(f), o)
    ensures k < 4 && EvalReg(Extract(f.lo, f.width, f.offset), w) == o.regs[k]
  {
    ToFromNat(FieldValue(f, o), f.width);
  }

  lemma SplitWord(w: Word, pos: nat, a: Bits, b: Bits)
    requires pos + |a| + |b| <= 32 && w[pos..pos + (|a| + |b|)] == a + b
    ensures w[pos..pos + |a|] == a && w[pos + |a|..pos + |a| + |b|] == b
  {
    assert w[pos..pos + |a|] == (a + b)[..|a|];
    assert w[pos + |a|..pos + |a| + |b|] == (a + b)[|a|..];
  }

  // --------------------------------------------------------------- immediates

  /** Some part carries bit k of the immediate. */
  predicate Covered(l: Layout, k: nat) {
    exists i, j :: 0 <= i < |l| && l[i].Immediate? && 0 <= j < |l[i].parts| && l[i].parts[j].lo <= k <= l[i].parts[j].hi
  }

  /** A signed part ends below bit k with its sign bit set. */
  predicate SignBelow(l: Layout, imm: Word, k: nat) {
    exists i :: 0 <= i < |l| && l[i].Immediate? && l[i].signed && l[i].parts[0].hi < k && HighBit(l[i].parts[0], imm)
  }

  predicate HighBit(p: Part, imm: Word) {
    p.hi < 32 && imm[p.hi]
  }

  /** What the extraction puts into bit k: the bit itself where some part carries
      it, and the sign above a signed part. */
  predicate Contributes(l: Layout, imm: Word, k: nat)
    requires k < 32
  {
    (Covered(l, k) && imm[k]) || SignBelow(l, imm, k)
  }

  /** The immediates a layout can hold: bits set only where carried or
      sign-filled, and set wherever sign-filled. */
  predicate Representable(l: Layout, imm: Word) {
    forall k :: 0 <= k < 32 ==>
      && (imm[k] ==> Covered(l, k) || SignBelow(l, imm, k))
      && (SignBelow(l, imm, k) ==> imm[k])
  }

  /** One part's contribution to bit k. */
  predicate PartGives(signed: bool, p: Part, imm: Word, k: nat)
    requires p.Ok() && k < 32
  {
    (p.lo <= k <= p.hi && imm[k]) || (signed && p.hi < k && imm[p.hi])
  }

  predicate PartsGive(signed: bool, parts: seq<Part>, imm: Word, k: nat)
    requires k < 32 && forall i :: 0 <= i < |parts| ==> parts[i].Ok()
  {
    parts != [] && (PartsGive(false, parts[1..], imm, k) || PartGives(signed, parts[0], imm, k))
  }

  predicate PiecesGive(l: Layout, imm: Word, k: nat)
    requires k < 32
  {
    l != [] &&
      ((l[0].Immediate? && PartsGive(l[0].signed, l[0].parts, imm, k)) || PiecesGive(l[1..], imm, k))
  }

  lemma TermBit(e: ImmExpr, w: Word, k: nat)
    requires k < 32 && e.pos + e.len <= 32 && e.len > 0
    ensures Term(e, w)[k] <==>
              (e.shift <= k < e.shift + e.len && w[e.pos + k - e.shift])
              || (e.signed && e.shift + e.len <= k && w[e.pos + e.len - 1])
  {
    hide ShiftLeft, X, Xs;
    ShiftedBit(if e.signed then Xs(w, e.pos, e.len) else X(w, e.pos, e.len), e.shift, k);
    if k >= e.shift { FieldBit(w, e.pos, e.len, k - e.shift); }
  }

  lemma ShiftedBit(w: Word, n: nat, k: nat)
    requires k < 32
    ensures ShiftLeft(w, n)[k] <==> k >= n && w[k - n]
  {
  }

  lemma FieldBit(w: Word, lo: nat, len: nat, k: nat)
    requires 0 < len && lo + len <= 32 && k < 32
    ensures X(w, lo, len)[k] <==> k < len && w[lo + k]
    ensures Xs(w, lo, len)[k] <==> if k < len then w[lo + k] else w[lo + len - 1]
  {
  }

  lemma {:induction false} EvalImmConcat(a: seq<ImmExpr>, b: seq<ImmExpr>, w: Word, k: nat)
    requires k < 32
    ensures EvalImm(a + b, w)[k] <==> EvalImm(a, w)[k] || EvalImm(b, w)[k]
  {
    hide Term;
    if a == [] {
      assert a + b == b;
    } else {
      assert (a + b)[1..] == a[1..] + b;
      EvalImmConcat(a[1..], b, w, k);
    }
  }

  lemma {:induction false} PartsEval(signed: bool, parts: seq<Part>, pos: nat, w: Word, imm: Word, k: nat)
    requires k < 32 && forall i :: 0 <= i < |parts| ==> parts[i].Ok()
    requires pos + PartsWidth(parts) <= 32 && w[pos..pos + PartsWidth(parts)] == EncodeParts(parts, imm)
    ensures EvalImm(PartsImms(signed, parts, pos), w)[k] <==> PartsGive(signed, parts, imm, k)
  {
    hide Term, EvalImm, PartsImms, PartsWidth, EncodeParts, PartsGive, PartGives;
    if parts == [] {
      PartsNone(signed, pos, imm, k);
      EvalNothing(w, k);
    } else {
      var p, below := parts[0], PartsWidth(parts[1..]);
      var e := ImmExpr(signed, pos + below, p.Width(), p.lo);
      assert p.Ok();
      PartsUnfold(signed, parts, pos, imm, k);
      SplitWord(w, pos, EncodeParts(parts[1..], imm), imm[p.lo..p.hi + 1]);
      PartsEval(false, parts[1..], pos, w, imm, k);
      EvalImmConcat(PartsImms(false, parts[1..], pos), [e], w, k);
      PartEval(signed, p, pos + below, w, imm, k);
      EvalOne(e, w, k);
    }
  }

  lemma EvalOne(e: ImmExpr, w: Word, k: nat)
    requires k < 32
    ensures EvalImm([e], w)[k] == Term(e, w)[k]
  {
    hide Term;
    EvalNothing(w, k);
  }

  lemma PartsNone(signed: bool, pos: nat, imm: Word, k: nat)
    requires k < 32
    ensures PartsImms(signed, [], pos) == [] && !PartsGive(signed, [], imm, k)
    ensures PartsWidth([]) == 0 && EncodeParts([], imm) == []
  {
  }

  /** The first part, split off. */
  lemma PartsUnfold(signed: bool, parts: seq<Part>, pos: nat, imm: Word, k: nat)
    requires k < 32 && parts != [] && forall i :: 0 <= i < |parts| ==> parts[i].Ok()
    ensures var p, below := parts[0], PartsWidth(parts[1..]);
            && PartsWidth(parts) == below + p.Width()
            && PartsImms(signed, parts, pos)
               == PartsImms(false, parts[1..], pos) + [ImmExpr(signed, pos + below, p.Width(), p.lo)]
            && EncodeParts(parts, imm) == EncodeParts(parts[1..], imm) + imm[p.lo..p.hi + 1]
            && (PartsGive(signed, parts, imm, k) <==>
                  PartsGive(false, parts[1..], imm, k) || PartGives(signed, p, imm, k))
  {
    assert parts[0].Ok();
  }

  lemma PartEval(signed: bool, p: Part, pos: nat, w: Word, imm: Word, k: nat)
    requires k < 32 && p.Ok() && pos + p.Width() <= 32
    requires w[pos..pos + p.Width()] == imm[p.lo..p.hi + 1]
    ensures Term(ImmExpr(signed, pos, p.Width(), p.lo), w)[k] <==> PartGives(signed, p, imm, k)
  {
    hide Term;
    TermBit(ImmExpr(signed, pos, p.Width(), p.lo), w, k);
    var field := w[pos..pos + p.Width()];
    assert field[p.Width() - 1] == imm[p.lo..p.hi + 1][p.Width() - 1];
    if p.lo <= k <= p.hi {
      assert field[k - p.lo] == imm[p.lo..p.hi + 1][k - p.lo];
    }
  }

  lemma {:induction false} PiecesEval(l: Layout, pos: nat, w: Word, o: Operands, k: nat)
    requires o.Ok() && k < 32 && pos + Width(l) <= 32 && w[pos..pos + Width(l)] == Encode(l, o)
    ensures EvalImm(Imms(l, pos), w)[k] <==> PiecesGive(l, o.imm, k)
  {
    hide EvalImm, PartsImms, PartsGive, PartsWidth, EncodeParts, FromNat, FieldValue;
    if l == [] {
      EvalNothing(w, k);
    } else {
      var n := PieceWidth(l[0]);
      SplitWord(w, pos, EncodePiece(l[0], o), Encode(l[1..], o));
      PiecesEval(l[1..], pos + n, w, o, k);
      if l[0].Immediate? {
        EvalImmConcat(PartsImms(l[0].signed, l[0].parts, pos), Imms(l[1..], pos + n), w, k);
        PartsEval(l[0].signed, l[0].parts, pos, w, o.imm, k);
      } else {
        assert [] + Imms(l[1..], pos + n) == Imms(l[1..], pos + n);
      }
    }
  }

  lemma EvalNothing(w: Word, k: nat)
    requires k < 32
    ensures !EvalImm([], w)[k]
  {
  }

  lemma {:induction false} PartsGiveMeans(signed: bool, parts: seq<Part>, imm: Word, k: nat)
    requires k < 32 && forall i :: 0 <= i < |parts| ==> parts[i].Ok()
    ensures PartsGive(signed, parts, imm, k) <==>
              (imm[k] && exists j :: 0 <= j < |parts| && parts[j].lo <= k <= parts[j].hi)
              || (signed && parts != [] && parts[0].hi < k && HighBit(parts[0], imm))
  {
    if parts != [] {
      assert parts[0].Ok();
      PartsGiveMeans(false, parts[1..], imm, k);
      if j :| 0 <= j < |parts| && parts[j].lo <= k <= parts[j].hi {
        assert j > 0 ==> parts[1..][j - 1] == parts[j];
      }
    }
  }

  lemma {:induction false} PiecesGiveMeans(l: Layout, imm: Word, k: nat)
    requires k < 32
    ensures PiecesGive(l, imm, k) <==> Contributes(l, imm, k)
  {
    hide PartsGive, HighBit;
    if l != [] {
      var rest := l[1..];
      PiecesGiveMeans(rest, imm, k);
      CoveredSplit(l, k);
      SignBelowSplit(l, imm, k);
      if l[0].Immediate? {
        assert PieceOk(l[0]);
        PartsGiveMeans(l[0].signed, l[0].parts, imm, k);
      }
    }
  }

  lemma CoveredSplit(l: Layout, k: nat)
    requires l != []
    ensures Covered(l, k) <==>
              Covered(l[1..], k) || (l[0].Immediate? && exists j :: 0 <= j < |l[0].parts| && l[0].parts[j].lo <= k <= l[0].parts[j].hi)
  {
    var rest := l[1..];
    if Covered(l, k) {
      var i, j :| 0 <= i < |l| && l[i].Immediate? && 0 <= j < |l[i].parts| && l[i].parts[j].lo <= k <= l[i].parts[j].hi;
      if i > 0 { assert rest[i - 1] == l[i]; assert rest[i - 1].Immediate?; }
    }
    if Covered(rest, k) {
      var i, j :| 0 <= i < |rest| && rest[i].Immediate? && 0 <= j < |rest[i].parts| && rest[i].parts[j].lo <= k <= rest[i].parts[j].hi;
      assert l[i + 1] == rest[i];
    }
  }

  lemma SignBelowSplit(l: Layout, imm: Word, k: nat)
    requires l != []
    ensures SignBelow(l, imm, k) <==>
              SignBelow(l[1..], imm, k) ||
              (l[0].Immediate? && l[0].signed && PieceOk(l[0]) && l[0].parts[0].hi < k && HighBit(l[0].parts[0], imm))
  {
    hide HighBit;
    var rest := l[1..];
    assert PieceOk(l[0]);
    if SignBelow(l, imm, k) {
      var i :| 0 <= i < |l| && l[i].Immediate? && l[i].signed && l[i].parts[0].hi < k && HighBit(l[i].parts[0], imm);
      if i > 0 { assert rest[i - 1] == l[i]; }
    }
    if SignBelow(rest, imm, k) {
      var i :| 0 <= i < |rest| && rest[i].Immediate? && rest[i].signed && rest[i].parts[0].hi < k && HighBit(rest[i].parts[0], imm);
      assert l[i + 1] == rest[i];
    }
  }

  /** The extracted immediate is the one encoded exactly when the layout can hold
      it. */
  lemma ImmediateRecovered(l: Layout, w: Word, o: Operands)
    requires o.Ok() && Width(l) <= 32 && w[..Width(l)] == Encode(l, o)
    ensures EvalImm(Imms(l, 0), w) == o.imm <==> Representable(l, o.imm)
  {
    hide EvalImm, Imms, Encode, Covered, SignBelow;
    assert w[0..0 + Width(l)] == w[..Width(l)];
    forall k | 0 <= k < 32
      ensures EvalImm(Imms(l, 0), w)[k] <==> Contributes(l, o.imm, k)
    {
      PiecesEval(l, 0, w, o, k);
      PiecesGiveMeans(l, o.imm, k);
    }
  }

  // ------------------------------------------------- decoding, then encoding

  /** The destination bits of immediate pieces do not overlap, and nothing lies
      above a signed one. */
  predicate ImmsApart(exprs: seq<ImmExpr>) {
    forall i, j :: 0 <= i < |exprs| && 0 <= j < |exprs| && i != j ==>
      && (exprs[i].shift + exprs[i].len <= exprs[j].shift || exprs[j].shift + exprs[j].len <= exprs[i].shift)
      && (exprs[i].signed ==> exprs[j].shift + exprs[j].len <= exprs[i].shift)
  }

  predicate ExprOk(e: ImmExpr) {
    e.len > 0 && e.pos + e.len <= 32 && e.shift + e.len <= 32
  }

  lemma {:induction false} EvalImmBit(exprs: seq<ImmExpr>, w: Word, k: nat)
    requires k < 32
    ensures EvalImm(exprs, w)[k] <==> exists i :: 0 <= i < |exprs| && Term(exprs[i], w)[k]
  {
    hide Term;
    if exprs != [] {
      var rest := exprs[1..];
      EvalImmBit(rest, w, k);
      if i :| 0 <= i < |exprs| && Term(exprs[i], w)[k] {
        if i > 0 { assert rest[i - 1] == exprs[i]; }
      }
      if i :| 0 <= i < |rest| && Term(rest[i], w)[k] {
        assert exprs[i + 1] == rest[i];
      }
    }
  }

  /** Bits of imm under e are the bits of w that e reads. */
  predicate Agrees(e: ImmExpr, imm: Word, w: Word) {
    ExprOk(e) && imm[e.shift..e.shift + e.len] == w[e.pos..e.pos + e.len]
  }

  /** Each piece's bits arrive in the immediate unmixed. */
  lemma PieceArrives(exprs: seq<ImmExpr>, w: Word, i: nat)
    requires i < |exprs| && ImmsApart(exprs) && forall j :: 0 <= j < |exprs| ==> ExprOk(exprs[j])
    ensures Agrees(exprs[i], EvalImm(exprs, w), w)
  {
    hide Term, EvalImm;
    var e := exprs[i];
    assert ExprOk(e);
    var got, want := EvalImm(exprs, w)[e.shift..e.shift + e.len], w[e.pos..e.pos + e.len];
    forall b | 0 <= b < e.len
      ensures got[b] == want[b]
    {
      var k := e.shift + b;
      EvalImmBit(exprs, w, k);
      TermBit(e, w, k);
      forall j | 0 <= j < |exprs| && j != i ensures !Term(exprs[j], w)[k] {
        TermBit(exprs[j], w, k);
      }
    }
  }

  lemma {:induction false} PartsAgree(signed: bool, parts: seq<Part>, pos: nat, w: Word, imm: Word)
    requires forall i :: 0 <= i < |parts| ==> parts[i].Ok()
    requires pos + PartsWidth(parts) <= 32
    requires forall e | e in PartsImms(signed, parts, pos) :: Agrees(e, imm, w)
    ensures EncodeParts(parts, imm) == w[pos..pos + PartsWidth(parts)]
  {
    hide Agrees, PartsImms, PartsWidth, EncodeParts;
    if parts == [] {
      PartsNone(signed, pos, imm, 0);
    } else {
      var p, below := parts[0], PartsWidth(parts[1..]);
      assert p.Ok();
      var e := ImmExpr(signed, pos + below, p.Width(), p.lo);
      PartsUnfold(signed, parts, pos, imm, 0);
      PartsAgree(false, parts[1..], pos, w, imm);
      assert Agrees(e, imm, w);
      AgreesBits(e, imm, w);
      SliceSplit(w, pos, pos + below, pos + below + p.Width());
    }
  }

  lemma SliceSplit(w: Word, a: nat, b: nat, c: nat)
    requires a <= b <= c <= |w|
    ensures w[a..c] == w[a..b] + w[b..c]
  {
  }

  lemma AgreesBits(e: ImmExpr, imm: Word, w: Word)
    requires Agrees(e, imm, w)
    ensures ExprOk(e) && imm[e.shift..e.shift + e.len] == w[e.pos..e.pos + e.len]
  {
  }

  /** The literal bits of w are the layout's. */
  predicate LiteralsMatch(l: Layout, pos: nat, w: Word) {
    l != [] ==>
      && pos + PieceWidth(l[0]) <= 32
      && (l[0].Literal? ==> w[pos..pos + |l[0].bits|] == l[0].bits)
      && LiteralsMatch(l[1..], pos + PieceWidth(l[0]), w)
  }

  lemma {:induction false} MatchesLiterals(l: Layout, pos: nat, w: Word)
    requires pos + Width(l) <= 32
    requires forall i :: 0 <= i < Width(l) && Mask(l)[i] ==> w[pos + i] == Code(l)[i]
    ensures LiteralsMatch(l, pos, w)
  {
    if l != [] {
      var n := PieceWidth(l[0]);
      forall i | 0 <= i < Width(l[1..]) && Mask(l[1..])[i]
        ensures w[pos + n + i] == Code(l[1..])[i]
      {
        BehindPiece(l, i);
      }
      MatchesLiterals(l[1..], pos + n, w);
      if l[0].Literal? {
        LiteralInFront(l, pos, w);
      }
    }
  }

  /** Mask and code behind the first piece are those of the rest. */
  lemma BehindPiece(l: Layout, i: nat)
    requires l != [] && i < Width(l[1..])
    ensures PieceWidth(l[0]) + i < Width(l)
    ensures Mask(l)[PieceWidth(l[0]) + i] == Mask(l[1..])[i] && Code(l)[PieceWidth(l[0]) + i] == Code(l[1..])[i]
  {
    hide Mask, Code, Width, PartsWidth;
    UnfoldBits(l);
  }

  lemma LiteralInFront(l: Layout, pos: nat, w: Word)
    requires l != [] && l[0].Literal? && pos + Width(l) <= 32
    requires forall i :: 0 <= i < Width(l) && Mask(l)[i] ==> w[pos + i] == Code(l)[i]
    ensures |l[0].bits| <= Width(l) && w[pos..pos + |l[0].bits|] == l[0].bits
  {
    var n := |l[0].bits|;
    forall i | 0 <= i < n ensures w[pos..pos + n][i] == l[0].bits[i] {
      assert Mask(l)[i] && Code(l)[i] == l[0].bits[i];
    }
  }

  /** Operands read back out of w by the compiled layout. */
  predicate ReadsBack(l: Layout, pos: nat, w: Word, o: Operands)
    requires o.Ok()
  {
    && (forall e | e in Imms(l, pos) :: Agrees(e, o.imm, w))
    && forall i, t :: 0 <= i < |l| && l[i].Register? && t in l[i].field.targets ==>
         t < 4 && l[i].field.lo + l[i].field.width <= 32
         && o.regs[t] == ToNat(w[l[i].field.lo..l[i].field.lo + l[i].field.width]) + l[i].field.offset
  }

  lemma PieceReadBack(p: Piece, pos: nat, w: Word, o: Operands)
    requires o.Ok() && PieceOk(p) && pos + PieceWidth(p) <= 32
    requires p.Literal? ==> w[pos..pos + |p.bits|] == p.bits
    requires p.Immediate? ==> forall e | e in PartsImms(p.signed, p.parts, pos) :: Agrees(e, o.imm, w)
    requires p.Register? ==> p.field.lo == pos && p.field.targets != [] && p.field.targets[0] < 4
    requires p.Register? ==> o.regs[p.field.targets[0]] == ToNat(w[pos..pos + p.field.width]) + p.field.offset
    ensures EncodePiece(p, o) == w[pos..pos + PieceWidth(p)]
  {
    hide Agrees, EncodeParts, PartsImms;
    match p
    case Literal(_) =>
    case Immediate(signed, parts) => PartsAgree(signed, parts, pos, w, o.imm);
    case Register(f) => FromToNat(w[pos..pos + f.width]);
  }

  /** Encoding the operands read out of an instruction gives the instruction. */
  lemma {:induction false} EncodeReadBack(l: Layout, pos: nat, w: Word, o: Operands)
    requires o.Ok() && pos + Width(l) <= 32
    requires Placed(l, pos) && LiteralsMatch(l, pos, w) && ReadsBack(l, pos, w, o)
    ensures Encode(l, o) == w[pos..pos + Width(l)]
  {
    hide Agrees, EncodePiece, PartsImms, ReadsBack, PieceWidth;
    if l != [] {
      var n := PieceWidth(l[0]);
      ReadsBackRest(l, pos, w, o);
      EncodeReadBack(l[1..], pos + n, w, o);
      FirstReadBack(l, pos, w, o);
      SliceSplit(w, pos, pos + n, pos + n + Width(l[1..]));
    }
  }

  lemma ReadsBackRest(l: Layout, pos: nat, w: Word, o: Operands)
    requires l != [] && o.Ok() && ReadsBack(l, pos, w, o)
    ensures ReadsBack(l[1..], pos + PieceWidth(l[0]), w, o)
  {
    hide Agrees, PartsImms;
    assert forall i :: 0 <= i < |l[1..]| ==> l[1..][i] == l[i + 1];
  }

  lemma FirstReadBack(l: Layout, pos: nat, w: Word, o: Operands)
    requires l != [] && o.Ok() && pos + Width(l) <= 32
    requires Placed(l, pos) && LiteralsMatch(l, pos, w) && ReadsBack(l, pos, w, o)
    ensures EncodePiece(l[0], o) == w[pos..pos + PieceWidth(l[0])]
  {
    hide Agrees, EncodePiece, PartsImms;
    assert PieceOk(l[0]);
    if l[0].Register? { assert l[0].field.targets[0] in l[0].field.targets; }
    PieceReadBack(l[0], pos, w, o);
  }

  // ------------------------------------------------------------ both directions

  /** The operands the compiled layout reads out of an instruction. */
  function Read(d: Decode, w: Word): (o: Operands)
    ensures o.Ok()
  {
    Operands(seq(4, k requires 0 <= k < 4 => if k < |d.regs| && EvalReg(d.regs[k], w) >= 0 then EvalReg(d.regs[k], w) else 0),
             EvalImm(d.immed, w))
  }

  /** Layouts with fields where the table says, no register given twice, and
      immediate pieces apart. */
  predicate Sound(l: Layout) {
    Placed(l, 0) && TargetsApart(l) && ImmsApart(Imms(l, 0))
  }

  /** The registers no field gives: the stack pointer as the base of the compressed
      stack instructions, and as the destination of one type; the link register
      as the destination of c.jal; no register otherwise. */
  predicate Implied(kind: Kind, given: set<nat>, rd: int, rs1: int, rs2: int, rs3: int) {
    && (0 !in given ==> rd == if kind == Cds then 2 else if kind == Cjl then 1 else -1)
    && (1 !in given ==> rs1 == if kind == Csl || kind == Css || kind == Crs || kind == Cds then 2 else -1)
    && (2 !in given ==> rs2 == -1)
    && (3 !in given ==> rs3 == -1)
  }

  lemma DefaultsRead(kind: Kind, given: set<nat>, w: Word)
    ensures Implied(kind, given, EvalReg(Defaults(kind)[0], w), EvalReg(Defaults(kind)[1], w),
                    EvalReg(Defaults(kind)[2], w), EvalReg(Defaults(kind)[3], w))
  {
  }

  /** Encode, then decode: for every layout, and whatever follows the instruction
      in memory, the compiled form recognises it, every field gives back its
      register, the others are those the type implies, and the immediate comes back exactly when the layout can hold it. */
  lemma EncodeThenDecode(kind: Kind, l: Layout, o: Operands, w: Word)
    requires Compiled(kind, l).Some? && Placed(l, 0) && TargetsApart(l)
    requires o.Ok() && RegsFit(l, o) && w[..Width(l)] == Encode(l, o)
    ensures var d := Compiled(kind, l).value;
            && Matches(w, d.mask, d.code)
            && (forall k :: 0 <= k < 4 && k in TargetsOf(l) ==> EvalReg(d.regs[k], w) == o.regs[k])
            && Implied(kind, TargetsOf(l), EvalReg(d.regs[0], w), EvalReg(d.regs[1], w), EvalReg(d.regs[2], w), EvalReg(d.regs[3], w))
            && 8 * d.len == Width(l)
            && (EvalImm(d.immed, w) == o.imm <==> Representable(l, o.imm))
  {
    hide EvalReg, EvalImm, Matches, Regs, Imms, Mask, Code, Encode, Representable, Placed, TargetsApart, RegsFit, Defaults;
    DefaultsRead(kind, TargetsOf(l), w);
    EncodedMatches(l, o, w);
    assert w[0..0 + Width(l)] == w[..Width(l)];
    forall k | 0 <= k < 4
      ensures EvalReg(Regs(Defaults(kind), l)[k], w) == if k in TargetsOf(l) then o.regs[k] else EvalReg(Defaults(kind)[k], w)
    {
      RegsRecovered(l, 0, w, o, Defaults(kind), k);
    }
    ImmediateRecovered(l, w, o);
  }

  lemma {:induction false} RegsAt(l: Layout, regs: seq<RegExpr>, i: nat, t: nat)
    requires |regs| == 4 && TargetsApart(l) && t < 4
    ensures t !in TargetsOf(l) ==> Regs(regs, l)[t] == regs[t]
    ensures i < |l| && l[i].Register? && t in l[i].field.targets ==>
              Regs(regs, l)[t] == Extract(l[i].field.lo, l[i].field.width, l[i].field.offset)
    decreases |l|
  {
    hide SetTargets;
    if l != [] {
      if l[0].Register? {
        assert PieceOk(l[0]);
        var f := l[0].field;
        var e := Extract(f.lo, f.width, f.offset);
        SetTargetsAt(regs, f.targets, e, t);
        RegsAt(l[1..], SetTargets(regs, f.targets, e), if i > 0 then i - 1 else |l|, t);
      } else {
        RegsAt(l[1..], regs, if i > 0 then i - 1 else |l|, t);
      }
    }
  }

  lemma {:induction false} PartsImmsOk(signed: bool, parts: seq<Part>, pos: nat, e: ImmExpr)
    requires forall i :: 0 <= i < |parts| ==> parts[i].Ok()
    requires pos + PartsWidth(parts) <= 32 && e in PartsImms(signed, parts, pos)
    ensures ExprOk(e)
  {
    assert parts[0].Ok();
    if e in PartsImms(false, parts[1..], pos) {
      PartsImmsOk(false, parts[1..], pos, e);
    }
  }

  lemma {:induction false} ImmsOk(l: Layout, pos: nat, e: ImmExpr)
    requires pos + Width(l) <= 32 && e in Imms(l, pos)
    ensures ExprOk(e)
  {
    assert PieceOk(l[0]);
    if e in Imms(l[1..], pos + PieceWidth(l[0])) {
      ImmsOk(l[1..], pos + PieceWidth(l[0]), e);
    } else {
      PartsImmsOk(l[0].signed, l[0].parts, pos, e);
    }
  }

  lemma MatchedBits(l: Layout, w: Word, i: nat)
    requires Width(l) <= 32 && Matches(w, Mask(l), Code(l)) && i < Width(l) && Mask(l)[i]
    ensures w[i] == Code(l)[i]
  {
    assert And(w, ZeroExtend(Mask(l)))[i] == ZeroExtend(Code(l))[i];
  }

  /** Decode, then encode: for every sound layout, re-encoding what is read out of
      a matching instruction gives the instruction back. */
  lemma DecodeThenEncode(kind: Kind, l: Layout, w: Word)
    requires Compiled(kind, l).Some? && Sound(l)
    requires var d := Compiled(kind, l).value; Matches(w, d.mask, d.code)
    ensures Encode(l, Read(Compiled(kind, l).value, w)) == w[..Width(l)]
  {
    hide EvalImm, Matches, Regs, Imms, Mask, Code, Encode, Placed, TargetsApart, Agrees, LiteralsMatch;
    var d := Compiled(kind, l).value;
    var o := Read(d, w);
    forall i | 0 <= i < Width(l) && Mask(l)[i] ensures w[0 + i] == Code(l)[i] {
      MatchedBits(l, w, i);
    }
    MatchesLiterals(l, 0, w);
    forall e | e in d.immed ensures ExprOk(e) {
      ImmsOk(l, 0, e);
    }
    forall e | e in d.immed ensures Agrees(e, o.imm, w) {
      var i :| 0 <= i < |d.immed| && d.immed[i] == e;
      PieceArrives(d.immed, w, i);
    }
    forall i, t | 0 <= i < |l| && l[i].Register? && t in l[i].field.targets
      ensures t < 4 && l[i].field.lo + l[i].field.width <= 32
      ensures o.regs[t] == ToNat(w[l[i].field.lo..l[i].field.lo + l[i].field.width]) + l[i].field.offset
    {
      assert PieceOk(l[i]);
      RegsAt(l, Defaults(kind), i, t);
    }
    EncodeReadBack(l, 0, w, o);
  }
}
