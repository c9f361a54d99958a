/**
  Predecoding, and the peephole pass that replaces `lr; branch; sc` by one fused
  compare-and-swap in place.
*/
module Substitution {
  import opened Machine

  // ---------------------------------------------------- the walk over starts

  /** The instruction starts a front-to-back walk from pc visits. */
  function Walk(code: Code, pc: int): seq<int>
    requires code.base <= pc
    decreases code.Limit() - pc
  {
    if pc >= code.Limit() then [] else [pc] + Walk(code, pc + code.At(pc).Len())
  }

  /** The same walk while the table is still being filled by `dec`. */
  function DecodeWalk(dec: int -> Insn, pc: int, limit: int): seq<int>
    decreases limit - pc
  {
    if pc >= limit then [] else [pc] + DecodeWalk(dec, pc + dec(pc).Len(), limit)
  }

  predicate IsStart(code: Code, pc: int) {
    pc in Walk(code, code.base)
  }

  /** Starts lie ahead of where the walk begins, an even distance away. */
  lemma {:induction false} WalkBounds(code: Code, pc: int, q: int)
    requires code.base <= pc && q in Walk(code, pc)
    ensures pc <= q < code.Limit() && (q - pc) % 2 == 0
    decreases code.Limit() - pc
  {
    if q != pc {
      var n := code.At(pc).Len();
      assert n == 2 || n == 4;
      hide Insn.Len, Code.At;
      WalkBounds(code, pc + n, q);
    }
  }

  lemma {:induction false} DecodeWalkBounds(dec: int -> Insn, pc: int, limit: int, q: int)
    requires q in DecodeWalk(dec, pc, limit)
    ensures pc <= q < limit && (q - pc) % 2 == 0
    decreases limit - pc
  {
    if q != pc {
      DecodeWalkBounds(dec, pc + dec(pc).Len(), limit, q);
    }
  }

  // ------------------------------------------------------------ the pattern

  datatype Match =
    | NotLr            // nothing to do here
    | OffEnd           // reading the pattern leaves the code segment
    | NoMatch          // a load-reserve that cannot be fused
    | Fuse(insn: Insn)

  const ALL_ONES := -1   // what untouched fields of a fresh entry read as

  function FusedOpcode(lr: Opcode, branch: Opcode): Opcode {
    if branch.CBnez? then (if lr.LrW? then Cas10W else Cas10D)
    else (if lr.LrW? then Cas12W else Cas12D)
  }

  function FusedInsn(i: Insn, i2: Insn, i3: Insn): Insn {
    Insn(FusedOpcode(i.op, i2.op), i3.rd, i.rs1, i2.TestReg(), i3.rs2, ALL_ONES)
  }

  function MatchAt(code: Code, pc: int): Match {
    if !code.Valid(pc) then OffEnd else
    var i := code.At(pc);
    if !i.IsLr() then NotLr else
    if !code.Valid(pc + 4) then OffEnd else
    var i2 := code.At(pc + 4);
    if !i2.IsBranch() then NoMatch else
    var at3 := pc + 4 + i2.Len();
    if !code.Valid(at3) then OffEnd else
    var i3 := code.At(at3);
    if !i3.IsSc() || i2.rs1 != i.rd || i3.rs1 != i.rs1 then NoMatch else
    Fuse(FusedInsn(i, i2, i3))
  }

  function EntryAfter(code: Code, pc: int): Insn
    requires code.Valid(pc)
  {
    if IsStart(code, pc) && MatchAt(code, pc).Fuse? then MatchAt(code, pc).insn else code.At(pc)
  }

  /** The whole table after the pass. */
  function Substituted(code: Code): Code {
    Code(code.base, seq(|code.table|, k requires 0 <= k < |code.table| =>
      EntryAfter(code, code.base + 2 * k)))
  }

  predicate EveryLrFuses(code: Code) {
    forall pc | pc in Walk(code, code.base) :: Fusible(code, pc)
  }

  predicate SomePatternLeavesCode(code: Code) {
    exists pc | pc in Walk(code, code.base) :: MatchAt(code, pc).OffEnd?
  }

  // ------------------------------------------ the pattern, entry by entry

  /** Entry k is a load-reserve, entry k+2 a bne or c.bnez on the register it
      loads, and the entry behind that an SC with the same address register. */
  predicate Pattern(t: seq<Insn>, k: nat) {
    && k < |t| && (t[k].op == LrW || t[k].op == LrD)
    && k + 2 < |t| && t[k + 2].rs1 == t[k].rd
    && (t[k + 2].op == Bne || t[k + 2].op == CBnez)
    && var j := if t[k + 2].op == Bne then k + 4 else k + 3;
       j < |t| && (t[j].op == ScW || t[j].op == ScD) && t[j].rs1 == t[k].rs1
  }

  /** What stands for it: the compare-and-swap of the load's width and of the
      sequence's length, with the flag, address, tested and new-value registers;
      c.bnez tests against x0. */
  function Swap(t: seq<Insn>, k: nat): Insn
    requires Pattern(t, k)
  {
    if t[k + 2].op == Bne then
      Insn(if t[k].op == LrW then Cas12W else Cas12D, t[k + 4].rd, t[k].rs1, t[k + 2].rs2, t[k + 4].rs2, -1)
    else
      Insn(if t[k].op == LrW then Cas10W else Cas10D, t[k + 3].rd, t[k].rs1, 0, t[k + 3].rs2, -1)
  }

  /** Entry k is a load-reserve whose pattern cannot be read to its end. */
  predicate CutOff(t: seq<Insn>, k: nat) {
    && k < |t| && (t[k].op == LrW || t[k].op == LrD)
    && (k + 2 >= |t|
        || (t[k + 2].op == Bne && k + 4 >= |t|)
        || (t[k + 2].op == CBnez && k + 3 >= |t|))
  }

  /** The starts, as entries: entry 0, and one or two entries behind a start as
      its instruction is compressed or not. */
  predicate Starts(t: seq<Insn>, k: nat)
    decreases k
  {
    k < |t| && (k == 0 || (k >= 1 && Starts(t, k - 1) && Short(t[k - 1])) || (k >= 2 && Starts(t, k - 2) && !Short(t[k - 2])))
  }

  /** Two bytes long: the entries never written, c.bnez and the other compressed
      instructions. */
  predicate Short(i: Insn) { i.op == Zero || i.op == CBnez || i.op.Compressed? }

  /** Every load-reserve at a start begins the pattern. */
  predicate EveryLrFollowed(t: seq<Insn>) {
    forall k :: 0 <= k < |t| && Starts(t, k) && (t[k].op == LrW || t[k].op == LrD) ==> Pattern(t, k)
  }

  predicate SomeLrCutOff(t: seq<Insn>) {
    exists k :: 0 <= k < |t| && Starts(t, k) && CutOff(t, k)
  }

  /** The table with every pattern at a start swapped. */
  predicate Rewritten(before: seq<Insn>, after: seq<Insn>) {
    && |after| == |before|
    && forall k :: 0 <= k < |before| ==>
         after[k] == if Starts(before, k) && Pattern(before, k) then Swap(before, k) else before[k]
  }

  lemma MatchIsPattern(code: Code, k: nat)
    requires k < |code.table|
    ensures var m := MatchAt(code, code.base + 2 * k);
            && (m.Fuse? <==> Pattern(code.table, k))
            && (m.Fuse? ==> m.insn == Swap(code.table, k))
            && (m.OffEnd? <==> CutOff(code.table, k))
            && (m.NotLr? <==> code.table[k].op != LrW && code.table[k].op != LrD)
  {
    assert forall j: nat :: j < |code.table| ==> code.Index(code.base + 2 * j) == j;
    var pc := code.base + 2 * k;
    assert pc + 4 == code.base + 2 * (k + 2) && pc + 8 == code.base + 2 * (k + 4) && pc + 6 == code.base + 2 * (k + 3);
  }

  lemma {:induction false} NextIsStart(code: Code, from: int, pc: int)
    requires code.base <= from && code.Valid(pc) && pc in Walk(code, from) && pc + code.At(pc).Len() < code.Limit()
    ensures pc + code.At(pc).Len() in Walk(code, from)
    decreases code.Limit() - from
  {
    var n := code.At(from).Len();
    assert n > 0;
    assert Walk(code, from) == [from] + Walk(code, from + n);
    hide Insn.Len, Code.At;
    if pc != from {
      WalkBounds(code, from + n, pc);
      NextIsStart(code, from + n, pc);
    }
  }

  lemma ShortMeans(i: Insn)
    ensures i.Len() == if Short(i) then 2 else 4
  {
  }

  lemma EvenIndex(code: Code, k: nat)
    requires k < |code.table|
    ensures code.Valid(code.base + 2 * k) && code.Index(code.base + 2 * k) == k && code.At(code.base + 2 * k) == code.table[k]
  {
  }

  lemma {:induction false} StartIsWalked(code: Code, k: nat)
    requires Starts(code.table, k)
    ensures IsStart(code, code.base + 2 * k)
    decreases k
  {
    if k > 0 {
      var j := if Starts(code.table, k - 1) && Short(code.table[k - 1]) then k - 1 else k - 2;
      StartIsWalked(code, j);
      EvenIndex(code, j);
      ShortMeans(code.table[j]);
      hide Insn.Len, Code.At, Starts, Walk;
      NextIsStart(code, code.base, code.base + 2 * j);
    }
  }

  lemma {:induction false} WalkedIsStart(code: Code, k: nat, q: nat)
    requires Starts(code.table, k) && q < |code.table| && code.base + 2 * q in Walk(code, code.base + 2 * k)
    ensures Starts(code.table, q)
    decreases |code.table| - k
  {
    if q != k {
      var n := if Short(code.table[k]) then 1 else 2;
      EvenIndex(code, k);
      ShortMeans(code.table[k]);
      assert Walk(code, code.base + 2 * k) == [code.base + 2 * k] + Walk(code, code.base + 2 * (k + n));
      WalkBounds(code, code.base + 2 * (k + n), code.base + 2 * q);
      assert Starts(code.table, k + n);
      WalkedIsStart(code, k + n, q);
    }
  }

  /** The starts are what the walk visits. */
  lemma StartsAreWalked(code: Code, k: nat)
    requires k < |code.table|
    ensures Starts(code.table, k) <==> IsStart(code, code.base + 2 * k)
  {
    if Starts(code.table, k) { StartIsWalked(code, k); }
    if IsStart(code, code.base + 2 * k) { WalkedIsStart(code, 0, k); }
  }

  /** A walked address as an entry. */
  lemma WalkedEntry(code: Code, pc: int) returns (k: nat)
    requires IsStart(code, pc)
    ensures k < |code.table| && pc == code.base + 2 * k && Starts(code.table, k)
  {
    WalkBounds(code, code.base, pc);
    k := (pc - code.base) / 2;
    StartsAreWalked(code, k);
  }

  /** The pass, entry by entry. */
  lemma SubstitutedIsRewritten(code: Code)
    ensures Rewritten(code.table, Substituted(code).table)
  {
    hide MatchAt, Pattern, Swap, Starts, IsStart;
    forall k | 0 <= k < |code.table|
      ensures Substituted(code).table[k]
              == if Starts(code.table, k) && Pattern(code.table, k) then Swap(code.table, k) else code.table[k]
    {
      EvenIndex(code, k);
      StartsAreWalked(code, k);
      MatchIsPattern(code, k);
    }
  }

  /** When it returns, and when it faults. */
  lemma OutcomesArePatterns(code: Code)
    ensures EveryLrFuses(code) <==> EveryLrFollowed(code.table)
    ensures SomePatternLeavesCode(code) <==> SomeLrCutOff(code.table)
  {
    hide MatchAt, Pattern, Starts, CutOff, Walk;
    if EveryLrFuses(code) {
      forall k | 0 <= k < |code.table| && Starts(code.table, k) && (code.table[k].op == LrW || code.table[k].op == LrD)
        ensures Pattern(code.table, k)
      {
        StartMatch(code, k);
      }
    }
    if EveryLrFollowed(code.table) {
      forall pc | IsStart(code, pc) ensures Fusible(code, pc) {
        var k := WalkedEntry(code, pc);
        StartMatch(code, k);
      }
    }
    if SomePatternLeavesCode(code) {
      var pc :| pc in Walk(code, code.base) && MatchAt(code, pc).OffEnd?;
      assert IsStart(code, pc);
      var k := WalkedEntry(code, pc);
      StartMatch(code, k);
    }
    if SomeLrCutOff(code.table) {
      var k :| 0 <= k < |code.table| && Starts(code.table, k) && CutOff(code.table, k);
      StartMatch(code, k);
    }
  }

  lemma StartMatch(code: Code, k: nat)
    requires k < |code.table| && Starts(code.table, k)
    ensures code.base + 2 * k in Walk(code, code.base)
    ensures Fusible(code, code.base + 2 * k) <==>
              (code.table[k].op == LrW || code.table[k].op == LrD ==> Pattern(code.table, k))
    ensures MatchAt(code, code.base + 2 * k).OffEnd? <==> CutOff(code.table, k)
  {
    hide MatchAt, Pattern, Starts, CutOff, Walk;
    StartsAreWalked(code, k);
    MatchIsPattern(code, k);
  }

  // ------------------------------------------------------- the code segment

  /** How a call ends: normally, by exit(-1), or by the range check's fault. */
  datatype Outcome = Returned | Exited | Faulted

  class InsnSpace {
    const base: int
    const predecoded: array<Insn>

    constructor (base: int, n: nat)
      ensures this.base == base && predecoded.Length == n && fresh(predecoded)
      ensures forall k :: 0 <= k < n ==> predecoded[k] == ZERO_INSN
    {
      this.base := base;
      this.predecoded := new Insn[n](_ => ZERO_INSN);
    }

    function View(): Code
      reads predecoded
    {
      Code(base, predecoded[..])
    }

    /** Decode the segment front to back: every start holds its decoded
        instruction, everything else stays zero. */
    method Predecode(dec: int -> Insn)
      requires forall k :: 0 <= k < predecoded.Length ==> predecoded[k] == ZERO_INSN
      modifies predecoded
      ensures View() == Decoded(dec, base, predecoded.Length)
    {
      hide DecodeWalk, Decodes, DecodedBelow, Decoded;
      var pc, limit := base, base + 2 * predecoded.Length;
      ghost var n := predecoded.Length;
      ghost var done: seq<int> := [];
      DecodedBegin(dec, base, n);
      while pc < limit
        invariant base <= pc && (pc - base) % 2 == 0
        invariant done + DecodeWalk(dec, pc, limit) == DecodeWalk(dec, base, limit)
        invariant forall k :: 0 <= k < |done| ==> done[k] < pc
        invariant predecoded[..] == DecodedBelow(dec, base, n, pc)
        decreases limit - pc
      {
        DecodedStep(dec, base, n, done, pc);
        var i := dec(pc);
        predecoded[(pc - base) / 2] := i;
        done := done + [pc];
        pc := pc + i.Len();
      }
      DecodedEnd(dec, base, n, pc);
    }

    /** Look for the pattern at pc, reading only entries from pc on, and replace
        the load-reserve there if it is found. */
    method FuseAt(pc: int) returns (m: Match)
      requires View().Valid(pc)
      modifies predecoded
      ensures m == MatchAt(old(View()), pc)
      ensures View() == Replaced(old(View()), pc)
      ensures (pc - base) % 2 == 0 ==>
                var k, t := (pc - base) / 2, old(predecoded[..]);
                && (m.Fuse? <==> Pattern(t, k))
                && predecoded[..] == if Pattern(t, k) then t[k := Swap(t, k)] else t
    {
      if (pc - base) % 2 == 0 { MatchIsPattern(View(), (pc - base) / 2); }
      var limit := base + 2 * predecoded.Length;
      var i := predecoded[(pc - base) / 2];
      if !i.IsLr() { return NotLr; }
      if pc + 4 >= limit { return OffEnd; }
      var i2 := predecoded[(pc + 4 - base) / 2];
      if !i2.IsBranch() { return NoMatch; }
      var len := 4 + if i2.op.CBnez? then 2 else 4;
      if pc + len >= limit { return OffEnd; }
      var i3 := predecoded[(pc + len - base) / 2];
      if !i3.IsSc() || i2.rs1 != i.rd || i3.rs1 != i.rs1 { return NoMatch; }
      m := Fuse(FusedInsn(i, i2, i3));
      predecoded[(pc - base) / 2] := m.insn;
    }

    /** Fuse every load-reserve sequence in place. */
    method SubstituteCas() returns (r: Outcome)
      modifies predecoded
      ensures r.Faulted? <==> SomeLrCutOff(old(predecoded[..]))
      ensures r.Returned? <==> EveryLrFollowed(old(predecoded[..]))
      ensures !r.Faulted? ==> View() == Substituted(old(View())) && Rewritten(old(predecoded[..]), predecoded[..])
    {
      hide MatchAt, EntryAfter, RewrittenBelow, Progress, Replaced, Substituted, Tally, IsStart, EveryLrFuses,
        SomePatternLeavesCode, EveryLrFollowed, SomeLrCutOff, Rewritten;
      ghost var code := View();
      var pc, limit := base, base + 2 * predecoded.Length;
      var possible, replaced := 0, 0;
      ghost var done: seq<int> := [];
      PassBegin(code);
      OutcomesArePatterns(code);
      while pc < limit
        invariant Progress(code, done, pc)
        invariant |code.table| == predecoded.Length
        invariant View() == RewrittenBelow(code, pc)
        invariant Tally(code, done) == (possible, replaced, false)
        decreases limit - pc
      {
        PassStep(code, done, pc);
        var m := FuseAt(pc);
        if m.OffEnd? { return Faulted; }
        possible := possible + if m.NotLr? then 0 else 1;
        replaced := replaced + if m.Fuse? then 1 else 0;
        var len := predecoded[(pc - base) / 2].Len();
        assert len == View().At(pc).Len() == code.At(pc).Len();
        done, pc := done + [pc], pc + len;
      }
      PassEnd(code, done, pc);
      SubstitutedIsRewritten(code);
      r := if replaced != possible then Exited else Returned;
    }
  }

  // ------------------------------------------------------------- predecoding

  const ZERO_INSN := Insn(Zero, 0, 0, 0, 0, 0)

  predicate Decodes(dec: int -> Insn, base: int, n: nat, q: int) {
    q in DecodeWalk(dec, base, base + 2 * n)
  }

  /** The table of n entries with the starts below pc decoded. */
  function DecodedBelow(dec: int -> Insn, base: int, n: nat, pc: int): seq<Insn> {
    seq(n, k => if base + 2 * k < pc && Decodes(dec, base, n, base + 2 * k) then dec(base + 2 * k) else ZERO_INSN)
  }

  /** The fully predecoded segment: starts decoded, everything else zero. */
  function Decoded(dec: int -> Insn, base: int, n: nat): Code {
    Code(base, seq(n, k => if Decodes(dec, base, n, base + 2 * k) then dec(base + 2 * k) else ZERO_INSN))
  }

  /** One more start behind the walk. */
  lemma DecodeWalkStep(dec: int -> Insn, base: int, limit: int, done: seq<int>, pc: int)
    requires base <= pc < limit && (pc - base) % 2 == 0
    requires done + DecodeWalk(dec, pc, limit) == DecodeWalk(dec, base, limit)
    ensures (done + [pc]) + DecodeWalk(dec, pc + dec(pc).Len(), limit) == DecodeWalk(dec, base, limit)
  {
    var rest := DecodeWalk(dec, pc + dec(pc).Len(), limit);
    assert done + ([pc] + rest) == (done + [pc]) + rest;
  }

  /** With `done` behind the walk, the starts from pc up to the next one are pc. */
  lemma DecodesAhead(dec: int -> Insn, base: int, n: nat, done: seq<int>, pc: int, q: int)
    requires base <= pc < base + 2 * n && (pc - base) % 2 == 0
    requires done + DecodeWalk(dec, pc, base + 2 * n) == DecodeWalk(dec, base, base + 2 * n)
    requires forall k :: 0 <= k < |done| ==> done[k] < pc
    ensures pc <= q < pc + dec(pc).Len() ==> (Decodes(dec, base, n, q) <==> q == pc)
  {
    var rest := DecodeWalk(dec, pc + dec(pc).Len(), base + 2 * n);
    assert DecodeWalk(dec, base, base + 2 * n) == done + ([pc] + rest);
    if q in rest {
      DecodeWalkBounds(dec, pc + dec(pc).Len(), base + 2 * n, q);
    }
    assert Decodes(dec, base, n, q) <==> q in done || q == pc || q in rest;
  }

  lemma DecodedStep(dec: int -> Insn, base: int, n: nat, done: seq<int>, pc: int)
    requires base <= pc < base + 2 * n && (pc - base) % 2 == 0
    requires done + DecodeWalk(dec, pc, base + 2 * n) == DecodeWalk(dec, base, base + 2 * n)
    requires forall k :: 0 <= k < |done| ==> done[k] < pc
    ensures DecodedBelow(dec, base, n, pc + dec(pc).Len()) ==
            DecodedBelow(dec, base, n, pc)[(pc - base) / 2 := dec(pc)]
    ensures (done + [pc]) + DecodeWalk(dec, pc + dec(pc).Len(), base + 2 * n) == DecodeWalk(dec, base, base + 2 * n)
  {
    hide DecodeWalk, Decodes;
    DecodeWalkStep(dec, base, base + 2 * n, done, pc);
    var after, before := DecodedBelow(dec, base, n, pc + dec(pc).Len()), DecodedBelow(dec, base, n, pc);
    forall k | 0 <= k < n ensures after[k] == before[(pc - base) / 2 := dec(pc)][k] {
      DecodesAhead(dec, base, n, done, pc, base + 2 * k);
    }
  }

  lemma DecodedBegin(dec: int -> Insn, base: int, n: nat)
    ensures DecodedBelow(dec, base, n, base) == seq(n, _ => ZERO_INSN)
  {
  }

  lemma DecodedEnd(dec: int -> Insn, base: int, n: nat, pc: int)
    requires pc >= base + 2 * n
    ensures Code(base, DecodedBelow(dec, base, n, pc)) == Decoded(dec, base, n)
  {
  }

  lemma AtStart(code: Code, dec: int -> Insn, pc: int)
    requires code == Decoded(dec, code.base, |code.table|)
    requires Decodes(dec, code.base, |code.table|, pc)
    ensures code.Valid(pc) && code.At(pc) == dec(pc)
  {
    DecodeWalkBounds(dec, code.base, code.Limit(), pc);
    hide Decodes;
    assert code.base + 2 * code.Index(pc) == pc;
  }

  /** The walk over the filled table repeats the walk that filled it. */
  lemma WalkRepeats(code: Code, dec: int -> Insn)
    requires code == Decoded(dec, code.base, |code.table|)
    ensures Walk(code, code.base) == DecodeWalk(dec, code.base, code.Limit())
  {
    forall q | q in DecodeWalk(dec, code.base, code.Limit()) ensures code.Valid(q) && code.At(q) == dec(q) {
      assert Decodes(dec, code.base, |code.table|, q);
      AtStart(code, dec, q);
    }
    hide Decoded, DecodeWalk, Walk;
    WalkFollows(code, dec, code.base);
  }

  lemma {:induction false} WalkFollows(code: Code, dec: int -> Insn, pc: int)
    requires code.base <= pc
    requires forall q :: q in DecodeWalk(dec, pc, code.Limit()) ==> code.Valid(q) && code.At(q) == dec(q)
    ensures Walk(code, pc) == DecodeWalk(dec, pc, code.Limit())
    decreases code.Limit() - pc
  {
    if pc < code.Limit() {
      var n := dec(pc).Len();
      assert n > 0;
      WalkOnce(code, pc);
      WalkUnfolds(code, dec, pc);
      hide Walk, DecodeWalk, Insn.Len, Code.At;
      assert code.At(pc) == dec(pc);
      WalkFollows(code, dec, pc + n);
    }
  }

  lemma WalkUnfolds(code: Code, dec: int -> Insn, pc: int)
    requires code.Valid(pc)
    ensures DecodeWalk(dec, pc, code.Limit()) == [pc] + DecodeWalk(dec, pc + dec(pc).Len(), code.Limit())
  {
    hide Insn.Len, Code.At;
  }

  // ---------------------------------------------------------------- rewriting

  predicate Fusible(code: Code, pc: int) {
    MatchAt(code, pc).NotLr? || MatchAt(code, pc).Fuse?
  }

  /** The code with what the pass does at pc done. */
  function Replaced(code: Code, pc: int): Code
    requires code.Valid(pc)
  {
    if MatchAt(code, pc).Fuse? then
      Code(code.base, code.table[code.Index(pc) := MatchAt(code, pc).insn])
    else code
  }

  /** The code with the pass applied to everything below pc. */
  function RewrittenBelow(code: Code, pc: int): (c: Code)
    ensures c.base == code.base && |c.table| == |code.table|
  {
    Code(code.base, seq(|code.table|, k requires 0 <= k < |code.table| =>
      if code.base + 2 * k < pc then EntryAfter(code, code.base + 2 * k) else code.table[k]))
  }

  /** The walk has visited `done` and stands at pc. */
  predicate Progress(code: Code, done: seq<int>, pc: int) {
    && code.base <= pc && (pc - code.base) % 2 == 0
    && done + Walk(code, pc) == Walk(code, code.base)
    && forall k :: 0 <= k < |done| ==> done[k] < pc
  }

  /** With `done` behind the walk, pc is the next start and nothing strictly
      inside its instruction is one. */
  lemma StartsAhead(code: Code, done: seq<int>, pc: int)
    requires code.Valid(pc) && Progress(code, done, pc)
    ensures IsStart(code, pc)
    ensures forall q :: pc < q < pc + code.At(pc).Len() ==> !IsStart(code, q)
    ensures Progress(code, done + [pc], pc + code.At(pc).Len())
  {
    var rest := Walk(code, pc + code.At(pc).Len());
    assert Walk(code, code.base) == done + ([pc] + rest);
    forall q | q in rest ensures q >= pc + code.At(pc).Len() {
      WalkBounds(code, pc + code.At(pc).Len(), q);
    }
    assert forall q :: q in Walk(code, code.base) <==> q in done || q == pc || q in rest;
    assert (done + [pc]) + rest == Walk(code, code.base);
  }

  lemma PassBegin(code: Code)
    ensures Progress(code, [], code.base)
    ensures RewrittenBelow(code, code.base) == code
    ensures Tally(code, []) == (0, 0, false)
  {
    assert RewrittenBelow(code, code.base).table == code.table;
  }

  lemma MatchReadsAhead(code: Code, code': Code, pc: int)
    requires code.Valid(pc) && code'.base == code.base && |code'.table| == |code.table|
    requires forall k :: code.Index(pc) <= k < |code.table| ==> code'.table[k] == code.table[k]
    ensures MatchAt(code', pc) == MatchAt(code, pc)
  {
  }

  /** What is ahead of the walk is still the original, so working on the
      half-rewritten table finds what the original holds. */
  lemma RewrittenStep(code: Code, pc: int)
    requires code.Valid(pc) && (pc - code.base) % 2 == 0 && IsStart(code, pc)
    requires forall q :: pc < q < pc + code.At(pc).Len() ==> !IsStart(code, q)
    ensures MatchAt(RewrittenBelow(code, pc), pc) == MatchAt(code, pc)
    ensures Replaced(RewrittenBelow(code, pc), pc) == RewrittenBelow(code, pc + code.At(pc).Len())
    ensures Replaced(RewrittenBelow(code, pc), pc).At(pc).Len() == code.At(pc).Len()
  {
    var before, next := RewrittenBelow(code, pc), pc + code.At(pc).Len();
    var after := RewrittenBelow(code, next);
    assert forall k :: code.Index(pc) <= k < |code.table| ==> before.table[k] == code.table[k];
    MatchReadsAhead(code, before, pc);
    FusedKeepsLength(code, pc);
    hide MatchAt, RewrittenBelow, EntryAfter, IsStart;
    forall k | 0 <= k < |code.table|
      ensures after.table[k] == Replaced(before, pc).table[k]
    {
      EntryStep(code, pc, k);
      RewrittenAt(code, pc, k);
      RewrittenAt(code, next, k);
    }
    assert after.table == Replaced(before, pc).table;
  }

  lemma RewrittenAt(code: Code, pc: int, k: nat)
    requires k < |code.table|
    ensures RewrittenBelow(code, pc).table[k]
            == if code.base + 2 * k < pc then EntryAfter(code, code.base + 2 * k) else code.table[k]
  {
    hide EntryAfter;
  }

  /** What one step of the pass does to one entry. */
  lemma EntryStep(code: Code, pc: int, k: nat)
    requires code.Valid(pc) && (pc - code.base) % 2 == 0 && IsStart(code, pc) && k < |code.table|
    requires forall q :: pc < q < pc + code.At(pc).Len() ==> !IsStart(code, q)
    ensures var q := code.base + 2 * k;
            (if q < pc + code.At(pc).Len() then EntryAfter(code, q) else code.table[k])
            == if q == pc && MatchAt(code, pc).Fuse? then MatchAt(code, pc).insn
               else if q < pc then EntryAfter(code, q) else code.table[k]
  {
    hide MatchAt;
    var q := code.base + 2 * k;
    if pc < q < pc + code.At(pc).Len() { assert !IsStart(code, q); }
  }

  lemma FusedKeepsLength(code: Code, pc: int)
    requires code.Valid(pc)
    ensures MatchAt(code, pc).Fuse? ==> MatchAt(code, pc).insn.Len() == code.At(pc).Len()
  {
  }

  lemma PassStep(code: Code, done: seq<int>, pc: int)
    requires code.Valid(pc) && Progress(code, done, pc) && !Tally(code, done).2
    ensures MatchAt(RewrittenBelow(code, pc), pc) == MatchAt(code, pc)
    ensures Replaced(RewrittenBelow(code, pc), pc) == RewrittenBelow(code, pc + code.At(pc).Len())
    ensures RewrittenBelow(code, pc + code.At(pc).Len()).At(pc).Len() == code.At(pc).Len()
    ensures Progress(code, done + [pc], pc + code.At(pc).Len())
    ensures MatchAt(code, pc).OffEnd? ==> SomePatternLeavesCode(code) && !EveryLrFuses(code)
    ensures Tally(code, done + [pc]) == TallyAdd(Tally(code, done), MatchAt(code, pc))
  {
    StartsAhead(code, done, pc);
    RewrittenStep(code, pc);
    assert (done + [pc])[..|done|] == done;
    if MatchAt(code, pc).OffEnd? { assert !Fusible(code, pc); }
  }

  lemma PassEnd(code: Code, done: seq<int>, pc: int)
    requires Progress(code, done, pc) && pc >= code.Limit() && !Tally(code, done).2
    ensures RewrittenBelow(code, pc) == Substituted(code)
    ensures !SomePatternLeavesCode(code)
    ensures EveryLrFuses(code) <==> Tally(code, done).0 == Tally(code, done).1
  {
    assert RewrittenBelow(code, pc).table == Substituted(code).table;
    assert done == Walk(code, code.base);
    TallyMeaning(code, done);
  }

  /** Load-reserves seen, replacements made, and whether some pattern ran off
      the end, over a sequence of starts. */
  function Tally(code: Code, starts: seq<int>): (int, int, bool) {
    if starts == [] then (0, 0, false) else
    TallyAdd(Tally(code, starts[..|starts| - 1]), MatchAt(code, starts[|starts| - 1]))
  }

  function TallyAdd(t: (int, int, bool), m: Match): (int, int, bool) {
    match m
    case NotLr => t
    case OffEnd => (t.0 + 1, t.1, true)
    case NoMatch => (t.0 + 1, t.1, t.2)
    case Fuse(_) => (t.0 + 1, t.1 + 1, t.2)
  }

  lemma {:induction false} TallyMeaning(code: Code, starts: seq<int>)
    ensures Tally(code, starts).2 <==> exists p :: p in starts && MatchAt(code, p).OffEnd?
    ensures Tally(code, starts).1 <= Tally(code, starts).0
    ensures Tally(code, starts).1 == Tally(code, starts).0 <==> forall p | p in starts :: Fusible(code, p)
  {
    if starts != [] {
      var init, last := starts[..|starts| - 1], starts[|starts| - 1];
      TallyMeaning(code, init);
      hide MatchAt;
      assert starts == init + [last];
      assert (exists p :: p in starts && MatchAt(code, p).OffEnd?)
        <==> (exists p :: p in init && MatchAt(code, p).OffEnd?) || MatchAt(code, last).OffEnd?;
      assert (forall p | p in starts :: Fusible(code, p)) <==> (forall p | p in init :: Fusible(code, p)) && Fusible(code, last);
    }
  }

  // ------------------------------------------------------------ what it did

  /** code' is code with some load-reserves replaced by what they match. */
  ghost predicate Fused(code: Code, code': Code) {
    && code'.base == code.base && |code'.table| == |code.table|
    && forall pc :: code.Valid(pc) ==>
         code'.At(pc) == code.At(pc) || MatchAt(code, pc) == Fuse(code'.At(pc))
  }

  /** The original program uses none of the fused opcodes. */
  predicate NoCas(code: Code) {
    forall k :: 0 <= k < |code.table| ==> !code.table[k].IsCas()
  }

  lemma SameIndexSameMatch(code: Code, pc: int, q: int)
    requires code.Valid(pc) && code.Valid(q) && code.Index(pc) == code.Index(q)
    ensures MatchAt(code, pc) == MatchAt(code, q)
  {
    hide FusedInsn;
    var n := if code.Valid(pc + 4) then code.At(pc + 4).Len() else 2;
    assert n % 2 == 0;
    hide Insn.Len;
  }

  lemma EntryAt(code: Code, pc: int)
    requires code.Valid(pc)
    ensures var even := code.base + 2 * code.Index(pc);
            && code.Valid(even) && code.Index(even) == code.Index(pc)
            && Substituted(code).Valid(pc) && Substituted(code).At(pc) == EntryAfter(code, even)
  {
    hide EntryAfter;
  }

  lemma SubstitutedAt(code: Code, pc: int)
    requires code.Valid(pc)
    ensures var code' := Substituted(code);
            && code'.Valid(pc)
            && (code'.At(pc) == code.At(pc) || MatchAt(code, pc) == Fuse(code'.At(pc)))
  {
    EntryAt(code, pc);
    SameIndexSameMatch(code, code.base + 2 * code.Index(pc), pc);
    hide MatchAt, IsStart, Substituted;
  }

  lemma SubstitutedIsFused(code: Code)
    ensures Fused(code, Substituted(code))
  {
    var code' := Substituted(code);
    assert code'.base == code.base && |code'.table| == |code.table|;
    hide MatchAt, Substituted, Code.At;
    forall pc | code.Valid(pc)
      ensures code'.Valid(pc) && (code'.At(pc) == code.At(pc) || MatchAt(code, pc) == Fuse(code'.At(pc)))
    {
      SubstitutedAt(code, pc);
    }
  }

  lemma LenPositive(i: Insn)
    ensures i.Len() > 0
  {
  }

  lemma WalkOnce(code: Code, pc: int)
    requires code.Valid(pc)
    ensures Walk(code, pc) == [pc] + Walk(code, pc + code.At(pc).Len())
  {
    hide Insn.Len, Code.At;
  }

  lemma WalkOver(code: Code, pc: int)
    requires code.base <= pc && pc >= code.Limit()
    ensures Walk(code, pc) == []
  {
  }

  lemma {:induction false} SameLengthsSameWalk(code: Code, code': Code, pc: int)
    requires code.base == code'.base <= pc && |code.table| == |code'.table|
    requires forall k :: 0 <= k < |code.table| ==> code'.table[k].Len() == code.table[k].Len()
    ensures Walk(code', pc) == Walk(code, pc)
    decreases code.Limit() - pc
  {
    hide Walk, Insn.Len;
    if pc < code.Limit() {
      var n := code.At(pc).Len();
      LenPositive(code.At(pc));
      assert code'.At(pc).Len() == n by { assert code'.Index(pc) == code.Index(pc); }
      WalkOnce(code, pc);
      WalkOnce(code', pc);
      SameLengthsSameWalk(code, code', pc + n);
    } else {
      WalkOver(code, pc);
      WalkOver(code', pc);
    }
  }

  lemma EntryLength(code: Code, k: nat)
    requires k < |code.table|
    ensures Substituted(code).table[k].Len() == code.table[k].Len()
  {
    hide EntryAfter, Walk, MatchAt, Insn.Len;
    var pc := code.base + 2 * k;
    assert code.Index(pc) == k && Substituted(code).Index(pc) == k;
    EntryFacts(code, pc);
  }

  /** The rewritten table has the same instruction starts. */
  lemma PassKeepsStarts(code: Code)
    ensures Walk(Substituted(code), code.base) == Walk(code, code.base)
  {
    assert Substituted(code).base == code.base && |Substituted(code).table| == |code.table|;
    hide Substituted, Walk, Insn.Len;
    forall k | 0 <= k < |code.table|
      ensures Substituted(code).table[k].Len() == code.table[k].Len()
    {
      EntryLength(code, k);
    }
    SameLengthsSameWalk(code, Substituted(code), code.base);
  }

  /** If the pass returns, no load-reserve remains at any start. */
  lemma PassLeavesNoLr(code: Code, pc: int)
    requires EveryLrFuses(code) && IsStart(Substituted(code), pc)
    ensures code.Valid(pc) && !Substituted(code).At(pc).IsLr()
  {
    hide EntryAfter, Walk, MatchAt;
    PassKeepsStarts(code);
    StartBounds(code, pc);
    EntryFacts(code, pc);
  }

  /** An entry the pass changed was a load-reserve at a start and is now a fused
      instruction; the branch on the register that was loaded is still at pc+4. */
  lemma PassChangesOnlyLr(code: Code, k: nat)
    requires k < |code.table| && Substituted(code).table[k] != code.table[k]
    ensures var pc := code.base + 2 * k;
            && IsStart(code, pc) && code.At(pc).IsLr() && Substituted(code).At(pc).IsCas()
            && code.Valid(pc + 4)
            && Substituted(code).At(pc + 4) == code.At(pc + 4)
            && code.At(pc + 4).IsBranch()
            && code.At(pc + 4).rs1 == code.At(pc).rd
  {
    hide EntryAfter, Walk, MatchAt;
    EntryFacts(code, code.base + 2 * k);
    EntryFacts(code, code.base + 2 * k + 4);
  }

  lemma StartBounds(code: Code, pc: int)
    requires IsStart(code, pc)
    ensures code.Valid(pc) && (pc - code.base) % 2 == 0
    ensures EveryLrFuses(code) ==> Fusible(code, pc)
  {
    WalkBounds(code, code.base, pc);
  }

  lemma EntryFacts(code: Code, pc: int)
    requires code.Valid(pc) && (pc - code.base) % 2 == 0
    ensures Substituted(code).At(pc) == EntryAfter(code, pc)
    ensures EntryAfter(code, pc).Len() == code.At(pc).Len()
    ensures !code.At(pc).IsLr() ==> EntryAfter(code, pc) == code.At(pc)
    ensures EntryAfter(code, pc) != code.At(pc) ==> 
              IsStart(code, pc) && MatchAt(code, pc).Fuse? && code.At(pc).IsLr() && EntryAfter(code, pc).IsCas()
    ensures IsStart(code, pc) && Fusible(code, pc) ==> !EntryAfter(code, pc).IsLr()
    ensures MatchAt(code, pc).Fuse? ==>
              code.Valid(pc + 4) && code.At(pc + 4).IsBranch() && code.At(pc + 4).rs1 == code.At(pc).rd
  {
  }
}
