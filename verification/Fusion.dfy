/**
  Fusion preserves meaning.  Every interleaved run of the interpreter on the
  substituted program is matched, turn by turn, by a run of the original
  program on a machine with LR/SC and reservations.
*/
module Fusion {
  import opened Common
  import opened Machine
  import opened Substitution
  import opened Sites

  /** The site at pc, where the pass found its pattern. */
  function SiteAt(code: Code, pc: int): (s: Site)
    requires code.Valid(pc) && MatchAt(code, pc).Fuse?
    ensures s.Ok()
  {
    Site(code.At(pc), code.At(pc + 4), code.At(pc + 4 + code.At(pc + 4).Len()))
  }

  predicate GoodAt(code: Code, pc: int)
    requires code.Valid(pc) && MatchAt(code, pc).Fuse?
  {
    GoodSite(SiteAt(code, pc))
  }

  ghost predicate WellFormed(code: Code) {
    && NoCas(code)
    && forall pc :: code.Valid(pc) && MatchAt(code, pc).Fuse? ==> GoodAt(code, pc)
  }

  /** What the state must satisfy for hart h's next instruction to mean the same
      on both machines.  A fused swap wants an aligned address and a test
      register holding a value of the operand width, unless memory differs from
      its truncation anyway; a lone SC wants the reservation the interpreter does
      not check. */
  predicate TurnOk(code': Code, c: Config, h: nat)
    requires c.Ok() && h < |c.resv|
  {
    var hart := c.m.harts[h];
    code'.Valid(hart.pc) ==>
      var i := code'.At(hart.pc);
      var a, w := Get(hart.x, i.rs1), i.AccessWidth();
      if i.IsCas() then
        var test := Get(hart.x, i.rs2);
        Aligned(a, w) && (Truncate(w, test) == test || !InRange(c.m.mem, a, w) || Load(c.m.mem, a, w) != Truncate(w, test))
      else if i.IsLr() then Aligned(a, w)
      else if i.IsSc() then Aligned(a, w) && Reserved(c, h, a, w)
      else true
  }

  // ------------------------------------------------------------ the matching

  /** What the original program does for one turn of hart h: LR and the branch,
      and the SC if the branch falls through, where the interpreter runs a fused
      instruction; the same instruction elsewhere. */
  function Block(code': Code, c: Config, h: nat, input: int): (s: seq<Choice>)
    requires c.Ok() && h < |c.resv|
    ensures forall k :: 0 <= k < |s| ==> s[k].hart == h
  {
    var one := Choice(h, input, true);
    var hart := c.m.harts[h];
    if code'.Valid(hart.pc) && code'.At(hart.pc).IsCas() && code'.Valid(hart.pc + 4) then
      var i, branch := code'.At(hart.pc), code'.At(hart.pc + 4);
      var a, w := Get(hart.x, i.rs1), i.AccessWidth();
      if InRange(c.m.mem, a, w) && !Taken(branch, Set(hart.x, branch.rs1, Load(c.m.mem, a, w)))
      then [one, one, one] else [one, one]
    else [one]
  }

  /** The block ends where the interpreter's turn ends: same registers and pc of
      every hart, same memory. */
  predicate Agrees(code: Code, code': Code, sem: Semantics, c: Config, h: nat, input: int)
    requires c.Ok() && h < |c.resv|
  {
    && Ustep(code', sem, c, h, input).Some?
    && Irun(code, sem, c, Block(code', c, h, input)).Some?
    && Irun(code, sem, c, Block(code', c, h, input)).value.m == Ustep(code', sem, c, h, input).value.m
  }

  lemma FusedShape(code: Code, code': Code, pc: int)
    requires Fused(code, code') && NoCas(code) && code.Valid(pc) && code'.At(pc).IsCas()
    ensures MatchAt(code, pc).Fuse? && code.Valid(pc + 4) && code'.At(pc + 4) == code.At(pc + 4)
    ensures var s := SiteAt(code, pc);
            && code.Valid(pc + 4 + s.branch.Len())
            && code'.At(pc) == FusedInsn(s.lr, s.branch, s.sc)
            && code'.At(pc).FusedLen() == s.End()
            && code'.At(pc).AccessWidth() == s.lr.AccessWidth()
  {
    assert !code.At(pc).IsCas();
    assert MatchAt(code, pc + 4).NotLr?;
  }

  /** The fused instruction, as the site's swap. */
  lemma CasIsSwapped(code: Code, code': Code, sem: Semantics, c: Config, h: nat, input: int)
    requires c.Ok() && h < |c.resv| && Fused(code, code') && NoCas(code)
    requires code.Valid(c.m.harts[h].pc) && code'.At(c.m.harts[h].pc).IsCas()
    ensures MatchAt(code, c.m.harts[h].pc).Fuse?
    ensures var s, u := SiteAt(code, c.m.harts[h].pc), Ustep(code', sem, c, h, input);
            && Swapped(s, c.m, h) == (match u case None => None case Some(d) => Some(d.m))
            && (TurnOk(code', c, h) <==> StateOk(s, c.m, h))
  {
    hide MatchAt, Break, Store, Load, Get, Set, Truncate;
    FusedShape(code, code', c.m.harts[h].pc);
  }

  /** The LR and the branch of a site. */
  lemma SiteBegins(code: Code, sem: Semantics, c: Config, h: nat, input: int) returns (c1: Config, c2: Config)
    requires c.Ok() && h < |c.resv| && code.Valid(c.m.harts[h].pc) && code.Valid(c.m.harts[h].pc + 4)
    requires MatchAt(code, c.m.harts[h].pc).Fuse?
    requires var s := SiteAt(code, c.m.harts[h].pc);
             var a, w := Get(c.m.harts[h].x, s.Address()), s.lr.AccessWidth();
             Aligned(a, w) && InRange(c.m.mem, a, w)
    ensures var hart, one, s := c.m.harts[h], Choice(h, input, true), SiteAt(code, c.m.harts[h].pc);
            var x := After(s, c.m, h);
            && Istep(code, sem, c, one) == Some(c1) && c1.Ok() && |c1.resv| == |c.resv|
            && Istep(code, sem, c1, one) == Some(c2) && c2.Ok() && |c2.resv| == |c.resv|
            && c2.m == Update(c.m, h, x, if Taken(s.branch, x) then hart.pc + 4 + s.branch.imm else hart.pc + 4 + s.branch.Len(), c.m.mem)
            && c2.resv[h] == Some(Span(Get(hart.x, s.Address()), s.lr.AccessWidth().Bytes()))
  {
    hide MatchAt, Store, Load, Get, Set;
    var s := SiteAt(code, c.m.harts[h].pc);
    c1 := LrStep(s.lr, c, h).value;
    c2 := BranchStep(s.branch, c1, h);
  }

  lemma BlockShape(code: Code, code': Code, c: Config, h: nat, input: int)
    requires c.Ok() && h < |c.resv| && Fused(code, code') && NoCas(code)
    requires code.Valid(c.m.harts[h].pc) && code'.At(c.m.harts[h].pc).IsCas()
    ensures MatchAt(code, c.m.harts[h].pc).Fuse?
    ensures var s, one := SiteAt(code, c.m.harts[h].pc), Choice(h, input, true);
            Block(code', c, h, input) ==
              if InRange(c.m.mem, Get(c.m.harts[h].x, s.Address()), s.lr.AccessWidth()) && !Taken(s.branch, After(s, c.m, h))
              then [one, one, one] else [one, one]
  {
    hide MatchAt, Load, Get, Set;
    FusedShape(code, code', c.m.harts[h].pc);
  }

  /** Its block, as the site's three instructions. */
  lemma BlockIsOriginal(code: Code, code': Code, sem: Semantics, c: Config, h: nat, input: int)
    requires c.Ok() && h < |c.resv| && Fused(code, code') && NoCas(code)
    requires code.Valid(c.m.harts[h].pc) && code'.At(c.m.harts[h].pc).IsCas()
    ensures MatchAt(code, c.m.harts[h].pc).Fuse?
    ensures Original(SiteAt(code, c.m.harts[h].pc), c.m, h, input)
            == (match Irun(code, sem, c, Block(code', c, h, input)) case None => None case Some(d) => Some(d.m))
  {
    var hart := c.m.harts[h];
    FusedShape(code, code', hart.pc);
    BlockShape(code, code', c, h, input);
    hide MatchAt, Block, Irun, Fused, FusedInsn, NoCas, Original, Get;
    var s := SiteAt(code, hart.pc);
    if Aligned(Get(hart.x, s.Address()), s.lr.AccessWidth()) && InRange(c.m.mem, Get(hart.x, s.Address()), s.lr.AccessWidth()) {
      SiteRuns(code, sem, c, h, input);
    } else {
      SiteFaults(code, sem, c, h, input);
    }
  }

  /** A site whose LR cannot load. */
  lemma SiteFaults(code: Code, sem: Semantics, c: Config, h: nat, input: int)
    requires c.Ok() && h < |c.resv| && code.Valid(c.m.harts[h].pc) && MatchAt(code, c.m.harts[h].pc).Fuse?
    requires var s := SiteAt(code, c.m.harts[h].pc);
             var a, w := Get(c.m.harts[h].x, s.Address()), s.lr.AccessWidth();
             !Aligned(a, w) || !InRange(c.m.mem, a, w)
    ensures var one := Choice(h, input, true);
            && Original(SiteAt(code, c.m.harts[h].pc), c.m, h, input) == None
            && Irun(code, sem, c, [one, one]) == None && Irun(code, sem, c, [one, one, one]) == None
  {
    hide MatchAt, Load, Store, Get, Set;
    RunTwo(code, sem, c, Choice(h, input, true));
    RunThree(code, sem, c, Choice(h, input, true));
  }

  /** A site whose LR can: two steps if the branch is taken, three if not. */
  lemma SiteRuns(code: Code, sem: Semantics, c: Config, h: nat, input: int)
    requires c.Ok() && h < |c.resv| && code.Valid(c.m.harts[h].pc) && code.Valid(c.m.harts[h].pc + 4)
    requires MatchAt(code, c.m.harts[h].pc).Fuse?
    requires code.Valid(c.m.harts[h].pc + 4 + SiteAt(code, c.m.harts[h].pc).branch.Len())
    requires var s := SiteAt(code, c.m.harts[h].pc);
             var a, w := Get(c.m.harts[h].x, s.Address()), s.lr.AccessWidth();
             Aligned(a, w) && InRange(c.m.mem, a, w)
    ensures var s, one := SiteAt(code, c.m.harts[h].pc), Choice(h, input, true);
            Original(s, c.m, h, input) ==
              match Irun(code, sem, c, if Taken(s.branch, After(s, c.m, h)) then [one, one] else [one, one, one])
              case None => None case Some(d) => Some(d.m)
  {
    var one := Choice(h, input, true);
    RunTwo(code, sem, c, one);
    RunThree(code, sem, c, one);
    hide MatchAt, Load, Store, Get, Set, Irun, Istep;
    var s := SiteAt(code, c.m.harts[h].pc);
    var c1, c2 := SiteBegins(code, sem, c, h, input);
    RunTwo(code, sem, c1, one);
    if !Taken(s.branch, After(s, c.m, h)) {
      hide Original;
      ScOfSite(code, sem, c, c2, s, h, input);
    }
  }

  /** The SC of a site, reached with the reservation its LR took. */
  lemma ScOfSite(code: Code, sem: Semantics, c: Config, d: Config, s: Site, h: nat, input: int)
    requires c.Ok() && d.Ok() && h < |c.resv| == |d.resv| && s.Ok()
    requires var hart, w := c.m.harts[h], s.lr.AccessWidth();
             var a := Get(hart.x, s.Address());
             && Aligned(a, w) && InRange(c.m.mem, a, w)
             && var x := Set(hart.x, s.Loaded(), Load(c.m.mem, a, w));
                && !Taken(s.branch, x)
                && d.m == Update(c.m, h, x, hart.pc + 4 + s.branch.Len(), c.m.mem)
                && d.resv[h] == Some(Span(a, w.Bytes()))
    requires code.Valid(d.m.harts[h].pc) && code.At(d.m.harts[h].pc) == s.sc
    ensures Original(s, c.m, h, input)
            == (match Istep(code, sem, d, Choice(h, input, true)) case None => None case Some(e) => Some(e.m))
  {
    hide Break, Store, Load, Get, Set;
    assert forall x: Regs, pc, mem :: Update(d.m, h, x, pc, mem) == Update(c.m, h, x, pc, mem);
  }

  lemma RunOne(code: Code, sem: Semantics, c: Config, one: Choice)
    requires c.Ok() && one.hart < |c.resv|
    ensures Irun(code, sem, c, [one]) == Istep(code, sem, c, one)
  {
  }

  lemma RunTwo(code: Code, sem: Semantics, c: Config, one: Choice)
    requires c.Ok() && one.hart < |c.resv|
    ensures Irun(code, sem, c, [one, one]) ==
            match Istep(code, sem, c, one) case None => None case Some(c1) => Istep(code, sem, c1, one)
  {
    assert [one, one][1..] == [one];
    match Istep(code, sem, c, one)
    case None =>
    case Some(c1) => RunOne(code, sem, c1, one);
  }

  lemma RunThree(code: Code, sem: Semantics, c: Config, one: Choice)
    requires c.Ok() && one.hart < |c.resv|
    ensures Irun(code, sem, c, [one, one, one]) ==
            match Istep(code, sem, c, one) case None => None case Some(c1) => Irun(code, sem, c1, [one, one])
  {
    assert [one, one, one][1..] == [one, one];
  }

  /** One turn of the interpreter equals one block of the original program. */
  lemma TurnIsBlock(code: Code, code': Code, sem: Semantics, c: Config, h: nat, input: int)
    requires c.Ok() && h < |c.resv| && Fused(code, code') && WellFormed(code)
    requires TurnOk(code', c, h) && Ustep(code', sem, c, h, input).Some?
    ensures Agrees(code, code', sem, c, h, input)
  {
    var pc := c.m.harts[h].pc;
    if code'.At(pc).IsCas() {
      hide MatchAt, Original, Swapped, StateOk, TurnOk, Block, Irun, Ustep, Fused, GoodSite;
      CasIsSwapped(code, code', sem, c, h, input);
      BlockIsOriginal(code, code', sem, c, h, input);
      GoodSiteAgrees(SiteAt(code, pc), c.m, h, input);
    } else {
      OtherTurn(code, code', sem, c, h, input);
    }
  }

  /** Where the interpreter's turn faults, its block does. */
  lemma FaultIsBlock(code: Code, code': Code, sem: Semantics, c: Config, h: nat, input: int)
    requires c.Ok() && h < |c.resv| && Fused(code, code') && NoCas(code)
    requires TurnOk(code', c, h) && Ustep(code', sem, c, h, input).None?
    ensures Irun(code, sem, c, Block(code', c, h, input)).None?
  {
    var pc := c.m.harts[h].pc;
    if code'.Valid(pc) && code'.At(pc).IsCas() {
      assert code.Valid(pc);
      hide MatchAt, Original, TurnOk, Block, Irun, Ustep, Fused;
      CasIsSwapped(code, code', sem, c, h, input);
      BlockIsOriginal(code, code', sem, c, h, input);
    } else {
      OtherFault(code, code', sem, c, h, input);
    }
  }

  lemma OtherFault(code: Code, code': Code, sem: Semantics, c: Config, h: nat, input: int)
    requires c.Ok() && h < |c.resv| && Fused(code, code') && NoCas(code)
    requires TurnOk(code', c, h) && Ustep(code', sem, c, h, input).None?
    requires code'.Valid(c.m.harts[h].pc) ==> !code'.At(c.m.harts[h].pc).IsCas()
    ensures Irun(code, sem, c, Block(code', c, h, input)).None?
  {
    hide Store, Load, Break;
    var pc := c.m.harts[h].pc;
    assert code'.Valid(pc) ==> code.At(pc) == code'.At(pc);
    hide MatchAt, Fused;
    RunOne(code, sem, c, Choice(h, input, true));
  }

  lemma OtherTurn(code: Code, code': Code, sem: Semantics, c: Config, h: nat, input: int)
    requires c.Ok() && h < |c.resv| && Fused(code, code') && NoCas(code)
    requires TurnOk(code', c, h) && Ustep(code', sem, c, h, input).Some?
    requires !code'.At(c.m.harts[h].pc).IsCas()
    ensures Agrees(code, code', sem, c, h, input)
  {
    hide Store, Load, Break;
    var pc := c.m.harts[h].pc;
    assert code.At(pc) == code'.At(pc);
    hide MatchAt, Fused;
    RunOne(code, sem, c, Choice(h, input, true));
  }

  // -------------------------------------------------------------------- runs

  /** Every turn of the run finds the state `TurnOk` asks for, on the machine that
      runs the original program. */
  predicate RunOk(code: Code, code': Code, sem: Semantics, d: Config, s: seq<Turn>)
    requires d.Ok() && forall k :: 0 <= k < |s| ==> s[k].hart < |d.resv|
    decreases |s|
  {
    s != [] ==>
      && TurnOk(code', d, s[0].hart)
      && (match Irun(code, sem, d, Block(code', d, s[0].hart, s[0].input))
          case None => true
          case Some(d1) => RunOk(code, code', sem, d1, s[1..]))
  }

  /** The run of the original program that matches the interpreter's run s. */
  function Expand(code: Code, code': Code, sem: Semantics, d: Config, s: seq<Turn>): (t: seq<Choice>)
    requires d.Ok() && forall k :: 0 <= k < |s| ==> s[k].hart < |d.resv|
    ensures forall k :: 0 <= k < |t| ==> t[k].hart < |d.resv|
    decreases |s|
  {
    if s == [] then [] else
    var b := Block(code', d, s[0].hart, s[0].input);
    match Irun(code, sem, d, b)
    case None => b
    case Some(d1) => b + Expand(code, code', sem, d1, s[1..])
  }

  lemma {:induction false} IrunConcat(code: Code, sem: Semantics, c: Config, s: seq<Choice>, t: seq<Choice>)
    requires c.Ok()
    requires forall k :: 0 <= k < |s| ==> s[k].hart < |c.resv|
    requires forall k :: 0 <= k < |t| ==> t[k].hart < |c.resv|
    ensures Irun(code, sem, c, s + t) ==
            match Irun(code, sem, c, s) case None => None case Some(d) => Irun(code, sem, d, t)
    decreases |s|
  {
    hide Istep;
    if s == [] {
      assert s + t == t;
    } else {
      assert (s + t)[1..] == s[1..] + t;
      match Istep(code, sem, c, s[0])
      case None =>
      case Some(c1) => IrunConcat(code, sem, c1, s[1..], t);
    }
  }

  /** Both fault, or both end in the same machine. */
  predicate SameEnd(r: Option<Config>, u: Option<Config>) {
    match (r, u)
    case (None, None) => true
    case (Some(d), Some(c)) => d.m == c.m
    case _ => false
  }

  /** One turn from configurations with the same machine. */
  lemma TurnFromSame(code: Code, code': Code, sem: Semantics, c: Config, d: Config, t: Turn)
    requires c.Ok() && d.Ok() && c.m == d.m && t.hart < |c.resv| && Fused(code, code') && WellFormed(code)
    requires TurnOk(code', d, t.hart)
    ensures SameEnd(Irun(code, sem, d, Block(code', d, t.hart, t.input)), Ustep(code', sem, c, t.hart, t.input))
  {
    hide TurnOk, Block, Irun, Ustep, Fused;
    UspikeIgnoresReservations(code', sem, c, d, t.hart, t.input);
    if Ustep(code', sem, d, t.hart, t.input).Some? {
      TurnIsBlock(code, code', sem, d, t.hart, t.input);
    } else {
      FaultIsBlock(code, code', sem, d, t.hart, t.input);
    }
  }

  /** A whole interleaved run of the interpreter ends exactly where the matching
      run of the original program ends, in a fault if it faults. */
  lemma {:induction false} RunIsMatched(code: Code, code': Code, sem: Semantics, c: Config, d: Config, s: seq<Turn>)
    requires c.Ok() && d.Ok() && c.m == d.m && forall k :: 0 <= k < |s| ==> s[k].hart < |c.resv|
    requires Fused(code, code') && WellFormed(code) && RunOk(code, code', sem, d, s)
    ensures SameEnd(Irun(code, sem, d, Expand(code, code', sem, d, s)), Urun(code', sem, c, s))
    decreases |s|
  {
    hide Istep, Ustep, TurnOk, Block, Fused, WellFormed;
    if s != [] {
      TurnFromSame(code, code', sem, c, d, s[0]);
      var b := Block(code', d, s[0].hart, s[0].input);
      match Irun(code, sem, d, b)
      case None =>
      case Some(d1) =>
        var c1 := Ustep(code', sem, c, s[0].hart, s[0].input).value;
        RunIsMatched(code, code', sem, c1, d1, s[1..]);
        IrunConcat(code, sem, d, b, Expand(code, code', sem, d1, s[1..]));
    }
  }

  /** A prefix of the interpreter's run is itself such a run, and its matching
      run is a prefix of the whole matching run. */
  lemma {:induction false} PrefixIsMatched(code: Code, code': Code, sem: Semantics, d: Config, s: seq<Turn>, k: nat)
    requires d.Ok() && forall j :: 0 <= j < |s| ==> s[j].hart < |d.resv|
    requires k <= |s| && RunOk(code, code', sem, d, s)
    ensures RunOk(code, code', sem, d, s[..k])
    ensures Expand(code, code', sem, d, s[..k]) <= Expand(code, code', sem, d, s)
    decreases |s|
  {
    hide Irun, TurnOk, Block;
    if k > 0 {
      assert s[..k][1..] == s[1..][..k - 1];
      match Irun(code, sem, d, Block(code', d, s[0].hart, s[0].input))
      case None =>
      case Some(d1) => PrefixIsMatched(code, code', sem, d1, s[1..], k - 1);
    }
  }

  /** Fusion is sound.  Take any program whose sites are good and any interleaving
      of its harts on the interpreter after the pass.  One run of the original
      program, on the machine with LR/SC and reservations, passes through the same
      registers, pcs and memory at every instruction boundary of the interpreter's
      run, whatever was reserved at the start, and faults if that run does. */
  lemma FusionIsSound(code: Code, sem: Semantics, c: Config, d: Config, s: seq<Turn>, k: nat)
    requires c.Ok() && d.Ok() && c.m == d.m && forall k :: 0 <= k < |s| ==> s[k].hart < |c.resv|
    requires k <= |s| && WellFormed(code) && RunOk(code, Substituted(code), sem, d, s)
    ensures var code' := Substituted(code);
            && Expand(code, code', sem, d, s[..k]) <= Expand(code, code', sem, d, s)
            && SameEnd(Irun(code, sem, d, Expand(code, code', sem, d, s[..k])), Urun(code', sem, c, s[..k]))
  {
    hide Istep, Ustep, TurnOk, Block, WellFormed, Fused, Irun, Urun, RunOk, Expand, Substituted;
    SubstitutedIsFused(code);
    PrefixIsMatched(code, Substituted(code), sem, d, s, k);
    RunIsMatched(code, Substituted(code), sem, c, d, s[..k]);
  }

  // ------------------------------------------------------- the exact conditions

  /** The site condition is exact, at every site of every program: the site is
      good iff each turn on its fused instruction, from every state that means it,
      agrees with the original program. */
  lemma FusedSiteIsExact(code: Code, code': Code, sem: Semantics, pc: int)
    requires Fused(code, code') && NoCas(code) && code.Valid(pc) && code'.At(pc).IsCas()
    ensures MatchAt(code, pc).Fuse?
    ensures GoodAt(code, pc) <==> forall c, h, input :: Meant(code', sem, pc, c, h, input) ==>
                                    Agrees(code, code', sem, c, h, input)
  {
    hide MatchAt, Original, Swapped, StateOk, TurnOk, Block, Irun, Ustep, GoodSite, Differs, Fused;
    FusedShape(code, code', pc);
    var s := SiteAt(code, pc);
    if GoodAt(code, pc) {
      forall c, h, input | Meant(code', sem, pc, c, h, input) ensures Agrees(code, code', sem, c, h, input) {
        CasIsSwapped(code, code', sem, c, h, input);
        BlockIsOriginal(code, code', sem, c, h, input);
        GoodSiteAgrees(s, c.m, h, input);
      }
    } else {
      var m := BadSiteDiffers(s, pc);
      DifferingTurn(code, code', sem, pc, m);
    }
  }

  /** Hart h stands at pc and can take its turn, in a state that means it. */
  predicate Meant(code': Code, sem: Semantics, pc: int, c: Config, h: nat, input: int) {
    c.Ok() && h < |c.resv| && c.m.harts[h].pc == pc && TurnOk(code', c, h) && Ustep(code', sem, c, h, input).Some?
  }

  lemma DifferingTurn(code: Code, code': Code, sem: Semantics, pc: int, m: Machine)
    requires Fused(code, code') && NoCas(code) && code.Valid(pc) && code'.At(pc).IsCas()
    requires MatchAt(code, pc).Fuse? && Differs(SiteAt(code, pc), m) && m.harts[0].pc == pc
    ensures Meant(code', sem, pc, Config(m, [None]), 0, 0)
    ensures !Agrees(code, code', sem, Config(m, [None]), 0, 0)
  {
    hide MatchAt, Original, Swapped, StateOk, TurnOk, Block, Irun, Ustep, GoodSite, Fused;
    var c := Config(m, [None]);
    CasIsSwapped(code, code', sem, c, 0, 0);
    BlockIsOriginal(code, code', sem, c, 0, 0);
  }

  /** At a good site the states that agree: those that mean the instruction, and
      those where the comparison comes out differently but nothing depends on it. */
  lemma CasTurnIsExact(code: Code, code': Code, sem: Semantics, c: Config, h: nat, input: int)
    requires c.Ok() && h < |c.resv| && Fused(code, code') && WellFormed(code)
    requires code'.Valid(c.m.harts[h].pc) && code'.At(c.m.harts[h].pc).IsCas()
    requires Ustep(code', sem, c, h, input).Some?
    ensures MatchAt(code, c.m.harts[h].pc).Fuse?
    ensures var s := SiteAt(code, c.m.harts[h].pc);
            && Swapped(s, c.m, h).Some?
            && (Agrees(code, code', sem, c, h, input) <==>
                  || TurnOk(code', c, h)
                  || (Aligned(Get(c.m.harts[h].x, s.Address()), s.lr.AccessWidth()) && s.Skips() && Idle(s, c.m, h)))
  {
    assert code.Valid(c.m.harts[h].pc);
    hide MatchAt, Original, Swapped, StateOk, TurnOk, Block, Irun, Ustep, GoodSite, Idle, Fused;
    CasIsSwapped(code, code', sem, c, h, input);
    BlockIsOriginal(code, code', sem, c, h, input);
    StateIsExact(SiteAt(code, c.m.harts[h].pc), c.m, h, input);
  }

  /** A lone LR: the two agree where its address is aligned. */
  lemma LrTurnIsExact(code: Code, code': Code, sem: Semantics, c: Config, h: nat, input: int)
    requires c.Ok() && h < |c.resv| && Fused(code, code') && NoCas(code)
    requires code'.Valid(c.m.harts[h].pc) && code'.At(c.m.harts[h].pc).IsLr()
    requires Ustep(code', sem, c, h, input).Some?
    ensures Agrees(code, code', sem, c, h, input) <==> TurnOk(code', c, h)
  {
    var pc := c.m.harts[h].pc;
    assert code.At(pc) == code'.At(pc);
    RunOne(code, sem, c, Choice(h, input, true));
    hide Load, Set, Break, MatchAt, Fused;
  }

  /** A lone SC that writes its flag to a real register: the interpreter always
      lets it succeed, and some machine with reservations does the same exactly
      when hart h holds an aligned reservation covering the bytes. */
  lemma ScTurnIsExact(code: Code, sem: Semantics, c: Config, h: nat, input: int)
    requires c.Ok() && h < |c.resv| && code.Valid(c.m.harts[h].pc)
    requires code.At(c.m.harts[h].pc).IsSc() && 0 < code.At(c.m.harts[h].pc).rd < 32
    requires Ustep(code, sem, c, h, input).Some?
    ensures (exists ch: Choice :: ch.hart == h && Istep(code, sem, c, ch).Some?
               && Istep(code, sem, c, ch).value.m == Ustep(code, sem, c, h, input).value.m)
            <==> TurnOk(code, c, h)
  {
    hide Break, Store, Load;
    var hart := c.m.harts[h];
    var i := code.At(hart.pc);
    var u := Ustep(code, sem, c, h, input).value;
    assert u.m.harts[h].x[i.rd] == 0;
    if TurnOk(code, c, h) {
      assert Istep(code, sem, c, Choice(h, input, true)).value.m == u.m;
    } else {
      forall ch: Choice | ch.hart == h && Istep(code, sem, c, ch).Some?
        ensures Istep(code, sem, c, ch).value.m != u.m
      {
        assert Istep(code, sem, c, ch).value.m.harts[h].x[i.rd] != 0;
      }
    }
  }
}
