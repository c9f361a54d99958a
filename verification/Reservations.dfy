/**
  What LR and SC promise on the machine with reservations, said byte by byte: an
  SC behind an LR succeeds exactly when no other hart has stored to a byte the LR
  reserved.
*/
module Reservations {
  import opened Common
  import opened Machine

  /** The bytes an LR or SC accesses. */
  function AccessBytes(i: Insn): nat {
    if i.op.LrW? || i.op.ScW? then 4 else 8
  }

  /** An SC at which hart ch.hart is about to succeed, if `ch` lets it: it holds a
      reservation of all the bytes it will store. */
  predicate MaySucceed(code: Code, c: Config, ch: Choice)
    requires c.Ok() && ch.hart < |c.resv|
  {
    var hart := c.m.harts[ch.hart];
    && code.Valid(hart.pc) && code.At(hart.pc).IsSc() && ch.succeed
    && var i := code.At(hart.pc);
       var a := Get(hart.x, i.rs1);
       && c.resv[ch.hart].Some?
       && forall k :: a <= k < a + AccessBytes(i) ==> Holds(c.resv[ch.hart].value, k)
  }

  /** The span has byte k. */
  predicate Holds(r: Span, k: int) { r.addr <= k < r.addr + r.len }

  /** The step stores to byte k: as an SC that succeeds, or as one of the other
      instructions. */
  predicate StoresTo(code: Code, sem: Semantics, c: Config, ch: Choice, k: int)
    requires c.Ok() && ch.hart < |c.resv|
  {
    var hart := c.m.harts[ch.hart];
    && code.Valid(hart.pc)
    && var i := code.At(hart.pc);
       if i.IsSc() then MaySucceed(code, c, ch) && Get(hart.x, i.rs1) <= k < Get(hart.x, i.rs1) + AccessBytes(i)
       else
         && !i.IsLr() && !i.IsBranch() && !i.IsCas()
         && var e := sem(i, hart, c.m.mem, ch.input);
            e.Some? && exists j :: 0 <= j < |e.value.stored| && Holds(e.value.stored[j], k)
  }

  /** It stores to some byte of r. */
  ghost predicate StoresInto(code: Code, sem: Semantics, c: Config, ch: Choice, r: Span)
    requires c.Ok() && ch.hart < |c.resv|
  {
    exists k :: Holds(r, k) && StoresTo(code, sem, c, ch, k)
  }

  /** At an LR or SC. */
  predicate AtLrSc(code: Code, c: Config, h: nat)
    requires c.Ok() && h < |c.resv|
  {
    code.Valid(c.m.harts[h].pc) && (code.At(c.m.harts[h].pc).IsLr() || code.At(c.m.harts[h].pc).IsSc())
  }

  // ---------------------------------------------------------------- one step

  lemma TouchedMeans(r: Option<Span>, stored: seq<Span>)
    ensures Touched(r, stored) <==> r.Some? && exists k, j :: Holds(r.value, k) && 0 <= j < |stored| && Holds(stored[j], k)
  {
    if Touched(r, stored) {
      var i :| 0 <= i < |stored| && r.value.Overlaps(stored[i]);
      var k := if r.value.addr < stored[i].addr then stored[i].addr else r.value.addr;
      assert Holds(r.value, k) && Holds(stored[i], k);
    }
    if r.Some? && exists k, j :: Holds(r.value, k) && 0 <= j < |stored| && Holds(stored[j], k) {
      var k, j :| Holds(r.value, k) && 0 <= j < |stored| && Holds(stored[j], k);
      assert r.value.Overlaps(stored[j]);
    }
  }

  lemma MaySucceedMeans(code: Code, c: Config, ch: Choice)
    requires c.Ok() && ch.hart < |c.resv| && AtLrSc(code, c, ch.hart)
    requires code.At(c.m.harts[ch.hart].pc).IsSc()
    ensures var i := code.At(c.m.harts[ch.hart].pc);
            MaySucceed(code, c, ch) <==>
              ch.succeed && Reserved(c, ch.hart, Get(c.m.harts[ch.hart].x, i.rs1), i.AccessWidth())
  {
    var i := code.At(c.m.harts[ch.hart].pc);
    var a := Get(c.m.harts[ch.hart].x, i.rs1);
    if MaySucceed(code, c, ch) {
      assert Holds(c.resv[ch.hart].value, a) && Holds(c.resv[ch.hart].value, a + AccessBytes(i) - 1);
    }
  }

  /** A store breaks the reservation of every other hart it stores into; nothing
      another hart does touches any other reservation. */
  lemma OthersReservations(code: Code, sem: Semantics, c: Config, ch: Choice, h: nat)
    requires c.Ok() && ch.hart < |c.resv| && h < |c.resv| && h != ch.hart
    requires Istep(code, sem, c, ch).Some?
    ensures Istep(code, sem, c, ch).value.resv[h] ==
              if c.resv[h].Some? && StoresInto(code, sem, c, ch, c.resv[h].value) then None else c.resv[h]
  {
    var hart := c.m.harts[ch.hart];
    var i := code.At(hart.pc);
    if i.IsSc() {
      MaySucceedMeans(code, c, ch);
      var stored := [Span(Get(hart.x, i.rs1), i.AccessWidth().Bytes())];
      TouchedMeans(c.resv[h], stored);
      assert forall k :: Holds(stored[0], k) <==> Get(hart.x, i.rs1) <= k < Get(hart.x, i.rs1) + AccessBytes(i);
      hide Touched, Reserved, MaySucceed, Store;
    } else if !i.IsLr() && !i.IsBranch() && !i.IsCas() {
      TouchedMeans(c.resv[h], sem(i, hart, c.m.mem, ch.input).value.stored);
      hide Touched;
    }
  }

  /** Its own reservation a hart keeps, except at LR and SC. */
  lemma OwnReservation(code: Code, sem: Semantics, c: Config, ch: Choice)
    requires c.Ok() && ch.hart < |c.resv| && Istep(code, sem, c, ch).Some? && !AtLrSc(code, c, ch.hart)
    ensures Istep(code, sem, c, ch).value.resv[ch.hart] == c.resv[ch.hart]
  {
  }

  /** What LR does: the register, and the bytes reserved. */
  lemma LrReserves(code: Code, sem: Semantics, c: Config, ch: Choice)
    requires c.Ok() && ch.hart < |c.resv| && AtLrSc(code, c, ch.hart) && code.At(c.m.harts[ch.hart].pc).IsLr()
    ensures var hart, i := c.m.harts[ch.hart], code.At(c.m.harts[ch.hart].pc);
            var a, n := Get(hart.x, i.rs1), AccessBytes(i);
            match Istep(code, sem, c, ch)
            case None => a % n != 0 || a < 0 || a + n > |c.m.mem|
            case Some(d) =>
              && a % n == 0 && 0 <= a && a + n <= |c.m.mem|
              && d.resv == c.resv[ch.hart := Some(Span(a, n))] && d.m.mem == c.m.mem
              && d.m.harts == c.m.harts[ch.hart := Hart(Set(hart.x, i.rd, Load(c.m.mem, a, i.AccessWidth())), hart.pc + 4)]
  {
    hide Load, Set;
  }

  /** What SC does: it stores and reports zero, or stores nothing and reports
      something else; the reservation is gone either way. */
  lemma ScReports(code: Code, sem: Semantics, c: Config, ch: Choice)
    requires c.Ok() && ch.hart < |c.resv| && AtLrSc(code, c, ch.hart) && code.At(c.m.harts[ch.hart].pc).IsSc()
    requires Istep(code, sem, c, ch).Some?
    ensures var d, hart, i := Istep(code, sem, c, ch).value, c.m.harts[ch.hart], code.At(c.m.harts[ch.hart].pc);
            var a := Get(hart.x, i.rs1);
            && d.resv[ch.hart] == None && InRange(c.m.mem, a, i.AccessWidth())
            && d.m.mem == (if MaySucceed(code, c, ch) then Store(c.m.mem, a, i.AccessWidth(), Get(hart.x, i.rs2)) else c.m.mem)
            && d.m.harts[ch.hart].pc == hart.pc + 4
            && (0 < i.rd < 32 ==> (d.m.harts[ch.hart].x[i.rd] == 0 <==> MaySucceed(code, c, ch)))
            && forall r :: 0 <= r < 32 && (r != i.rd || r == 0) ==> d.m.harts[ch.hart].x[r] == hart.x[r]
  {
    MaySucceedMeans(code, c, ch);
    hide Store, MaySucceed, Reserved, Break;
  }

  /** The other instructions do what the semantics says, on both machines: the
      registers, the pc and memory; and a fault where it says none. */
  lemma OtherIsSem(code: Code, sem: Semantics, c: Config, ch: Choice)
    requires c.Ok() && ch.hart < |c.resv| && code.Valid(c.m.harts[ch.hart].pc)
    requires var i := code.At(c.m.harts[ch.hart].pc); !i.IsLr() && !i.IsSc() && !i.IsBranch() && !i.IsCas()
    ensures var e := sem(code.At(c.m.harts[ch.hart].pc), c.m.harts[ch.hart], c.m.mem, ch.input);
            var r, u := Istep(code, sem, c, ch), Ustep(code, sem, c, ch.hart, ch.input);
            match e
            case None => r == None && u == None
            case Some(e) =>
              r.Some? && u.Some? &&
              r.value.m == u.value.m == Machine(e.mem, c.m.harts[ch.hart := Hart(e.x, e.pc)])
  {
    hide Break;
  }

  /** The stubs: on the interpreter an LR only loads, aligned or not, and a lone SC
      stores and reports zero wherever memory is, whatever is reserved. */
  lemma StubsAlwaysAnswerYes(code: Code, sem: Semantics, c: Config, h: nat, input: int)
    requires c.Ok() && h < |c.resv| && AtLrSc(code, c, h)
    ensures var hart, i := c.m.harts[h], code.At(c.m.harts[h].pc);
            var a, w := Get(hart.x, i.rs1), i.AccessWidth();
            match Ustep(code, sem, c, h, input)
            case None => a < 0 || a + AccessBytes(i) > |c.m.mem|
            case Some(d) =>
              && InRange(c.m.mem, a, w)
              && d.m == if i.IsLr() then Machine(c.m.mem, c.m.harts[h := Hart(Set(hart.x, i.rd, Load(c.m.mem, a, w)), hart.pc + 4)])
                        else Machine(Store(c.m.mem, a, w, Get(hart.x, i.rs2)), c.m.harts[h := Hart(Set(hart.x, i.rd, 0), hart.pc + 4)])
  {
    hide Load, Store, Set, Break;
  }

  /** No step of either machine moves another hart. */
  lemma OthersStandStill(code: Code, sem: Semantics, c: Config, ch: Choice, h: nat)
    requires c.Ok() && ch.hart < |c.resv| && h < |c.resv| && h != ch.hart
    ensures Istep(code, sem, c, ch).Some? ==> Istep(code, sem, c, ch).value.m.harts[h] == c.m.harts[h]
    ensures Ustep(code, sem, c, ch.hart, ch.input).Some? ==>
              Ustep(code, sem, c, ch.hart, ch.input).value.m.harts[h] == c.m.harts[h]
  {
    hide Break, Store, Load, Get, Set, Truncate;
  }

  // -------------------------------------------------------------------- runs

  /** Some step of another hart stores into r. */
  ghost predicate OthersStoreInto(code: Code, sem: Semantics, c: Config, s: seq<Choice>, h: nat, r: Span)
    requires c.Ok() && forall k :: 0 <= k < |s| ==> s[k].hart < |c.resv|
    decreases |s|
  {
    s != [] &&
      ((s[0].hart != h && StoresInto(code, sem, c, s[0], r))
       || (match Istep(code, sem, c, s[0])
           case None => false
           case Some(c1) => OthersStoreInto(code, sem, c1, s[1..], h, r)))
  }

  /** Hart h takes no step at an LR or SC. */
  predicate QuietAt(code: Code, sem: Semantics, c: Config, s: seq<Choice>, h: nat)
    requires c.Ok() && h < |c.resv| && forall k :: 0 <= k < |s| ==> s[k].hart < |c.resv|
    decreases |s|
  {
    s != [] ==>
      && (s[0].hart == h ==> !AtLrSc(code, c, h))
      && (match Istep(code, sem, c, s[0])
          case None => true
          case Some(c1) => QuietAt(code, sem, c1, s[1..], h))
  }

  lemma {:induction false} ReservationSurvives(code: Code, sem: Semantics, c: Config, s: seq<Choice>, h: nat, r: Span)
    requires c.Ok() && h < |c.resv| && forall k :: 0 <= k < |s| ==> s[k].hart < |c.resv|
    requires QuietAt(code, sem, c, s, h) && Irun(code, sem, c, s).Some?
    ensures c.resv[h] == Some(r) ==>
              Irun(code, sem, c, s).value.resv[h] ==
                if OthersStoreInto(code, sem, c, s, h, r) then None else Some(r)
    ensures c.resv[h] == None ==> Irun(code, sem, c, s).value.resv[h] == None
    decreases |s|
  {
    hide Istep, StoresInto, AtLrSc;
    if s != [] {
      var c1 := Istep(code, sem, c, s[0]).value;
      if s[0].hart == h {
        OwnReservation(code, sem, c, s[0]);
      } else {
        OthersReservations(code, sem, c, s[0], h);
      }
      ReservationSurvives(code, sem, c1, s[1..], h, r);
    }
  }

  /** The promise of LR and SC.  Hart h performs an LR, then anything happens in
      which it meets no other LR or SC, then it comes to an SC that is allowed to
      succeed.  The SC stores, and reports zero, if and only if its bytes are
      among those the LR reserved and no other hart has stored to any of those
      since. */
  lemma ScSucceedsIff(code: Code, sem: Semantics, c: Config, input: int, between: seq<Choice>, h: nat, sc: Choice)
    requires c.Ok() && h < |c.resv| && sc.hart == h && sc.succeed
    requires forall k :: 0 <= k < |between| ==> between[k].hart < |c.resv|
    requires AtLrSc(code, c, h) && code.At(c.m.harts[h].pc).IsLr()
    requires Istep(code, sem, c, Choice(h, input, true)).Some?
    requires QuietAt(code, sem, Istep(code, sem, c, Choice(h, input, true)).value, between, h)
    requires var d := Irun(code, sem, Istep(code, sem, c, Choice(h, input, true)).value, between);
             && d.Some? && AtLrSc(code, d.value, h) && code.At(d.value.m.harts[h].pc).IsSc()
             && Istep(code, sem, d.value, sc).Some?
    ensures var c1 := Istep(code, sem, c, Choice(h, input, true)).value;
            var d := Irun(code, sem, c1, between).value;
            var e := Istep(code, sem, d, sc).value;
            var lr, i := code.At(c.m.harts[h].pc), code.At(d.m.harts[h].pc);
            var r, a := Span(Get(c.m.harts[h].x, lr.rs1), AccessBytes(lr)), Get(d.m.harts[h].x, i.rs1);
            var succeeds := r.addr <= a && a + AccessBytes(i) <= r.addr + r.len && !OthersStoreInto(code, sem, c1, between, h, r);
            && InRange(d.m.mem, a, i.AccessWidth())
            && e.m.mem == (if succeeds then Store(d.m.mem, a, i.AccessWidth(), Get(d.m.harts[h].x, i.rs2)) else d.m.mem)
            && (0 < i.rd < 32 ==> (e.m.harts[h].x[i.rd] == 0 <==> succeeds))
  {
    var one := Choice(h, input, true);
    LrReserves(code, sem, c, one);
    var c1 := Istep(code, sem, c, one).value;
    var lr := code.At(c.m.harts[h].pc);
    var r := Span(Get(c.m.harts[h].x, lr.rs1), AccessBytes(lr));
    hide Istep, Irun, OthersStoreInto, QuietAt, Store, MaySucceed;
    ReservationSurvives(code, sem, c1, between, h, r);
    var d := Irun(code, sem, c1, between).value;
    ScReports(code, sem, d, sc);
    Succeeds(code, d, sc, r);
  }

  lemma Succeeds(code: Code, d: Config, sc: Choice, r: Span)
    requires d.Ok() && sc.hart < |d.resv| && sc.succeed && AtLrSc(code, d, sc.hart)
    requires code.At(d.m.harts[sc.hart].pc).IsSc() && (d.resv[sc.hart] == Some(r) || d.resv[sc.hart] == None)
    ensures var i := code.At(d.m.harts[sc.hart].pc);
            var a := Get(d.m.harts[sc.hart].x, i.rs1);
            MaySucceed(code, d, sc) <==>
              d.resv[sc.hart] == Some(r) && r.addr <= a && a + AccessBytes(i) <= r.addr + r.len
  {
    MaySucceedMeans(code, d, sc);
  }

  // ------------------------------------------------------- what memory shows

  /** The semantics owns up to what it stores: bytes that change are among those
      it lists, and memory keeps its size. */
  ghost predicate Honest(sem: Semantics) {
    forall i: Insn, hart: Hart, mem: Memory, input: int :: sem(i, hart, mem, input).Some? ==>
      var e := sem(i, hart, mem, input).value;
      && |e.mem| == |mem|
      && forall k :: 0 <= k < |mem| && e.mem[k] != mem[k] ==> exists j :: 0 <= j < |e.stored| && Holds(e.stored[j], k)
  }

  /** A byte changes only under a step that stores to it. */
  lemma ChangesAreStores(code: Code, sem: Semantics, c: Config, ch: Choice, k: int)
    requires c.Ok() && ch.hart < |c.resv| && Honest(sem) && Istep(code, sem, c, ch).Some?
    ensures |Istep(code, sem, c, ch).value.m.mem| == |c.m.mem|
    ensures 0 <= k < |c.m.mem| && !StoresTo(code, sem, c, ch, k) ==>
              Istep(code, sem, c, ch).value.m.mem[k] == c.m.mem[k]
  {
    var hart := c.m.harts[ch.hart];
    var i := code.At(hart.pc);
    hide Break;
    if i.IsSc() {
      MaySucceedMeans(code, c, ch);
      hide Reserved, MaySucceed, ToBytes;
    } else if !i.IsLr() && !i.IsBranch() && !i.IsCas() {
      assert sem(i, hart, c.m.mem, ch.input).Some?;
    }
  }

  /** Hart h does not store into r itself. */
  ghost predicate OwnStoresAvoid(code: Code, sem: Semantics, c: Config, s: seq<Choice>, h: nat, r: Span)
    requires c.Ok() && h < |c.resv| && forall k :: 0 <= k < |s| ==> s[k].hart < |c.resv|
    decreases |s|
  {
    s != [] ==>
      && (s[0].hart == h ==> !StoresInto(code, sem, c, s[0], r))
      && (match Istep(code, sem, c, s[0])
          case None => true
          case Some(c1) => OwnStoresAvoid(code, sem, c1, s[1..], h, r))
  }

  /** So when the SC succeeds, the bytes the LR read are still what it read. */
  lemma {:induction false} ReservedBytesStay(code: Code, sem: Semantics, c: Config, s: seq<Choice>, h: nat, r: Span, k: int)
    requires c.Ok() && h < |c.resv| && forall j :: 0 <= j < |s| ==> s[j].hart < |c.resv|
    requires Honest(sem) && Irun(code, sem, c, s).Some? && 0 <= k < |c.m.mem| && Holds(r, k)
    requires !OthersStoreInto(code, sem, c, s, h, r) && OwnStoresAvoid(code, sem, c, s, h, r)
    ensures |Irun(code, sem, c, s).value.m.mem| == |c.m.mem|
    ensures Irun(code, sem, c, s).value.m.mem[k] == c.m.mem[k]
    decreases |s|
  {
    hide Istep, StoresTo, Honest;
    if s != [] {
      var c1 := Istep(code, sem, c, s[0]).value;
      ChangesAreStores(code, sem, c, s[0], k);
      assert !StoresInto(code, sem, c, s[0], r);
      ReservedBytesStay(code, sem, c1, s[1..], h, r, k);
    }
  }
}
