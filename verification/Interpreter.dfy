/**
  The interpreter's loop, in place: registers in an array, a pc kept in a local
  variable and written back at the end, and the fused compare-and-swap.  It is
  proved to take exactly the steps of `Machine.Ustep`.
*/
module Interpreter {
  import opened Common
  import opened Machine

  /** x0 stays zero whatever an instruction does. */
  ghost predicate KeepsZero(sem: Semantics) {
    forall i: Insn, h: Hart, m: Memory, input: int :: h.x[0] == 0 && sem(i, h, m, input).Some? ==> sem(i, h, m, input).value.x[0] == 0
  }

  /** One step of a machine with a single hart. */
  function Mstep(code: Code, sem: Semantics, m: Machine, input: int): Option<Machine>
    requires |m.harts| == 1
  {
    match Ustep(code, sem, Config(m, [None]), 0, input)
    case None => None
    case Some(c) => Some(c.m)
  }

  /** n steps, the k-th seeing inputs(k). */
  function Mrun(code: Code, sem: Semantics, m: Machine, inputs: int -> int, n: nat): (r: Option<Machine>)
    requires |m.harts| == 1
    ensures r.Some? ==> |r.value.harts| == 1
  {
    if n == 0 then Some(m) else
    match Mrun(code, sem, m, inputs, n - 1)
    case None => None
    case Some(m1) => Mstep(code, sem, m1, inputs(n - 1))
  }

  function Turns(inputs: int -> int, n: nat): (s: seq<Turn>)
    ensures |s| == n && forall k :: 0 <= k < n ==> s[k] == Turn(0, inputs(k))
  {
    seq(n, k requires 0 <= k < n => Turn(0, inputs(k)))
  }

  lemma {:induction false} UrunOneMore(code: Code, sem: Semantics, c: Config, s: seq<Turn>, t: Turn)
    requires c.Ok() && (forall k :: 0 <= k < |s| ==> s[k].hart < |c.resv|) && t.hart < |c.resv|
    ensures Urun(code, sem, c, s + [t]) ==
            match Urun(code, sem, c, s) case None => None case Some(d) => Ustep(code, sem, d, t.hart, t.input)
    decreases |s|
  {
    hide Ustep;
    if s == [] {
      assert (s + [t])[1..] == [];
    } else {
      assert (s + [t])[1..] == s[1..] + [t];
      match Ustep(code, sem, c, s[0].hart, s[0].input)
      case None =>
      case Some(c1) => UrunOneMore(code, sem, c1, s[1..], t);
    }
  }

  /** The single-hart run is `Urun`, whatever reservations ride along with it. */
  lemma {:induction false} MrunIsUrun(code: Code, sem: Semantics, c: Config, inputs: int -> int, n: nat)
    requires c.Ok() && |c.resv| == 1
    ensures Mrun(code, sem, c.m, inputs, n).Some? <==> Urun(code, sem, c, Turns(inputs, n)).Some?
    ensures Mrun(code, sem, c.m, inputs, n).Some? ==>
              Mrun(code, sem, c.m, inputs, n).value == Urun(code, sem, c, Turns(inputs, n)).value.m
  {
    hide Ustep;
    if n > 0 {
      MrunIsUrun(code, sem, c, inputs, n - 1);
      assert Turns(inputs, n) == Turns(inputs, n - 1) + [Turn(0, inputs(n - 1))];
      UrunOneMore(code, sem, c, Turns(inputs, n - 1), Turn(0, inputs(n - 1)));
      match Urun(code, sem, c, Turns(inputs, n - 1))
      case None =>
      case Some(d) => UspikeIgnoresReservations(code, sem, d, Config(d.m, [None]), 0, inputs(n - 1));
    }
  }

  class Core {
    const code: Code
    const sem: Semantics
    const xpr: array<Word>
    var mem: Memory
    var statePc: int       // the saved pc
    var executed: int

    constructor (code: Code, sem: Semantics, mem: Memory, entry: int)
      ensures Valid() && fresh(xpr) && this.code == code && this.sem == sem
      ensures View(statePc) == Machine(mem, [Hart(seq(32, _ => 0), entry)]) && executed == 0
    {
      this.code, this.sem, this.mem := code, sem, mem;
      statePc, executed := entry, 0;
      xpr := new Word[32](_ => 0);
      new;
      assert xpr[..] == seq(32, _ => 0);
    }

    ghost predicate Valid()
      reads xpr
    {
      xpr.Length == 32 && xpr[0] == 0
    }

    /** The machine, its hart being at `pc`. */
    ghost function View(pc: int): (m: Machine)
      requires xpr.Length == 32
      reads this, xpr
      ensures |m.harts| == 1
    {
      Machine(mem, [Hart(xpr[..], pc)])
    }

    method ReadReg(n: int) returns (v: Word)
      requires Valid()
      ensures v == Get(xpr[..], n)
    {
      v := if 0 <= n < 32 then xpr[n] else 0;
    }

    /** Writes x0 too; the loop clears it again. */
    method WriteReg(n: int, v: Word)
      requires xpr.Length == 32
      modifies xpr
      ensures xpr[..] == if 0 <= n < 32 then old(xpr[..])[n := v] else old(xpr[..])
    {
      if 0 <= n < 32 {
        xpr[n] := v;
      }
    }

    /** Compare-and-swap on memory: the value found. */
    method CompareAndSwap(a: int, w: Width, wanted: Word, replace: Word) returns (found: Word)
      requires InRange(mem, a, w)
      modifies this`mem
      ensures found == Load(old(mem), a, w)
      ensures mem == if found == wanted then Store(old(mem), a, w, replace) else old(mem)
    {
      found := Load(mem, a, w);
      if found == wanted {
        mem := Store(mem, a, w, replace);
      }
    }

    /** The fused instruction at pc, but for the pc.  `ok` is false on a fault. */
    method Cas(pc: int) returns (ok: bool, swapped: bool)
      requires Valid() && code.Valid(pc) && code.At(pc).IsCas()
      modifies this`mem, xpr
      ensures var i := code.At(pc);
              var x, w := old(xpr[..]), i.AccessWidth();
              var a := Get(x, i.rs1);
              && ok == (InRange(old(mem), a, w) && code.Valid(pc + 4))
              && (!ok ==> mem == old(mem) && xpr[..] == x)
              && (ok ==>
                    var found := Load(old(mem), a, w);
                    && swapped == (found == Truncate(w, Get(x, i.rs2)))
                    && mem == (if swapped then Store(old(mem), a, w, Get(x, i.rs3)) else old(mem))
                    && Cleared(xpr[..]) == (if swapped then Set(Set(x, code.At(pc + 4).rs1, found), i.rd, 0)
                                            else Set(x, code.At(pc + 4).rs1, found)))
    {
      var i := code.At(pc);
      var w := i.AccessWidth();
      var ptr := ReadReg(i.rs1);
      ok, swapped := InRange(mem, ptr, w) && code.Valid(pc + 4), false;
      if !ok {
        return;
      }
      var r := ReadReg(i.rs2);
      var wanted := Truncate(w, r);
      var replace := ReadReg(i.rs3);
      var found := CompareAndSwap(ptr, w, wanted, replace);
      WriteReg(code.At(pc + 4).rs1, found);
      swapped := found == wanted;
      if swapped {
        WriteReg(i.rd, 0);
      }
    }

    /** One instruction from `pc`, all but the clearing of x0. */
    method Dispatch(pc: int, input: int) returns (ok: bool, pc': int)
      requires Valid() && KeepsZero(sem)
      modifies this`mem, xpr
      ensures xpr.Length == 32
      ensures ok == Mstep(code, sem, old(View(pc)), input).Some?
      ensures ok ==> Mstep(code, sem, old(View(pc)), input) == Some(Machine(mem, [Hart(Cleared(xpr[..]), pc')]))
      ensures !ok ==> View(pc) == old(View(pc))
    {
      hide Load, Store, Break;
      ok, pc' := false, pc;
      if !code.Valid(pc) {
        return;
      }
      var i := code.At(pc);
      ghost var x := xpr[..];
      if i.IsCas() {
        var swapped;
        ok, swapped := Cas(pc);
        pc' := if swapped then pc + i.FusedLen() else if code.Valid(pc + 4) then pc + code.At(pc + 4).imm + 4 else pc;
      } else if i.IsBranch() {
        var a := ReadReg(i.rs1);
        var b := ReadReg(i.TestReg());
        ok, pc' := true, if a != b then pc + i.imm else pc + i.Len();
        assert Cleared(xpr[..]) == x;
      } else if i.IsLr() {
        var a := ReadReg(i.rs1);
        if InRange(mem, a, i.AccessWidth()) {
          WriteReg(i.rd, Load(mem, a, i.AccessWidth()));
          ClearedSet(x, i.rd, Load(mem, a, i.AccessWidth()));
          ok, pc' := true, pc + 4;
        }
      } else if i.IsSc() {
        var a := ReadReg(i.rs1);
        var v := ReadReg(i.rs2);
        if InRange(mem, a, i.AccessWidth()) {
          mem := Store(mem, a, i.AccessWidth(), v);
          WriteReg(i.rd, 0);
          ClearedSet(x, i.rd, 0);
          ok, pc' := true, pc + 4;
        }
      } else {
        var e := sem(i, Hart(xpr[..], pc), mem, input);
        if e.Some? {
          mem := e.value.mem;
          forall r | 0 <= r < 32 { xpr[r] := e.value.x[r]; }
          ok, pc' := true, e.value.pc;
          assert xpr[..] == e.value.x;
          assert Cleared(xpr[..]) == e.value.x;
        }
      }
      if ok {
        UpdateOne(Machine(old(mem), [Hart(x, pc)]), Cleared(xpr[..]), pc', mem);
      }
    }

    /** The loop: at least one instruction, at most `howMany` if that is more than
        one.  It ends early, answering true, at a trap; the state is then that
        before the trapping instruction, which is not counted. */
    method Run(howMany: int, inputs: int -> int) returns (trapped: bool)
      requires Valid() && KeepsZero(sem)
      modifies this, xpr
      ensures Valid() && executed >= old(executed)
      ensures Mrun(code, sem, old(View(statePc)), inputs, executed - old(executed)) == Some(View(statePc))
      ensures !trapped ==> executed - old(executed) == if howMany > 1 then howMany else 1
      ensures trapped ==> && executed - old(executed) < (if howMany > 1 then howMany else 1)
                          && Mstep(code, sem, View(statePc), inputs(executed - old(executed))) == None
    {
      hide Ustep;
      var pc, insns := statePc, 0;
      var going := true;
      ghost var start := View(statePc);
      while going
        invariant Valid() && insns >= 0 && executed == old(executed)
        invariant going ==> insns == 0 || insns < howMany
        invariant !going ==> insns == if howMany > 1 then howMany else 1
        invariant Mrun(code, sem, start, inputs, insns) == Some(View(pc))
        decreases going, howMany - insns
      {
        var ok, pc' := Dispatch(pc, inputs(insns));
        if !ok {
          statePc, executed := pc, executed + insns;
          return true;
        }
        xpr[0] := 0;
        pc := pc';
        insns := insns + 1;
        going := insns < howMany;
      }
      statePc, executed := pc, executed + insns;
      trapped := false;
    }
  }

  lemma UpdateOne(m: Machine, x: Regs, pc: int, mem: Memory)
    requires |m.harts| == 1
    ensures Update(m, 0, x, pc, mem) == Machine(mem, [Hart(x, pc)])
  {
  }

  lemma ClearedSet(x: Regs, n: int, v: Word)
    requires x[0] == 0
    ensures Cleared(if 0 <= n < 32 then x[n := v] else x) == Set(x, n, v)
  {
  }

  function Cleared(x: seq<Word>): (y: Regs)
    requires |x| == 32
  {
    x[0 := 0]
  }
}
