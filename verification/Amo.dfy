/**
  The atomic memory operations, as compare-and-swap retry loops on the guest's
  byte memory.
*/
module Amo {
  import opened Common
  import opened Machine
  import opened CasRetry

  /** The operand an AMO reads, as an unsigned integer. */
  function Lhs(mem: Memory, a: int, w: Width): nat {
    if InRange(mem, a, w) then Unsigned(mem[a..a + w.Bytes()]) else 0
  }

  function Put(mem: Memory, a: int, w: Width, v: int): (mem': Memory)
    ensures |mem'| == |mem|
  {
    if InRange(mem, a, w) then mem[..a] + ToBytes(v % w.Modulus(), w.Bytes()) + mem[a + w.Bytes()..] else mem
  }

  /** The AMO of width `w` at address `a` that replaces v by f(v). */
  function AmoOp(a: int, w: Width, f: int -> int): Op<Memory, int> {
    Op((m: Memory) => Lhs(m, a, w), (m: Memory, v: int) => Put(m, a, w, v), (v: int) => Some(f(v) % w.Modulus()))
  }

  lemma LhsAfterPut(mem: Memory, a: int, w: Width, v: int)
    requires InRange(mem, a, w)
    ensures Lhs(Put(mem, a, w, v), a, w) == v % w.Modulus()
  {
    var bytes := ToBytes(v % w.Modulus(), w.Bytes());
    assert Put(mem, a, w, v)[a..a + w.Bytes()] == bytes;
    ModulusIsPower(w);
    UnsignedToBytes(v % w.Modulus(), w.Bytes());
  }

  /** One AMO, whole: it returns what the bytes held, leaves f of that in them
      whatever a load of the same width then makes of it, and touches no other. */
  lemma AmoEffect(world: World<Memory, int>, t: nat, a: int, w: Width, f: int -> int)
    requires t < |world.results| && InRange(world.mem, a, w)
    ensures var lhs := Unsigned(world.mem[a..a + w.Bytes()]);
            var after := Perform(world, Update(t, AmoOp(a, w, f)));
            && |after.mem| == |world.mem|
            && after.results == world.results[t := world.results[t] + [Outcome(lhs, true)]]
            && Load(after.mem, a, w) == Truncate(w, f(lhs))
            && forall k :: 0 <= k < |world.mem| && !(a <= k < a + w.Bytes()) ==> after.mem[k] == world.mem[k]
  {
    var lhs := Unsigned(world.mem[a..a + w.Bytes()]);
    var v := f(lhs) % w.Modulus();
    var after := Put(world.mem, a, w, v);
    LhsAfterPut(world.mem, a, w, v);
    assert v % w.Modulus() == v;
    assert Load(after, a, w) == Truncate(w, v);
    TruncateMod(w, f(lhs));
  }

  // ---------------------------------------------------------- amoadd adds up

  function AddOp(a: int, w: Width, n: nat): Op<Memory, int> {
    AmoOp(a, w, v => v + n)
  }

  /** An event of threads that only add n's to the word at a. */
  ghost predicate OnlyAdds(e: Event<Memory, int>, a: int, w: Width) {
    match e
    case Start(_, op) => IsAdd(op, a, w)
    case Store(_) => false
    case _ => true
  }

  ghost predicate IsAdd(op: Op<Memory, int>, a: int, w: Width) {
    exists n: nat :: n < w.Modulus() && op == AddOp(a, w, n)
  }

  /** What an add adds, read off its effect on zero. */
  function Addend(op: Op<Memory, int>): int {
    match op.f(0) case None => 0 case Some(n) => n
  }

  function Sum(ops: seq<Op<Memory, int>>): int {
    if ops == [] then 0 else Sum(ops[..|ops| - 1]) + Addend(ops[|ops| - 1])
  }

  /** What the unfinished calls will still add. */
  function InFlight(phase: seq<Phase<Memory, int>>): int {
    if phase == [] then 0 else InFlight(phase[..|phase| - 1]) + Sum(Pending(phase[|phase| - 1]))
  }

  /** Everything the calls started in a run add. */
  function Asked(s: State<Memory, int>, events: seq<Event<Memory, int>>): int
    requires s.Ok()
    decreases |events|
  {
    if events == [] then 0 else
    var e := events[0];
    (if e.Start? && e.thread < |s.phase| && s.phase[e.thread].Idle? then Addend(e.op) else 0)
      + Asked(Step(s, e), events[1..])
  }

  lemma {:induction false} InFlightUpdate(phase: seq<Phase<Memory, int>>, t: nat, p: Phase<Memory, int>)
    requires t < |phase|
    ensures InFlight(phase[t := p]) + Sum(Pending(phase[t])) == InFlight(phase) + Sum(Pending(p))
  {
    hide Sum, Pending;
    var n := |phase| - 1;
    if t == n {
      assert phase[t := p][..n] == phase[..n];
    } else {
      assert phase[t := p][..n] == phase[..n][t := p];
      InFlightUpdate(phase[..n], t, p);
    }
  }

  lemma SumOne(op: Op<Memory, int>)
    ensures Sum([op]) == Addend(op) && Sum([]) == 0
  {
    assert [op][..0] == [];
  }

  ghost predicate Adding(s: State<Memory, int>, a: int, w: Width) {
    && s.Ok() && InRange(s.mem, a, w)
    && forall t, op :: 0 <= t < |s.phase| && op in Pending(s.phase[t]) ==> IsAdd(op, a, w)
  }

  lemma ModTwice(x: int, w: Width)
    ensures (x % w.Modulus()) % w.Modulus() == x % w.Modulus()
    ensures 0 <= x < w.Modulus() ==> x % w.Modulus() == x
  {
  }

  lemma AddOpMoves(mem: Memory, a: int, w: Width, n: nat)
    requires InRange(mem, a, w) && n < w.Modulus()
    ensures var op, v := AddOp(a, w, n), Lhs(mem, a, w);
            && Addend(op) == n && op.get(mem) == v
            && op.f(v) == Some((v + n) % w.Modulus())
            && op.put(mem, (v + n) % w.Modulus()) == Put(mem, a, w, (v + n) % w.Modulus())
  {
    hide Lhs, Put;
    ModTwice(n, w);
  }

  /** An add at a word moves the word by its addend, modulo the width. */
  lemma AddMoves(mem: Memory, a: int, w: Width, op: Op<Memory, int>)
    requires InRange(mem, a, w) && IsAdd(op, a, w)
    ensures op.get(mem) == Lhs(mem, a, w)
    ensures var v := op.get(mem);
            && op.f(v).Some?
            && InRange(op.put(mem, op.f(v).value), a, w)
            && Lhs(op.put(mem, op.f(v).value), a, w) == (v + Addend(op)) % w.Modulus()
  {
    hide Lhs, Put, AddOp, Addend;
    var n: nat :| n < w.Modulus() && op == AddOp(a, w, n);
    var v := Lhs(mem, a, w);
    AddOpMoves(mem, a, w, n);
    LhsAfterPut(mem, a, w, (v + n) % w.Modulus());
    ModTwice(v + n, w);
  }

  lemma AddStep(s: State<Memory, int>, e: Event<Memory, int>, a: int, w: Width)
    requires Adding(s, a, w) && OnlyAdds(e, a, w)
    ensures Adding(Step(s, e), a, w)
    ensures (Lhs(Step(s, e).mem, a, w) + InFlight(Step(s, e).phase)) % w.Modulus()
            == (Lhs(s.mem, a, w) + InFlight(s.phase) + Asked(s, [e])) % w.Modulus()
  {
    hide Lhs, IsAdd, Addend, Sum, InFlight;
    var s' := Step(s, e);
    assert Asked(s', [e][1..]) == 0;
    if e.thread < |s.phase| && s'.phase != s.phase {
      var t := e.thread;
      InFlightUpdate(s.phase, t, s'.phase[t]);
      match e
      case Start(_, op) => SumOne(op);
      case Read(_) =>
        SumOne(s.phase[t].op);
        assert s.phase[t].op in Pending(s.phase[t]);
        AddMoves(s.mem, a, w, s.phase[t].op);
      case Swap(_) =>
        SumOne(s.phase[t].wish);
        assert s.phase[t].wish in Pending(s.phase[t]);
        AddMoves(s.mem, a, w, s.phase[t].wish);
        if s'.phase[t].Idle? {
          var v, n := Lhs(s.mem, a, w), Addend(s.phase[t].wish);
          RemainderPlus(v + n, InFlight(s'.phase), w.Modulus());
        }
    }
  }

  lemma {:induction false} AddRun(s: State<Memory, int>, events: seq<Event<Memory, int>>, a: int, w: Width)
    requires Adding(s, a, w) && forall e :: e in events ==> OnlyAdds(e, a, w)
    ensures Adding(Run(s, events), a, w)
    ensures (Lhs(Run(s, events).mem, a, w) + InFlight(Run(s, events).phase)) % w.Modulus()
            == (Lhs(s.mem, a, w) + InFlight(s.phase) + Asked(s, events)) % w.Modulus()
    decreases |events|
  {
    hide Lhs, InFlight, Addend, Step, OnlyAdds, IsAdd;
    if events != [] {
      var s1 := Step(s, events[0]);
      AddStep(s, events[0], a, w);
      AddRun(s1, events[1..], a, w);
      var x, y := Lhs(s.mem, a, w) + InFlight(s.phase), Asked(s1, events[1..]);
      AskedFirst(s, events);
      RemainderPlus(x + Asked(s, events[..1]), y, w.Modulus());
      RemainderPlus(Lhs(s1.mem, a, w) + InFlight(s1.phase), y, w.Modulus());
      assert events[..1] == [events[0]];
    }
  }

  lemma AskedFirst(s: State<Memory, int>, events: seq<Event<Memory, int>>)
    requires s.Ok() && events != []
    ensures Asked(s, events) == Asked(s, events[..1]) + Asked(Step(s, events[0]), events[1..])
  {
    hide Step, Addend;
    assert events[..1][1..] == [];
  }

  lemma {:induction false} NoneInFlight(phase: seq<Phase<Memory, int>>)
    requires forall t :: 0 <= t < |phase| ==> phase[t].Idle?
    ensures InFlight(phase) == 0
  {
    if phase != [] {
      NoneInFlight(phase[..|phase| - 1]);
    }
  }

  /** However harts race their adds on one word, once every add has returned the
      word has gained the sum of all of them, modulo its width. */
  lemma AddsAreNeverLost(mem: Memory, n: nat, events: seq<Event<Memory, int>>, a: int, w: Width)
    requires InRange(mem, a, w) && forall e :: e in events ==> OnlyAdds(e, a, w)
    requires var s := Run(Initial(mem, n), events); forall t :: 0 <= t < n ==> s.phase[t].Idle?
    ensures var s := Run(Initial<Memory, int>(mem, n), events);
            Lhs(s.mem, a, w) % w.Modulus() == (Lhs(mem, a, w) + Asked(Initial(mem, n), events)) % w.Modulus()
  {
    var s0 := Initial<Memory, int>(mem, n);
    NoneInFlight(s0.phase);
    hide *;
    AddRun(s0, events, a, w);
    NoneInFlight(Run(s0, events).phase);
  }
}
