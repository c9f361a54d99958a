/**
  The clone handshake.  A hart that makes a clone system call locks its
  `clone_lock`, creates a host thread and waits on the lock with a futex; the
  new thread copies the caller's state, adjusts it, clears the lock and wakes the
  caller.  Any number of harts do this at once, and children clone in turn.
*/
module Clone {
  import opened Common
  import opened Machine

  /** Where the host thread of a hart stands. */
  datatype Phase =
    | Running                                      // interpreting guest instructions
    | Locked                                       // lock set; about to create the thread
    | Testing(child: Option<nat>, ret: Word)       // at the loop test
    | Waiting(child: Option<nat>, ret: Word)       // about to call futex WAIT
    | Asleep(child: Option<nat>, ret: Word)        // in futex WAIT
    | Leaving(child: Option<nat>, ret: Word)       // out of the loop; about to write x10
    | Starting(parent: nat, k: nat)                // a new thread that has done k steps
  {
    /** In the waiting loop. */
    predicate InLoop() { Testing? || Waiting? || Asleep? }
  }

  /** The rest of a hart's state: floating-point, vector and control registers. */
  type Rest = seq<int>

  /** A hart and its host thread: registers, pc and the rest, lock, and the state
      its parent had at the ecall (recorded when the thread is created). */
  datatype Thread = Thread(x: Regs, pc: int, rest: Rest, lock: bool, phase: Phase,
                           source: Regs, sourcePc: int, sourceRest: Rest)

  type State = seq<Thread>

  // The steps of a new thread: 0..31 copy a register, then
  const COPY_PC := 32
  const COPY_REST := 33
  const SET_SP := 34
  const SET_TP := 35
  const SET_A0 := 36
  const SKIP := 37     // pc past the ecall
  const UNLOCK := 38
  const WAKE := 39

  datatype Event =
    | Guest(h: nat, x: Regs, pc: int, rest: Rest)   // guest instructions, any effect
    | Ecall(h: nat)                              // a clone ecall: lock
    | Create(h: nat, made: bool, ret: Word)      // clone() succeeds or fails
    | Test(h: nat)
    | Wait(h: nat)                               // compare the lock and sleep, atomically
    | Interrupt(h: nat)                          // a sleeper returns for no reason
    | Leave(h: nat)
    | Start(h: nat)                              // next step of a new thread

  /** Register work of step k of a new thread, its parent's registers being px. */
  function PrepareX(x: Regs, px: Regs, k: nat): Regs {
    if k < 32 then x[k := px[k]]
    else if k == SET_SP then x[2 := x[11]]
    else if k == SET_TP then x[4 := x[13]]
    else if k == SET_A0 then x[10 := 0]
    else x
  }

  function PreparePc(pc: int, ppc: int, k: nat): int {
    if k == COPY_PC then ppc
    else if k == SKIP then pc + 4
    else pc
  }

  function PrepareRest(rest: Rest, prest: Rest, k: nat): Rest {
    if k == COPY_REST then prest else rest
  }

  /** FUTEX_WAKE on a hart's lock. */
  function Woken(p: Thread): Thread {
    if p.phase.Asleep? then p.(phase := Testing(p.phase.child, p.phase.ret)) else p
  }

  function StartStep(s: State, h: nat): (s': State)
    requires h < |s| && s[h].phase.Starting?
    ensures |s'| == |s|
  {
    var p, k := s[h].phase.parent, s[h].phase.k;
    if p >= |s| || p == h then s
    else if k < UNLOCK then
      s[h := s[h].(x := PrepareX(s[h].x, s[p].x, k), pc := PreparePc(s[h].pc, s[p].pc, k),
                   rest := PrepareRest(s[h].rest, s[p].rest, k), phase := Starting(p, k + 1))]
    else if k == UNLOCK then s[p := s[p].(lock := false)][h := s[h].(phase := Starting(p, WAKE))]
    else s[p := Woken(s[p])][h := s[h].(phase := Running)]
  }

  function Newborn(p: Thread, parent: nat): Thread {
    Thread(seq(32, _ => 0), 0, [], false, Starting(parent, 0), p.x, p.pc, p.rest)
  }

  function Step(s: State, e: Event): (s': State)
    ensures |s'| >= |s|
  {
    if e.h >= |s| then s else
    var x := s[e.h];
    match (e, x.phase)
    case (Guest(h, regs, pc, rest), Running) => s[h := x.(x := regs, pc := pc, rest := rest)]
    case (Ecall(h), Running) => s[h := x.(lock := true, phase := Locked)]
    case (Create(h, made, ret), Locked) =>
      if made then s[h := x.(phase := Testing(Some(|s|), ret))] + [Newborn(x, h)]
      else s[h := x.(phase := Testing(None, ret))]
    case (Test(h), Testing(c, ret)) => s[h := x.(phase := if x.lock then Waiting(c, ret) else Leaving(c, ret))]
    case (Wait(h), Waiting(c, ret)) => s[h := x.(phase := if x.lock then Asleep(c, ret) else Testing(c, ret))]
    case (Interrupt(h), Asleep(c, ret)) => s[h := x.(phase := Testing(c, ret))]
    case (Leave(h), Leaving(c, ret)) => s[h := x.(x := x.x[10 := ret], pc := x.pc + 4, phase := Running)]
    case (Start(h), Starting(_, _)) => StartStep(s, h)
    case _ => s
  }

  function Run(s: State, events: seq<Event>): (s': State)
    ensures |s'| >= |s|
    decreases |events|
  {
    if events == [] then s else Run(Step(s, events[0]), events[1..])
  }

  // ------------------------------------------------------------- the invariant

  /** What a child must start with: its parent's state at the ecall except for
      the stack pointer, the thread pointer, the result and the pc. */
  function ChildRegs(x: Regs): Regs {
    x[2 := x[11]][4 := x[13]][10 := 0]
  }

  /** A new thread after k steps holds that part of it; its parent was at (x, pc). */
  predicate Built(cx: Regs, cpc: int, x: Regs, pc: int, k: nat) {
    && (k <= 32 ==> forall i :: 0 <= i < k ==> cx[i] == x[i])
    && (COPY_REST <= k <= SET_SP ==> cx == x)
    && (k == SET_TP ==> cx == x[2 := x[11]])
    && (k == SET_A0 ==> cx == x[2 := x[11]][4 := x[13]])
    && (k >= SKIP ==> cx == ChildRegs(x))
    && (COPY_REST <= k <= SKIP ==> cpc == pc)
    && (k >= UNLOCK ==> cpc == pc + 4)
  }

  /** The thread has not yet cleared its parent's lock. */
  predicate Unborn(h: Thread) { h.phase.Starting? && h.phase.k <= UNLOCK }

  /** Hart c, if it is being started: its parent is in the loop waiting for it,
      lock set, registers still those of the ecall. */
  predicate ChildOk(s: State, c: nat)
    requires c < |s|
  {
    s[c].phase.Starting? ==>
      var p, k := s[c].phase.parent, s[c].phase.k;
      && p < c && k <= WAKE
      && Built(s[c].x, s[c].pc, s[c].source, s[c].sourcePc, k)
      && (k > COPY_REST ==> s[c].rest == s[c].sourceRest)
      && (k <= UNLOCK ==>
            && s[p].phase.InLoop() && s[p].phase.child == Some(c) && s[p].lock
            && s[p].x == s[c].source && s[p].pc == s[c].sourcePc && s[p].rest == s[c].sourceRest)
  }

  /** Hart p, if it is cloning: the lock is clear only once its child has what it
      needs, and set for ever if there is none. */
  predicate ParentOk(s: State, p: nat)
    requires p < |s|
  {
    && (s[p].phase.Locked? ==> s[p].lock)
    && (s[p].phase.InLoop() ==>
          match s[p].phase.child
          case None => s[p].lock
          case Some(c) =>
            && p < c < |s|
            && (s[p].lock <==> Unborn(s[c]))
            && (Unborn(s[c]) ==> s[c].phase.parent == p))
    && (s[p].phase.Leaving? ==>
          s[p].phase.child.Some? && p < s[p].phase.child.value < |s| && !Unborn(s[s[p].phase.child.value]))
  }

  /** A sleeper whose lock is clear has a wake coming. */
  ghost predicate WakeComing(s: State, p: nat)
    requires p < |s|
  {
    s[p].phase.Asleep? && !s[p].lock ==>
      exists w :: 0 <= w < |s| && s[w].phase == Starting(p, WAKE)
  }

  ghost predicate Ok(s: State) {
    && (forall h :: 0 <= h < |s| ==> ChildOk(s, h))
    && (forall h :: 0 <= h < |s| ==> ParentOk(s, h))
    && (forall h :: 0 <= h < |s| ==> WakeComing(s, h))
  }

  // ------------------------------------------------------------- preservation

  lemma PrepareBuilds(cx: Regs, cpc: int, x: Regs, pc: int, k: nat)
    requires k < UNLOCK && Built(cx, cpc, x, pc, k)
    ensures Built(PrepareX(cx, x, k), PreparePc(cpc, pc, k), x, pc, k + 1)
  {
    if k == COPY_PC {
      assert cx == x;
    }
  }

  lemma OwnStepChild(s: State, e: Event, c: nat)
    requires Ok(s) && !e.Start? && c < |Step(s, e)|
    ensures ChildOk(Step(s, e), c)
  {
    if c < |s| {
      assert ChildOk(s, c);
      hide Built;
    } else {
      assert ParentOk(s, e.h);
    }
  }

  lemma OwnStepParent(s: State, e: Event, p: nat)
    requires Ok(s) && !e.Start? && p < |Step(s, e)|
    ensures ParentOk(Step(s, e), p)
  {
    if p < |s| {
      assert ParentOk(s, p);
    }
  }

  lemma OwnStepWake(s: State, e: Event, p: nat)
    requires Ok(s) && !e.Start? && p < |Step(s, e)|
    ensures WakeComing(Step(s, e), p)
  {
    hide ChildOk, ParentOk;
    var s' := Step(s, e);
    if p < |s| {
      assert WakeComing(s, p);
      if s[p].phase.Asleep? && !s[p].lock {
        var w :| 0 <= w < |s| && s[w].phase == Starting(p, WAKE);
        assert s'[w].phase == Starting(p, WAKE);
      }
    }
  }

  lemma StartStepChild(s: State, h: nat, c: nat)
    requires Ok(s) && h < |s| && s[h].phase.Starting? && c < |s|
    ensures ChildOk(StartStep(s, h), c)
  {
    hide Built, PrepareX, PreparePc, ParentOk, WakeComing;
    assert ChildOk(s, h) && ChildOk(s, c);
    var p, k := s[h].phase.parent, s[h].phase.k;
    if c == h && k < UNLOCK {
      PrepareBuilds(s[h].x, s[h].pc, s[p].x, s[p].pc, k);
    } else if c == h && k == UNLOCK {
      LastBuilt(s[h].x, s[h].pc, s[p].x, s[p].pc);
    }
  }

  lemma LastBuilt(cx: Regs, cpc: int, x: Regs, pc: int)
    requires Built(cx, cpc, x, pc, UNLOCK)
    ensures Built(cx, cpc, x, pc, WAKE)
  {
  }

  lemma StartStepParent(s: State, h: nat, p: nat)
    requires Ok(s) && h < |s| && s[h].phase.Starting? && p < |s|
    ensures ParentOk(StartStep(s, h), p)
  {
    hide Built, PrepareX, PreparePc, WakeComing;
    assert ChildOk(s, h) && ParentOk(s, p);
  }

  lemma StartStepWake(s: State, h: nat, p: nat)
    requires Ok(s) && h < |s| && s[h].phase.Starting? && p < |s|
    ensures WakeComing(StartStep(s, h), p)
  {
    hide Built, PrepareX, PreparePc, ParentOk;
    assert ChildOk(s, h) && WakeComing(s, p);
    var s' := StartStep(s, h);
    if s'[p].phase.Asleep? && !s'[p].lock {
      if !s[p].lock {
        var w :| 0 <= w < |s| && s[w].phase == Starting(p, WAKE);
        assert s'[w].phase == Starting(p, WAKE);
      } else {
        assert s'[h].phase == Starting(p, WAKE);
      }
    }
  }

  lemma StepKeeps(s: State, e: Event)
    requires Ok(s)
    ensures Ok(Step(s, e))
  {
    hide ChildOk, ParentOk, WakeComing;
    var s' := Step(s, e);
    forall h | 0 <= h < |s'| ensures ChildOk(s', h) && ParentOk(s', h) && WakeComing(s', h) {
      if e.Start? {
        if e.h < |s| && s[e.h].phase.Starting? {
          StartStepChild(s, e.h, h);
          StartStepParent(s, e.h, h);
          StartStepWake(s, e.h, h);
        }
      } else {
        OwnStepChild(s, e, h);
        OwnStepParent(s, e, h);
        OwnStepWake(s, e, h);
      }
    }
  }

  lemma {:induction false} RunKeeps(s: State, events: seq<Event>)
    requires Ok(s)
    ensures Ok(Run(s, events))
    decreases |events|
  {
    hide Ok, Step;
    if events != [] {
      StepKeeps(s, events[0]);
      RunKeeps(Step(s, events[0]), events[1..]);
    }
  }

  // -------------------------------------------------------------- the theorems

  /** One hart, running. */
  function Initial(x: Regs, pc: int, rest: Rest): State {
    [Thread(x, pc, rest, false, Running, x, pc, rest)]
  }

  lemma StartsOk(x: Regs, pc: int, rest: Rest)
    ensures Ok(Initial(x, pc, rest))
  {
  }

  /** In every reachable state: a thread still copying has a parent that sits in
      the waiting loop, lock set, with the registers of its ecall; and a parent
      that has left the loop has a child that took all it needs. */
  lemma ParentWaitsForCopy(x: Regs, pc: int, rest: Rest, events: seq<Event>)
    ensures var s := Run(Initial(x, pc, rest), events);
            && (forall c :: 0 <= c < |s| && Unborn(s[c]) ==>
                  var p := s[c].phase.parent;
                  && p < |s| && s[p].phase.InLoop() && s[p].phase.child == Some(c) && s[p].lock
                  && s[p].x == s[c].source && s[p].pc == s[c].sourcePc && s[p].rest == s[c].sourceRest)
            && (forall p :: 0 <= p < |s| && s[p].phase.Leaving? ==>
                  s[p].phase.child.Some? && s[p].phase.child.value < |s| && !Unborn(s[s[p].phase.child.value]))
  {
    StartsOk(x, pc, rest);
    RunKeeps(Initial(x, pc, rest), events);
    var s := Run(Initial(x, pc, rest), events);
    hide Run, Built, WakeComing;
    forall c | 0 <= c < |s| && Unborn(s[c])
      ensures var p := s[c].phase.parent;
              && p < |s| && s[p].phase.InLoop() && s[p].phase.child == Some(c) && s[p].lock
              && s[p].x == s[c].source && s[p].pc == s[c].sourcePc && s[p].rest == s[c].sourceRest
    {
      assert ChildOk(s, c);
    }
    forall p | 0 <= p < |s| && s[p].phase.Leaving?
      ensures s[p].phase.child.Some? && s[p].phase.child.value < |s| && !Unborn(s[s[p].phase.child.value])
    {
      assert ParentOk(s, p);
    }
  }

  /** No wake-up is lost: a parent asleep with its lock clear has one coming. */
  lemma NoLostWakeup(x: Regs, pc: int, rest: Rest, events: seq<Event>, p: nat)
    ensures var s := Run(Initial(x, pc, rest), events);
            p < |s| && s[p].phase.Asleep? && !s[p].lock ==>
              exists w :: 0 <= w < |s| && s[w].phase == Starting(p, WAKE)
  {
    StartsOk(x, pc, rest);
    RunKeeps(Initial(x, pc, rest), events);
    var s := Run(Initial(x, pc, rest), events);
    hide Run;
    if p < |s| {
      assert WakeComing(s, p);
    }
  }

  /** What a thread that is being started, or one in the middle of a clone, keeps
      through any step. */
  lemma StepFrame(s: State, e: Event, h: nat)
    requires h < |s|
    ensures var t := Step(s, e)[h];
            t.source == s[h].source && t.sourcePc == s[h].sourcePc && t.sourceRest == s[h].sourceRest
    ensures s[h].phase.Locked? || s[h].phase.InLoop() || (s[h].phase.Leaving? && e != Leave(h)) ==>
              var t := Step(s, e)[h];
              && t.x == s[h].x && t.pc == s[h].pc && t.rest == s[h].rest
              && (t.phase.Locked? || t.phase.InLoop() || t.phase.Leaving?)
              && (!s[h].phase.Locked? ==> !t.phase.Locked? && t.phase.ret == s[h].phase.ret)
  {
    hide PrepareX, PreparePc, PrepareRest;
  }

  lemma {:induction false} RunFrame(s: State, events: seq<Event>, h: nat)
    requires h < |s|
    ensures var t := Run(s, events)[h];
            t.source == s[h].source && t.sourcePc == s[h].sourcePc && t.sourceRest == s[h].sourceRest
    ensures (s[h].phase.Locked? || s[h].phase.InLoop() || s[h].phase.Leaving?) && Leave(h) !in events ==>
              var t := Run(s, events)[h];
              && t.x == s[h].x && t.pc == s[h].pc && t.rest == s[h].rest
              && (t.phase.Locked? || t.phase.InLoop() || t.phase.Leaving?)
              && (!s[h].phase.Locked? ==> !t.phase.Locked? && t.phase.ret == s[h].phase.ret)
    decreases |events|
  {
    hide Step;
    if events != [] {
      StepFrame(s, events[0], h);
      RunFrame(Step(s, events[0]), events[1..], h);
    }
  }

  /** Nobody's step touches another hart's registers, pc or other state, whatever
      that hart is doing; nor its place in the program, except that a wake takes
      it out of its sleep. */
  lemma OthersUntouched(s: State, e: Event, g: nat)
    requires g < |s| && g != e.h
    ensures var t := Step(s, e)[g];
            && t.x == s[g].x && t.pc == s[g].pc && t.rest == s[g].rest
            && (t.phase == s[g].phase || (s[g].phase.Asleep? && t.phase == Testing(s[g].phase.child, s[g].phase.ret)))
            && (t.lock == s[g].lock || !t.lock)
  {
    hide PrepareX, PreparePc, PrepareRest;
  }

  /** Any state whatever can be cloned: a running hart can come to an ecall with
      it, and there it waits for its clone with its lock set. */
  lemma AnyStateClones(s: State, h: nat, x: Regs, pc: int, rest: Rest, ret: Word)
    requires h < |s| && s[h].phase.Running?
    ensures var t := Run(s, [Guest(h, x, pc, rest), Ecall(h)]);
            && |t| == |s| && t[h].phase.Locked? && t[h].lock && t[h].x == x && t[h].pc == pc && t[h].rest == rest
            && Step(t, Create(h, true, ret))[h].phase == Testing(Some(|s|), ret)
            && Step(t, Create(h, false, ret))[h].phase == Testing(None, ret)
  {
    TwoSteps(s, Guest(h, x, pc, rest), Ecall(h));
  }

  /** A waiting parent looks at its lock again whenever it is woken: with the lock
      set it sleeps, and an interrupted sleep brings it back to the test; with the
      lock clear it does not sleep, and leaves. */
  lemma LoopRechecks(s: State, h: nat)
    requires h < |s| && s[h].phase.Testing?
    ensures s[h].lock ==> Run(s, [Test(h), Wait(h)])[h].phase.Asleep? && Step(Run(s, [Test(h), Wait(h)]), Interrupt(h)) == s
    ensures !s[h].lock ==> Run(s, [Test(h), Leave(h)])[h].phase.Running?
    ensures s[h].lock ==> Run(Step(s, Test(h))[h := Step(s, Test(h))[h].(lock := false)], [Wait(h), Test(h)])[h].phase.Leaving?
  {
    TwoSteps(s, Test(h), Wait(h));
    TwoSteps(s, Test(h), Leave(h));
    TwoSteps(Step(s, Test(h))[h := Step(s, Test(h))[h].(lock := false)], Wait(h), Test(h));
  }

  lemma TwoSteps(s: State, d: Event, e: Event)
    ensures Run(s, [d, e]) == Step(Step(s, d), e)
  {
    hide Step;
    assert [d, e][1..] == [e];
    assert Run(Step(s, d), [e]) == Step(Step(s, d), e);
  }

  /** The child begins with its parent's state at the ecall except x2, x4, x10 and
      the pc, when its thread turns to guest instructions, whatever anyone does in between, the parent's resuming
      included; and the parent resumes with its state unchanged except the pc and
      x10, which receives what clone returned. */
  lemma ChildStartsRight(x: Regs, pc: int, rest: Rest, before: seq<Event>, h: nat, ret: Word, after: seq<Event>)
    requires var s := Run(Initial(x, pc, rest), before); h < |s| && s[h].phase.Locked?
    ensures var s := Run(Initial(x, pc, rest), before);
            var c := |s|;
            var t := Run(Step(s, Create(h, true, ret)), after);
            && c < |t|
            && (forall e :: t[c].phase.Starting? && Step(t, e)[c].phase.Running? ==>
                  var child := Step(t, e)[c];
                  && child.pc == s[h].pc + 4 && child.rest == s[h].rest
                  && forall r :: 0 <= r < 32 ==>
                       child.x[r] == if r == 2 then s[h].x[11] else if r == 4 then s[h].x[13]
                                     else if r == 10 then 0 else s[h].x[r])
            && (Leave(h) !in after && t[h].phase.Leaving? ==>
                  && Step(t, Leave(h))[h].x == s[h].x[10 := ret]
                  && Step(t, Leave(h))[h].pc == s[h].pc + 4 && Step(t, Leave(h))[h].rest == s[h].rest)
  {
    var s := Run(Initial(x, pc, rest), before);
    var c := |s|;
    var s1 := Step(s, Create(h, true, ret));
    var t := Run(s1, after);
    assert s1[c].source == s[h].x && s1[c].sourcePc == s[h].pc && s1[c].sourceRest == s[h].rest;
    RunFrame(s1, after, c);
    RunFrame(s1, after, h);
    StartsOk(x, pc, rest);
    RunKeeps(Initial(x, pc, rest), before);
    StepKeeps(s, Create(h, true, ret));
    RunKeeps(s1, after);
    forall e | t[c].phase.Starting? && Step(t, e)[c].phase.Running?
      ensures var child := Step(t, e)[c];
              child.pc == s[h].pc + 4 && child.rest == s[h].rest && child.x == ChildRegs(s[h].x)
    {
      JustRunning(t, e, c);
    }
  }

  /** A thread that turns to guest instructions does so in the state it was given. */
  lemma JustRunning(t: State, e: Event, c: nat)
    requires Ok(t) && c < |t| && t[c].phase.Starting? && Step(t, e)[c].phase.Running?
    ensures var child := Step(t, e)[c];
            && child.pc == t[c].sourcePc + 4 && child.rest == t[c].sourceRest && child.x == ChildRegs(t[c].source)
  {
    hide ParentOk, WakeComing, PrepareX, PreparePc, PrepareRest;
    assert ChildOk(t, c);
  }

  // -------------------------------------------------------------- termination

  /** Steps left to a thread being started by p. */
  function Left(t: Thread, p: nat): nat {
    if t.phase.Starting? && t.phase.parent == p && t.phase.k <= WAKE then WAKE + 1 - t.phase.k else 0
  }

  function Remaining(s: State, p: nat): nat {
    if s == [] then 0 else Remaining(s[..|s| - 1], p) + Left(s[|s| - 1], p)
  }

  /** Own steps a waiting parent can take before it leaves or sleeps; a sleeper
      whose lock is clear has been paid for by the wake that is coming. */
  function Level(t: Thread): nat {
    match t.phase
    case Testing(_, _) => if t.lock then 2 else 1
    case Waiting(_, _) => if t.lock then 1 else 2
    case Asleep(_, _) => if t.lock then 0 else 3
    case _ => 0
  }

  function Rank(s: State, p: nat): nat
    requires p < |s|
  {
    4 * Remaining(s, p) + Level(s[p])
  }

  lemma {:induction false} RemainingUpdate(s: State, h: nat, t: Thread, p: nat)
    requires h < |s|
    ensures Remaining(s[h := t], p) + Left(s[h], p) == Remaining(s, p) + Left(t, p)
  {
    var n := |s| - 1;
    if h == n {
      assert s[h := t][..n] == s[..n];
    } else {
      assert s[h := t][..n] == s[..n][h := t];
      RemainingUpdate(s[..n], h, t, p);
    }
  }

  lemma RemainingGrows(s: State, t: Thread, p: nat)
    ensures Remaining(s + [t], p) == Remaining(s, p) + Left(t, p)
  {
    assert (s + [t])[..|s|] == s;
  }

  lemma OwnStepRank(s: State, e: Event, p: nat)
    requires Ok(s) && p < |s| && s[p].phase.InLoop() && s[p].phase.child.Some? && !e.Start? && e != Interrupt(p)
    ensures Rank(Step(s, e), p) <= Rank(s, p)
    ensures (e == Test(p) && s[p].phase.Testing?) || (e == Wait(p) && s[p].phase.Waiting?) ==>
              Rank(Step(s, e), p) < Rank(s, p)
  {
    hide Remaining, ParentOk, ChildOk, WakeComing;
    var s' := Step(s, e);
    if e.h < |s| && s' != s {
      var t := s'[e.h];
      RemainingUpdate(s, e.h, t, p);
      if |s'| > |s| {
        assert s' == s[e.h := t] + [s'[|s|]];
        RemainingGrows(s[e.h := t], s'[|s|], p);
      } else {
        assert s' == s[e.h := t];
      }
    }
  }

  lemma StartFacts(s: State, h: nat)
    requires Ok(s) && h < |s| && s[h].phase.Starting?
    ensures var p, k := s[h].phase.parent, s[h].phase.k;
            && p < h && k <= WAKE
            && (k <= UNLOCK ==> s[p].phase.InLoop() && s[p].phase.child == Some(h) && s[p].lock)
  {
    hide ParentOk, WakeComing, Built;
    assert ChildOk(s, h);
  }

  lemma StartStepRank(s: State, h: nat, p: nat)
    requires Ok(s) && p < |s| && s[p].phase.InLoop() && s[p].phase.child.Some?
    requires h < |s| && s[h].phase.Starting?
    ensures Rank(StartStep(s, h), p) <= Rank(s, p)
    ensures s[h].phase.parent == p ==> Rank(StartStep(s, h), p) < Rank(s, p)
  {
    hide Ok, Remaining, PrepareX, PreparePc, PrepareRest;
    StartFacts(s, h);
    var q, k := s[h].phase.parent, s[h].phase.k;
    var s' := StartStep(s, h);
    if k < UNLOCK {
      RemainingUpdate(s, h, s'[h], p);
      assert s' == s[h := s'[h]];
    } else {
      RemainingUpdate(s, q, s'[q], p);
      RemainingUpdate(s[q := s'[q]], h, s'[h], p);
      assert s' == s[q := s'[q]][h := s'[h]];
    }
  }

  /** Nothing that happens, short of an interrupted sleep, takes a waiting parent
      further from leaving; and its own steps and those of the threads it started
      each bring it closer. */
  lemma StepLowersRank(s: State, e: Event, p: nat)
    requires Ok(s) && p < |s| && s[p].phase.InLoop() && s[p].phase.child.Some? && e != Interrupt(p)
    ensures Rank(Step(s, e), p) <= Rank(s, p)
    ensures Helps(s, e, p) ==> Rank(Step(s, e), p) < Rank(s, p)
  {
    hide Ok, Rank;
    if e.Start? {
      if e.h < |s| && s[e.h].phase.Starting? {
        StartStepRank(s, e.h, p);
      }
    } else {
      OwnStepRank(s, e, p);
    }
  }

  /** A step of the parent itself or of a thread it started. */
  predicate Helps(s: State, e: Event, p: nat)
    requires p < |s|
  {
    || (e == Test(p) && s[p].phase.Testing?)
    || (e == Wait(p) && s[p].phase.Waiting?)
    || (e.Start? && e.h < |s| && s[e.h].phase.Starting? && s[e.h].phase.parent == p)
  }

  /** While the parent waits, one of them can always move. */
  lemma SomeoneHelps(s: State, p: nat) returns (e: Event)
    requires Ok(s) && p < |s| && s[p].phase.InLoop() && s[p].phase.child.Some?
    ensures Helps(s, e, p) && e != Interrupt(p)
  {
    assert ParentOk(s, p) && WakeComing(s, p);
    if s[p].phase.Testing? {
      e := Test(p);
    } else if s[p].phase.Waiting? {
      e := Wait(p);
    } else if s[p].lock {
      e := Start(s[p].phase.child.value);
    } else {
      var w :| 0 <= w < |s| && s[w].phase == Starting(p, WAKE);
      e := Start(w);
    }
  }

  lemma StaysInLoop(s: State, e: Event, p: nat)
    requires Ok(s) && p < |s| && s[p].phase.InLoop()
    ensures Step(s, e)[p].phase.InLoop() || Step(s, e)[p].phase.Leaving?
    ensures Step(s, e)[p].phase.child == s[p].phase.child
  {
    hide PrepareX, PreparePc, PrepareRest;
  }

  lemma InterruptRank(s: State, p: nat)
    requires Ok(s) && p < |s| && s[p].phase.InLoop() && s[p].phase.child.Some?
    ensures Rank(Step(s, Interrupt(p)), p) <= Rank(s, p) + 2
  {
    hide Remaining, Ok;
    var s' := Step(s, Interrupt(p));
    if s' != s { RemainingUpdate(s, p, s'[p], p); }
  }

  lemma WaitingHasRank(s: State, p: nat)
    requires Ok(s) && p < |s| && s[p].phase.InLoop() && s[p].phase.child.Some?
    ensures Rank(s, p) > 0
  {
    hide Ok, Rank;
    var e := SomeoneHelps(s, p);
    StepLowersRank(s, e, p);
  }

  /** Helping steps among the events, and interrupted sleeps. */
  function Helping(s: State, events: seq<Event>, p: nat): nat
    requires p < |s|
    decreases |events|
  {
    if events == [] then 0 else
    (if Helps(s, events[0], p) then 1 else 0) + Helping(Step(s, events[0]), events[1..], p)
  }

  function Interrupts(events: seq<Event>, p: nat): nat {
    if events == [] then 0 else (if events[0] == Interrupt(p) then 1 else 0) + Interrupts(events[1..], p)
  }

  /** Whatever happens, a parent whose clone succeeded leaves: it is out of the
      loop at the latest when the steps of itself and the threads it started come
      to its rank, and two more for each sleep that was interrupted. */
  lemma {:induction false} HandshakeFinishes(s: State, events: seq<Event>, p: nat) returns (k: nat)
    requires Ok(s) && p < |s| && s[p].phase.InLoop() && s[p].phase.child.Some?
    requires Helping(s, events, p) >= Rank(s, p) + 2 * Interrupts(events, p)
    ensures k <= |events| && Run(s, events[..k])[p].phase.Leaving?
    decreases |events|
  {
    hide Rank, Ok, Helps, Step;
    WaitingHasRank(s, p);
    var e := events[0];
    if e == Interrupt(p) {
      InterruptRank(s, p);
      NoHelp(s, p);
    } else {
      StepLowersRank(s, e, p);
    }
    StepKeeps(s, e);
    StaysInLoop(s, e, p);
    var s1 := Step(s, e);
    if s1[p].phase.Leaving? {
      k := 1;
      assert events[..1] == [e];
    } else {
      var j := HandshakeFinishes(s1, events[1..], p);
      k := j + 1;
      assert events[..k][0] == e && events[..k][1..] == events[1..][..j];
    }
  }

  lemma NoHelp(s: State, p: nat)
    requires p < |s|
    ensures !Helps(s, Interrupt(p), p)
  {
  }

  /** And those steps can be taken: from every reachable state it can leave by
      them alone. */
  lemma {:induction false} HandshakeCanFinish(s: State, p: nat) returns (events: seq<Event>)
    requires Ok(s) && p < |s| && s[p].phase.InLoop() && s[p].phase.child.Some?
    ensures |events| <= Rank(s, p) && Run(s, events)[p].phase.Leaving?
    ensures forall e :: e in events ==> e.Test? || e.Wait? || e.Start?
    decreases Rank(s, p)
  {
    hide Rank, Ok;
    var e := SomeoneHelps(s, p);
    StepLowersRank(s, e, p);
    StepKeeps(s, e);
    StaysInLoop(s, e, p);
    var s1 := Step(s, e);
    if s1[p].phase.Leaving? {
      events := [e];
      assert events[1..] == [];
    } else {
      var rest := HandshakeCanFinish(s1, p);
      events := [e] + rest;
      assert events[1..] == rest;
    }
  }

  /** When clone fails nobody ever clears the lock: whatever happens, the parent
      never leaves the loop. */
  lemma {:induction false} FailedCloneNeverReturns(s: State, events: seq<Event>, p: nat)
    requires Ok(s) && p < |s| && s[p].phase.InLoop() && s[p].phase.child.None?
    ensures Run(s, events)[p].phase.InLoop() && Run(s, events)[p].phase.child.None?
    decreases |events|
  {
    hide Step;
    if events != [] {
      var e := events[0];
      StaysInLoop(s, e, p);
      StepKeeps(s, e);
      assert ParentOk(Step(s, e), p);
      FailedCloneNeverReturns(Step(s, e), events[1..], p);
    }
  }
}
