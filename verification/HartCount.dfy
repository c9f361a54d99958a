/**
  Counting instructions.  Each hart keeps its own count `_executed`; all add
  into the shared `total_insns` by compare-and-swap retry.  The interpreter adds
  what it ran when it returns, and brackets every system call with an addition
  and a subtraction so that the counts are right while the call runs.
*/
module HartCount {
  import opened Common

  /** What follows an addition to the counts. */
  datatype After =
    | EnterCall(insns: nat)   // perform the system call
    | LeaveCall(insns: nat)   // go on interpreting after it
    | Stop                    // return from the interpreter

  datatype Phase =
    | Outside                                    // not in the interpreter
    | Guest(insns: nat)                          // in its loop, `insns` done since entry
    | Adding(n: int, after: After)               // `_executed` updated; about to read the total
    | HasTotal(n: int, seen: int, after: After)  // about to swap in seen + n
    | InCall(insns: nat)                         // in the system call

  /** A hart; `retired` records how many instructions it has really completed. */
  datatype Hart = Hart(executed: int, retired: nat, phase: Phase)

  datatype State = State(total: int, harts: seq<Hart>)

  datatype Event =
    | Enter(hart: nat)     // call the interpreter
    | Retire(hart: nat)    // complete one ordinary instruction
    | Ecall(hart: nat)     // meet an ecall: add what has been done so far
    | Leave(hart: nat)     // the loop ends
    | Finish(hart: nat)    // the system call ends: take it off again
    | Move(hart: nat)      // next shared access of an addition in progress

  /** `incr_count(n)`, first half: the private count. */
  function Add(x: Hart, n: int, after: After): Hart {
    x.(executed := x.executed + n, phase := Adding(n, after))
  }

  function Resume(x: Hart, after: After): Hart {
    match after
    case EnterCall(k) => x.(phase := InCall(k))
    case LeaveCall(k) => x.(phase := Guest(k + 1), retired := x.retired + 1)
    case Stop => x.(phase := Outside)
  }

  function Step(s: State, e: Event): (s': State)
    ensures |s'.harts| == |s.harts|
  {
    if e.hart >= |s.harts| then s else
    var x := s.harts[e.hart];
    match (e, x.phase)
    case (Enter(h), Outside) => s.(harts := s.harts[h := x.(phase := Guest(0))])
    case (Retire(h), Guest(k)) => s.(harts := s.harts[h := x.(phase := Guest(k + 1), retired := x.retired + 1)])
    case (Ecall(h), Guest(k)) => s.(harts := s.harts[h := Add(x, k, EnterCall(k))])
    case (Leave(h), Guest(k)) => s.(harts := s.harts[h := Add(x, k, Stop)])
    case (Finish(h), InCall(k)) => s.(harts := s.harts[h := Add(x, 0 - k, LeaveCall(k))])
    case (Move(h), Adding(n, after)) => s.(harts := s.harts[h := x.(phase := HasTotal(n, s.total, after))])
    case (Move(h), HasTotal(n, seen, after)) =>
      if s.total == seen then State(seen + n, s.harts[h := Resume(x, after)])
      else s.(harts := s.harts[h := x.(phase := Adding(n, after))])
    case _ => s
  }

  function Run(s: State, events: seq<Event>): (s': State)
    ensures |s'.harts| == |s.harts|
    decreases |events|
  {
    if events == [] then s else Run(Step(s, events[0]), events[1..])
  }

  function Initial(n: nat): State {
    State(0, seq(n, _ => Hart(0, 0, Outside)))
  }

  // ------------------------------------------------------------- the invariant

  /** Added to the private count but not yet to the total. */
  function InFlight(x: Hart): int {
    if x.phase.Adding? || x.phase.HasTotal? then x.phase.n else 0
  }

  /** Completed but not yet in the private count. */
  function Uncounted(x: Hart): int {
    match x.phase
    case Guest(k) => k
    case Adding(_, LeaveCall(k)) => k
    case HasTotal(_, _, LeaveCall(k)) => k
    case _ => 0
  }

  predicate HartOk(x: Hart) {
    && x.executed + Uncounted(x) == x.retired
    && (x.phase.Adding? || x.phase.HasTotal? ==>
          match x.phase.after
          case EnterCall(k) => x.phase.n == k
          case LeaveCall(k) => x.phase.n == 0 - k
          case Stop => true)
  }

  function Executed(x: Hart): int { x.executed }

  function Retired(x: Hart): int { x.retired }

  ghost predicate Ok(s: State) {
    && (forall h :: 0 <= h < |s.harts| ==> HartOk(s.harts[h]))
    && Sum(s.harts, Executed) == s.total + Sum(s.harts, InFlight)
  }

  lemma {:induction false} SumSplit(harts: seq<Hart>)
    requires forall h :: 0 <= h < |harts| ==> HartOk(harts[h])
    ensures Sum(harts, Executed) + Sum(harts, Uncounted) == Sum(harts, Retired)
  {
    hide Uncounted;
    if harts != [] {
      SumSplit(harts[..|harts| - 1]);
    }
  }

  lemma StepKeeps(s: State, e: Event)
    requires Ok(s)
    ensures Ok(Step(s, e))
  {
    hide Sum;
    var h := e.hart;
    var s' := Step(s, e);
    if h < |s.harts| && s'.harts != s.harts {
      assert s'.harts == s.harts[h := s'.harts[h]];
      SumUpdate(s.harts, h, s'.harts[h], Executed);
      SumUpdate(s.harts, h, s'.harts[h], InFlight);
    }
  }

  lemma {:induction false} RunKeeps(s: State, events: seq<Event>)
    requires Ok(s)
    ensures Ok(Run(s, events))
    decreases |events|
  {
    if events != [] {
      StepKeeps(s, events[0]);
      RunKeeps(Step(s, events[0]), events[1..]);
    }
  }

  lemma {:induction false} StartSums(n: nat)
    ensures Sum(Initial(n).harts, Executed) == 0 && Sum(Initial(n).harts, InFlight) == 0
  {
    if n > 0 {
      StartSums(n - 1);
      assert Initial(n).harts[..n - 1] == Initial(n - 1).harts;
    }
  }

  lemma StartsOk(n: nat)
    ensures Ok(Initial(n))
  {
    var s := Initial(n);
    assert forall h :: 0 <= h < n ==> HartOk(s.harts[h]);
    StartSums(n);
  }

  // -------------------------------------------------------------- the theorems

  /** At every moment of every interleaving the private counts add up to the
      total plus the additions still in flight: no update is lost. */
  lemma NothingIsLost(n: nat, events: seq<Event>)
    ensures var s := Run(Initial(n), events);
            Sum(s.harts, Executed) == s.total + Sum(s.harts, InFlight)
  {
    StartsOk(n);
    RunKeeps(Initial(n), events);
  }

  /** The bracket around a system call cancels: inside it a hart's count is
      exactly what it has completed, and in the interpreter's loop the count
      misses exactly the instructions of this call of the interpreter, as if no
      system call had happened. */
  lemma BracketsCancel(n: nat, events: seq<Event>, h: nat)
    requires h < n
    ensures var x := Run(Initial(n), events).harts[h];
            && (x.phase.InCall? || x.phase.Outside? ==> x.executed == x.retired)
            && (x.phase.Guest? ==> x.executed + x.phase.insns == x.retired)
  {
    StartsOk(n);
    RunKeeps(Initial(n), events);
    var s := Run(Initial(n), events);
    hide Run, Initial, Sum;
    assert HartOk(s.harts[h]);
  }

  lemma {:induction false} QuietSum(harts: seq<Hart>)
    requires forall h :: 0 <= h < |harts| ==> harts[h].phase.InCall? || harts[h].phase.Outside?
    ensures Sum(harts, InFlight) == 0 && Sum(harts, Uncounted) == 0
  {
    if harts != [] {
      QuietSum(harts[..|harts| - 1]);
    }
  }

  /** The total is the number of instructions really completed, less those that
      are in an interpreter's loop or in flight; when every hart is in a system
      call or out of the interpreter it is exact. */
  lemma TotalIsExact(n: nat, events: seq<Event>)
    ensures var s := Run(Initial(n), events);
            && s.total == Sum(s.harts, Retired) - Sum(s.harts, Uncounted) - Sum(s.harts, InFlight)
            && ((forall h :: 0 <= h < n ==> s.harts[h].phase.InCall? || s.harts[h].phase.Outside?) ==>
                  s.total == Sum(s.harts, Retired))
  {
    StartsOk(n);
    RunKeeps(Initial(n), events);
    var s := Run(Initial(n), events);
    SumSplit(s.harts);
    if forall h :: 0 <= h < n ==> s.harts[h].phase.InCall? || s.harts[h].phase.Outside? {
      QuietSum(s.harts);
    }
  }

  // ------------------------------------------------------ what is completed

  /** Hart h completes an instruction at event e: an ordinary one, or an ecall
      whose second addition has gone through. */
  predicate Completes(s: State, e: Event, h: nat)
    requires h < |s.harts|
  {
    e.hart == h &&
    match (e, s.harts[h].phase)
    case (Retire(_), Guest(_)) => true
    case (Move(_), HasTotal(_, seen, LeaveCall(_))) => s.total == seen
    case _ => false
  }

  function Completed(s: State, events: seq<Event>, h: nat): nat
    requires h < |s.harts|
    decreases |events|
  {
    if events == [] then 0 else
    (if Completes(s, events[0], h) then 1 else 0) + Completed(Step(s, events[0]), events[1..], h)
  }

  /** `retired` records just that. */
  lemma {:induction false} RetiredIsCompleted(s: State, events: seq<Event>, h: nat)
    requires h < |s.harts|
    ensures Run(s, events).harts[h].retired == s.harts[h].retired + Completed(s, events, h)
    decreases |events|
  {
    if events != [] {
      RetiredIsCompleted(Step(s, events[0]), events[1..], h);
    }
  }

  lemma {:induction false} RunConcat(s: State, a: seq<Event>, b: seq<Event>)
    ensures Run(s, a + b) == Run(Run(s, a), b)
    decreases |a|
  {
    hide Step;
    if a == [] {
      assert a + b == b;
    } else {
      assert (a + b)[1..] == a[1..] + b;
      RunConcat(Step(s, a[0]), a[1..], b);
    }
  }

  lemma ThreeSteps(s: State, d: Event, e: Event, f: Event)
    ensures Run(s, [d, e, f]) == Step(Step(Step(s, d), e), f)
  {
    hide Step;
    assert [d, e, f][1..] == [e, f] && [e, f][1..] == [f];
    assert Run(Step(Step(s, d), e), [f]) == Step(Step(Step(s, d), e), f);
    assert Run(Step(s, d), [e, f]) == Run(Step(Step(s, d), e), [f]);
  }

  /** An addition, undisturbed. */
  lemma OneAddition(s: State, h: nat, n: int, after: After)
    requires h < |s.harts| && s.harts[h].phase == Adding(n, after)
    ensures Step(Step(s, Move(h)), Move(h)) == State(s.total + n, s.harts[h := Resume(s.harts[h], after)])
  {
  }

  /** Setting one hart twice. */
  lemma SetTwice(harts: seq<Hart>, h: nat, x: Hart, y: Hart)
    requires h < |harts|
    ensures harts[h := x][h := y] == harts[h := y]
  {
  }

  /** A system call, undisturbed: the instructions done so far go into both counts,
      come out again when it returns, and the ecall is one more of them. */
  lemma OneCall(s: State, h: nat, k: nat)
    requires h < |s.harts| && s.harts[h].phase == Guest(k)
    ensures var x := s.harts[h];
            && Run(s, [Ecall(h), Move(h), Move(h)])
               == State(s.total + k, s.harts[h := Hart(x.executed + k, x.retired, InCall(k))])
            && Run(s, [Ecall(h), Move(h), Move(h)] + [Finish(h), Move(h), Move(h)])
               == State(s.total, s.harts[h := Hart(x.executed, x.retired + 1, Guest(k + 1))])
  {
    hide Run, Step;
    var x := s.harts[h];
    var t := Run(s, [Ecall(h), Move(h), Move(h)]);
    ThreeSteps(s, Ecall(h), Move(h), Move(h));
    CallBegins(s, h, k);
    OneAddition(Step(s, Ecall(h)), h, k, EnterCall(k));
    SetTwice(s.harts, h, Add(x, k, EnterCall(k)), Hart(x.executed + k, x.retired, InCall(k)));
    ThreeSteps(t, Finish(h), Move(h), Move(h));
    RunConcat(s, [Ecall(h), Move(h), Move(h)], [Finish(h), Move(h), Move(h)]);
    CallEnds(t, h, k);
    OneAddition(Step(t, Finish(h)), h, 0 - k, LeaveCall(k));
    SetTwice(s.harts, h, t.harts[h], Step(t, Finish(h)).harts[h]);
    SetTwice(s.harts, h, Step(t, Finish(h)).harts[h], Hart(x.executed, x.retired + 1, Guest(k + 1)));
  }

  lemma CallBegins(s: State, h: nat, k: nat)
    requires h < |s.harts| && s.harts[h].phase == Guest(k)
    ensures Step(s, Ecall(h)) == s.(harts := s.harts[h := Add(s.harts[h], k, EnterCall(k))])
    ensures Step(s, Leave(h)) == s.(harts := s.harts[h := Add(s.harts[h], k, Stop)])
    ensures Step(s, Retire(h)) == s.(harts := s.harts[h := Hart(s.harts[h].executed, s.harts[h].retired + 1, Guest(k + 1))])
  {
  }

  lemma CallEnds(s: State, h: nat, k: nat)
    requires h < |s.harts|
    ensures s.harts[h].phase == InCall(k) ==>
              Step(s, Finish(h)) == s.(harts := s.harts[h := Add(s.harts[h], 0 - k, LeaveCall(k))])
    ensures s.harts[h].phase == Outside ==> Step(s, Enter(h)) == s.(harts := s.harts[h := s.harts[h].(phase := Guest(0))])
  {
  }

  /** One instruction, and leaving the interpreter, which puts them in for good;
      the next call of it starts from none. */
  lemma OneLeave(s: State, h: nat, k: nat)
    requires h < |s.harts| && s.harts[h].phase == Guest(k)
    ensures var x := s.harts[h];
            && Step(s, Retire(h)) == s.(harts := s.harts[h := Hart(x.executed, x.retired + 1, Guest(k + 1))])
            && Run(s, [Leave(h), Move(h), Move(h)])
               == State(s.total + k, s.harts[h := Hart(x.executed + k, x.retired, Outside)])
            && Step(Run(s, [Leave(h), Move(h), Move(h)]), Enter(h))
               == State(s.total + k, s.harts[h := Hart(x.executed + k, x.retired, Guest(0))])
  {
    hide Run, Step;
    var x := s.harts[h];
    ThreeSteps(s, Leave(h), Move(h), Move(h));
    CallBegins(s, h, k);
    OneAddition(Step(s, Leave(h)), h, k, Stop);
    var t := Run(s, [Leave(h), Move(h), Move(h)]);
    SetTwice(s.harts, h, Add(x, k, Stop), Hart(x.executed + k, x.retired, Outside));
    CallEnds(t, h, k);
    SetTwice(s.harts, h, t.harts[h], Hart(x.executed + k, x.retired, Guest(0)));
  }
}
