/**
  Lock-free updates by compare-and-swap retry.  Every shared update of the
  simulator has one shape: read a cell, compute a new value, swap it in if the
  cell still holds what was read, start over otherwise.  Here any number of
  threads run such calls, one memory access at a time, among arbitrary plain
  stores; the run is shown equal to one in which each call is a single step.
*/
module CasRetry {
  import opened Common

  /** A call: the part of memory it reads, how that part is written, and the new
      value, or None to return without writing. */
  datatype Op<!M, !V> = Op(get: M -> V, put: (M, V) -> M, f: V -> Option<V>)

  datatype Phase<!M, !V> =
    | Idle
    | Trying(op: Op<M, V>)                // about to read
    | Loaded(wish: Op<M, V>, seen: V)     // about to swap

  /** What a call returns: the value it last read, and whether it wrote. */
  datatype Outcome<V> = Outcome(found: V, wrote: bool)

  /** One thing that happened to memory as a whole. */
  datatype Call<!M, !V> =
    | Update(thread: nat, op: Op<M, V>)
    | Write(write: M -> M)

  /** Shared memory, where each thread stands, what its calls returned, and the
      order in which calls took effect. */
  datatype State<!M, !V> = State(
    mem: M,
    phase: seq<Phase<M, V>>,
    results: seq<seq<Outcome<V>>>,
    calls: seq<Call<M, V>>)
  {
    predicate Ok() { |phase| == |results| }
  }

  /** One memory access or call boundary of one thread, or a plain store. */
  datatype Event<!M, !V> =
    | Start(thread: nat, op: Op<M, V>)
    | Read(thread: nat)
    | Swap(thread: nat)
    | Store(write: M -> M)

  function Return<M, V>(s: State<M, V>, t: nat, op: Op<M, V>, mem: M, o: Outcome<V>): State<M, V>
    requires s.Ok() && t < |s.phase|
  {
    State(mem, s.phase[t := Idle], s.results[t := s.results[t] + [o]], s.calls + [Update(t, op)])
  }

  /** One fine-grained step; an event the thread is not ready for does nothing. */
  function Step<M, V(==)>(s: State<M, V>, e: Event<M, V>): (s': State<M, V>)
    requires s.Ok()
    ensures s'.Ok() && |s'.phase| == |s.phase|
  {
    match e
    case Start(t, op) =>
      if t < |s.phase| && s.phase[t].Idle? then s.(phase := s.phase[t := Trying(op)]) else s
    case Read(t) =>
      if t < |s.phase| && s.phase[t].Trying? then
        var op := s.phase[t].op;
        var v := op.get(s.mem);
        if op.f(v).None? then Return(s, t, op, s.mem, Outcome(v, false))
        else s.(phase := s.phase[t := Loaded(op, v)])
      else s
    case Swap(t) =>
      if t < |s.phase| && s.phase[t].Loaded? then
        var op, v := s.phase[t].wish, s.phase[t].seen;
        if op.get(s.mem) == v && op.f(v).Some? then
          Return(s, t, op, op.put(s.mem, op.f(v).value), Outcome(v, true))
        else s.(phase := s.phase[t := Trying(op)])
      else s
    case Store(g) =>
      s.(mem := g(s.mem), calls := s.calls + [Write(g)])
  }

  function Run<M, V(==)>(s: State<M, V>, events: seq<Event<M, V>>): (s': State<M, V>)
    requires s.Ok()
    ensures s'.Ok() && |s'.phase| == |s.phase|
    decreases |events|
  {
    if events == [] then s else Run(Step(s, events[0]), events[1..])
  }

  function Initial<M, V>(mem: M, n: nat): (s: State<M, V>)
    ensures s.Ok() && |s.phase| == n
  {
    State(mem, seq(n, _ => Idle), seq(n, _ => []), [])
  }

  // ------------------------------------------------------ the atomic machine

  /** Memory and returned values, when every call is one indivisible step. */
  datatype World<M, V> = World(mem: M, results: seq<seq<Outcome<V>>>)

  function Perform<M, V>(w: World<M, V>, c: Call<M, V>): World<M, V> {
    match c
    case Write(g) => w.(mem := g(w.mem))
    case Update(t, op) =>
      if t >= |w.results| then w else
      var v := op.get(w.mem);
      match op.f(v)
      case None => w.(results := w.results[t := w.results[t] + [Outcome(v, false)]])
      case Some(n) => World(op.put(w.mem, n), w.results[t := w.results[t] + [Outcome(v, true)]])
  }

  function PerformAll<M, V>(w: World<M, V>, calls: seq<Call<M, V>>): World<M, V> {
    if calls == [] then w
    else Perform(PerformAll(w, calls[..|calls| - 1]), calls[|calls| - 1])
  }

  lemma PerformOneMore<M, V>(w: World<M, V>, calls: seq<Call<M, V>>, c: Call<M, V>)
    ensures PerformAll(w, calls + [c]) == Perform(PerformAll(w, calls), c)
  {
    assert (calls + [c])[..|calls|] == calls;
  }

  // -------------------------------------------------------------- refinement

  /** Nothing a thread has read but not yet swapped matters: performing the
      recorded calls one after the other gives this memory and these results. */
  ghost predicate Explained<M, V>(w: World<M, V>, s: State<M, V>) {
    PerformAll(w, s.calls) == World(s.mem, s.results)
  }

  /** A thread holds a value to swap in only when its call wants to write. */
  ghost predicate Sound<M, V>(s: State<M, V>) {
    forall t :: 0 <= t < |s.phase| && s.phase[t].Loaded? ==> s.phase[t].wish.f(s.phase[t].seen).Some?
  }

  lemma StepIsSound<M, V>(s: State<M, V>, e: Event<M, V>)
    requires s.Ok() && Sound(s)
    ensures Sound(Step(s, e))
  {
  }

  /** A step is one whole call, or changes neither memory nor results. */
  lemma StepIsCall<M, V>(s: State<M, V>, e: Event<M, V>)
    requires s.Ok() && Sound(s)
    ensures var s' := Step(s, e);
            || (s'.calls == s.calls && s'.mem == s.mem && s'.results == s.results)
            || (exists c :: s'.calls == s.calls + [c]
                  && World(s'.mem, s'.results) == Perform(World(s.mem, s.results), c))
  {
    var s' := Step(s, e);
    if s'.calls != s.calls {
      var c := s'.calls[|s.calls|];
      assert s'.calls == s.calls + [c];
      assert World(s'.mem, s'.results) == Perform(World(s.mem, s.results), c);
    }
  }

  lemma StepIsAtomic<M, V>(w: World<M, V>, s: State<M, V>, e: Event<M, V>)
    requires s.Ok() && Explained(w, s) && Sound(s)
    ensures Explained(w, Step(s, e)) && Sound(Step(s, e))
  {
    hide Step, Sound, Perform;
    StepIsSound(s, e);
    StepIsCall(s, e);
    var s' := Step(s, e);
    if s'.calls != s.calls || s'.mem != s.mem || s'.results != s.results {
      var c :| s'.calls == s.calls + [c] && World(s'.mem, s'.results) == Perform(World(s.mem, s.results), c);
      PerformOneMore(w, s.calls, c);
    }
  }

  lemma {:induction false} RunStaysAtomic<M, V>(w: World<M, V>, s: State<M, V>, events: seq<Event<M, V>>)
    requires s.Ok() && Explained(w, s) && Sound(s)
    ensures Explained(w, Run(s, events)) && Sound(Run(s, events))
    decreases |events|
  {
    if events != [] {
      StepIsAtomic(w, s, events[0]);
      RunStaysAtomic(w, Step(s, events[0]), events[1..]);
    }
  }

  /** Every interleaving of any number of threads leaves the memory and the
      returned values of a run in which the calls happened one at a time, whole,
      in the order of their successful swaps. */
  lemma RunIsAtomic<M, V>(mem: M, n: nat, events: seq<Event<M, V>>)
    ensures var s := Run(Initial(mem, n), events);
            PerformAll(World(mem, seq(n, _ => [])), s.calls) == World(s.mem, s.results)
  {
    RunStaysAtomic(World(mem, seq(n, _ => [])), Initial(mem, n), events);
  }

  // --------------------------------------------- each call takes effect once

  function CallsOf<M, V>(calls: seq<Call<M, V>>, t: nat): seq<Op<M, V>> {
    if calls == [] then [] else
    var c := calls[|calls| - 1];
    CallsOf(calls[..|calls| - 1], t) + (if c.Update? && c.thread == t then [c.op] else [])
  }

  /** The call a thread is in the middle of, if any. */
  function Pending<M, V>(p: Phase<M, V>): seq<Op<M, V>> {
    match p
    case Idle => []
    case Trying(op) => [op]
    case Loaded(op, _) => [op]
  }

  /** Thread t starts a call at event e. */
  function StartedBy<M, V>(s: State<M, V>, e: Event<M, V>, t: nat): seq<Op<M, V>>
    requires t < |s.phase|
  {
    if e.Start? && e.thread == t && s.phase[t].Idle? then [e.op] else []
  }

  /** The calls thread t makes during a run, in order. */
  function Started<M, V(==)>(s: State<M, V>, events: seq<Event<M, V>>, t: nat): seq<Op<M, V>>
    requires s.Ok() && t < |s.phase|
    decreases |events|
  {
    if events == [] then [] else
    StartedBy(s, events[0], t) + Started(Step(s, events[0]), events[1..], t)
  }

  lemma CallsOfOneMore<M, V>(calls: seq<Call<M, V>>, c: Call<M, V>, t: nat)
    ensures CallsOf(calls + [c], t)
            == CallsOf(calls, t) + if c.Update? && c.thread == t then [c.op] else []
  {
    assert (calls + [c])[..|calls|] == calls;
  }

  /** What one step does to thread t: it starts a call, finishes one, or neither. */
  lemma StepOfThread<M, V>(s: State<M, V>, e: Event<M, V>, t: nat)
    requires s.Ok() && t < |s.phase| && Sound(s)
    ensures var s' := Step(s, e);
            || (s'.calls == s.calls && Pending(s'.phase[t]) == Pending(s.phase[t]) + StartedBy(s, e, t))
            || (exists c :: s'.calls == s.calls + [c]
                 && StartedBy(s, e, t) == []
                 && (if c.Update? && c.thread == t then Pending(s.phase[t]) == [c.op] && Pending(s'.phase[t]) == []
                     else s'.phase[t] == s.phase[t]))
  {
    var s' := Step(s, e);
    if s'.calls != s.calls {
      assert s'.calls == s.calls + [s'.calls[|s.calls|]];
    }
  }

  lemma StepKeepsCalls<M, V>(s: State<M, V>, e: Event<M, V>, t: nat)
    requires s.Ok() && t < |s.phase| && Sound(s)
    ensures CallsOf(Step(s, e).calls, t) + Pending(Step(s, e).phase[t])
            == CallsOf(s.calls, t) + (Pending(s.phase[t]) + StartedBy(s, e, t))
  {
    hide Step, CallsOf, Pending, Sound, StartedBy;
    StepOfThread(s, e, t);
    var s' := Step(s, e);
    if s'.calls != s.calls {
      var c :| s'.calls == s.calls + [c]
               && StartedBy(s, e, t) == []
               && (if c.Update? && c.thread == t then Pending(s.phase[t]) == [c.op] && Pending(s'.phase[t]) == []
                   else s'.phase[t] == s.phase[t]);
      CallsOfOneMore(s.calls, c, t);
    }
  }

  lemma {:induction false} RunKeepsCalls<M, V>(s: State<M, V>, events: seq<Event<M, V>>, t: nat)
    requires s.Ok() && t < |s.phase| && Sound(s)
    ensures var s' := Run(s, events);
            CallsOf(s'.calls, t) + Pending(s'.phase[t])
            == CallsOf(s.calls, t) + (Pending(s.phase[t]) + Started(s, events, t))
    decreases |events|
  {
    hide Step, CallsOf, Pending, Sound, StartedBy;
    if events != [] {
      var s1 := Step(s, events[0]);
      StepKeepsCalls(s, events[0], t);
      StepIsSound(s, events[0]);
      RunKeepsCalls(s1, events[1..], t);
      Regroup(CallsOf(s.calls, t), Pending(s.phase[t]), StartedBy(s, events[0], t), Started(s1, events[1..], t));
      Regroup(CallsOf(s1.calls, t), Pending(s1.phase[t]), [], Started(s1, events[1..], t));
    }
  }

  lemma Regroup<T>(a: seq<T>, b: seq<T>, c: seq<T>, d: seq<T>)
    ensures (a + (b + c)) + d == a + (b + (c + d))
    ensures a + (b + d) == (a + b) + d
  {
  }

  /** The calls of a thread that took effect are exactly those it started, in
      order, less the one it may still be in: none is lost, none is performed
      twice, and none takes effect before its start or after its return. */
  lemma EachCallOnce<M, V>(mem: M, n: nat, events: seq<Event<M, V>>, t: nat)
    requires t < n
    ensures var s := Run(Initial(mem, n), events);
            Started(Initial(mem, n), events, t) == CallsOf(s.calls, t) + Pending(s.phase[t])
  {
    RunKeepsCalls(Initial(mem, n), events, t);
  }

  // ---------------------------------------------------------------- progress

  lemma {:induction false} QuietRun<M, V>(s: State<M, V>, events: seq<Event<M, V>>, t: nat)
    requires s.Ok() && t < |s.phase| && s.phase[t].Loaded?
    requires forall k :: 0 <= k < |events| ==> events[k] != Swap(t)
    ensures Run(s, events).phase[t] == s.phase[t]
    ensures s.calls <= Run(s, events).calls
    ensures Run(s, events).calls == s.calls ==> Run(s, events).mem == s.mem
    decreases |events|
  {
    if events != [] {
      var s1 := Step(s, events[0]);
      assert events[0] != Swap(t);
      assert s.calls <= s1.calls && (s1.calls == s.calls ==> s1.mem == s.mem);
      assert s1.phase[t] == s.phase[t];
      QuietRun(s1, events[1..], t);
    }
  }

  /** Lock freedom: between a thread's read and the failure of its swap, some
      other call or store took effect. */
  lemma FailureMeansProgress<M, V>(s: State<M, V>, between: seq<Event<M, V>>, t: nat)
    requires s.Ok() && t < |s.phase| && s.phase[t].Trying? && Step(s, Read(t)).phase[t].Loaded?
    requires forall k :: 0 <= k < |between| ==> between[k] != Swap(t)
    requires var s1 := Run(Step(s, Read(t)), between); !Step(s1, Swap(t)).phase[t].Idle?
    ensures |Run(Step(s, Read(t)), between).calls| > |s.calls|
  {
    QuietRun(Step(s, Read(t)), between, t);
  }

  /** A call, undisturbed: it reads, computes and writes, or returns without
      writing where it has no new value; a plain store stores. */
  lemma OneCall<M, V>(s: State<M, V>, t: nat, op: Op<M, V>, g: M -> M)
    requires s.Ok() && t < |s.phase| && s.phase[t].Idle?
    ensures var v := op.get(s.mem);
            var r := if op.f(v).Some? then Run(s, [Start(t, op), Read(t), Swap(t)]) else Run(s, [Start(t, op), Read(t)]);
            && r.mem == (if op.f(v).Some? then op.put(s.mem, op.f(v).value) else s.mem)
            && r.phase == s.phase && r.results == s.results[t := s.results[t] + [Outcome(v, op.f(v).Some?)]]
    ensures Step(s, Store(g)).mem == g(s.mem) && Step(s, Store(g)).results == s.results
  {
    var s1 := Step(s, Start(t, op));
    var s2 := Step(s1, Read(t));
    TwoSteps(s, Start(t, op), Read(t));
    assert [Start(t, op), Read(t), Swap(t)][1..] == [Read(t), Swap(t)];
    TwoSteps(s1, Read(t), Swap(t));
    assert s1.phase[t := Idle] == s.phase;
    assert s2.phase[t := Idle] == s.phase;
  }

  lemma TwoSteps<M, V>(s: State<M, V>, d: Event<M, V>, e: Event<M, V>)
    requires s.Ok()
    ensures Run(s, [d, e]) == Step(Step(s, d), e)
  {
    hide Step;
    assert [d, e][1..] == [e];
    assert Run(Step(s, d), [e]) == Step(Step(s, d), e);
  }
}
