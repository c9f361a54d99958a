/**
  The constructors of harts, running concurrently: each pushes its hart on the
  shared list `cpu_list` and takes a number from the shared count
  `num_threads`, both by compare-and-swap retry.
*/
module HartList {
  import opened Common

  /** How far the constructor of one hart has come. */
  datatype Stage =
    | Unlinked              // about to read the list head into its link
    | HasLink               // about to swap itself in as the head
    | Pushed                // on the list; about to read the count
    | HasCount(seen: nat)   // about to swap in the count plus one
    | Counted(ticket: nat)  // about to store its number
    | Built
  {
    predicate OnList() { !Unlinked? && !HasLink? }
  }

  /** The shared variables and the fields of each hart; `order` and `tickets`
      record who was pushed (newest first) and who was counted, in order. */
  datatype State = State(
    head: Option<nat>,
    threads: nat,
    link: seq<Option<nat>>,
    number: seq<Option<nat>>,
    stage: seq<Stage>,
    order: seq<nat>,
    tickets: seq<nat>)

  predicate Sized(s: State) { |s.link| == |s.number| == |s.stage| }

  function Initial(n: nat): State {
    State(None, 0, seq(n, _ => None), seq(n, _ => None), seq(n, _ => Unlinked), [], [])
  }

  /** The constructor of hart h performs its next shared access. */
  function Step(s: State, h: nat): (s': State)
    requires Sized(s)
    ensures Sized(s') && |s'.stage| == |s.stage|
  {
    if h >= |s.stage| then s else
    match s.stage[h]
    case Unlinked => s.(link := s.link[h := s.head], stage := s.stage[h := HasLink])
    case HasLink =>
      if s.head == s.link[h]
      then s.(head := Some(h), stage := s.stage[h := Pushed], order := [h] + s.order)
      else s.(stage := s.stage[h := Unlinked])
    case Pushed => s.(stage := s.stage[h := HasCount(s.threads)])
    case HasCount(seen) =>
      if s.threads == seen
      then s.(threads := s.threads + 1, stage := s.stage[h := Counted(seen)], tickets := s.tickets + [h])
      else s.(stage := s.stage[h := Pushed])
    case Counted(ticket) => s.(number := s.number[h := Some(ticket)], stage := s.stage[h := Built])
    case Built => s
  }

  function Run(s: State, schedule: seq<nat>): (s': State)
    requires Sized(s)
    ensures Sized(s') && |s'.stage| == |s.stage|
    decreases |schedule|
  {
    if schedule == [] then s else Run(Step(s, schedule[0]), schedule[1..])
  }

  // ------------------------------------------------------------ the invariant

  function First(q: seq<nat>): Option<nat> {
    if q == [] then None else Some(q[0])
  }

  /** Following `link` from `at` visits exactly `q`, then ends. */
  predicate Chain(at: Option<nat>, link: seq<Option<nat>>, q: seq<nat>)
    decreases |q|
  {
    if q == [] then at.None?
    else at == Some(q[0]) && q[0] < |link| && Chain(link[q[0]], link, q[1..])
  }

  ghost predicate ListOk(s: State) {
    && Sized(s)
    && Chain(s.head, s.link, s.order)
    && Distinct(s.order)
    && (forall h :: h in s.order <==> 0 <= h < |s.stage| && s.stage[h].OnList())
  }

  ghost predicate CountOk(s: State) {
    && Sized(s)
    && |s.tickets| == s.threads
    && (forall k :: 0 <= k < |s.tickets| ==>
          var h := s.tickets[k];
          h < |s.stage| && (s.stage[h] == Counted(k) || (s.stage[h].Built? && s.number[h] == Some(k))))
    && (forall h :: 0 <= h < |s.stage| && (s.stage[h].Counted? || s.stage[h].Built?) ==> h in s.tickets)
    && (forall h :: 0 <= h < |s.stage| && !s.stage[h].Built? ==> s.number[h].None?)
  }

  lemma {:induction false} ChainFrame(at: Option<nat>, link: seq<Option<nat>>, h: nat, v: Option<nat>, q: seq<nat>)
    requires Chain(at, link, q) && h < |link| && h !in q
    ensures Chain(at, link[h := v], q)
    decreases |q|
  {
    if q != [] {
      ChainFrame(link[q[0]], link, h, v, q[1..]);
    }
  }

  lemma StepKeepsList(s: State, h: nat)
    requires ListOk(s)
    ensures ListOk(Step(s, h))
    ensures Step(s, h).order == s.order || Step(s, h).order == [h] + s.order
  {
    if h < |s.stage| {
      match s.stage[h]
      case Unlinked =>
        ChainFrame(s.head, s.link, h, s.head, s.order);
        hide Chain;
      case HasLink => assert ([h] + s.order)[1..] == s.order;
      case _ => hide Chain;
    }
  }

  lemma StepKeepsCount(s: State, h: nat)
    requires CountOk(s)
    ensures CountOk(Step(s, h))
  {
    var s' := Step(s, h);
    if h < |s.stage| {
      match s.stage[h]
      case Counted(ticket) =>
        assert forall k :: 0 <= k < |s.tickets| && s.tickets[k] == h ==> k == ticket;
      case HasCount(seen) =>
        assert h !in s.tickets;
        if s.threads == seen {
          assert s'.tickets[seen] == h;
          assert forall g :: g in s.tickets ==> g in s'.tickets;
        }
      case _ =>
        assert s.stage[h].Built? || h !in s.tickets;
    }
  }

  lemma {:induction false} RunKeeps(s: State, schedule: seq<nat>)
    requires ListOk(s) && CountOk(s)
    ensures ListOk(Run(s, schedule)) && CountOk(Run(s, schedule))
    ensures exists newer :: Run(s, schedule).order == newer + s.order
    decreases |schedule|
  {
    hide Step, Chain, Distinct, CountOk;
    if schedule == [] {
      assert Run(s, schedule).order == [] + s.order;
    } else {
      var s1 := Step(s, schedule[0]);
      StepKeepsList(s, schedule[0]);
      StepKeepsCount(s, schedule[0]);
      RunKeeps(s1, schedule[1..]);
      var newer :| Run(s1, schedule[1..]).order == newer + s1.order;
      if s1.order != s.order {
        assert newer + ([schedule[0]] + s.order) == (newer + [schedule[0]]) + s.order;
      }
    }
  }

  // -------------------------------------------------------------- the theorems

  /** In every interleaving of n constructors the list is acyclic and holds each
      hart whose push has succeeded exactly once, and no other. */
  lemma ListHoldsEachOnce(n: nat, schedule: seq<nat>)
    ensures var s := Run(Initial(n), schedule);
            && Chain(s.head, s.link, s.order)
            && Distinct(s.order)
            && forall h :: h in s.order <==> 0 <= h < n && s.stage[h].OnList()
  {
    RunKeeps(Initial(n), schedule);
  }

  /** In every interleaving the numbers handed out are distinct and are exactly
      0, 1, up to the count less one: each such number belongs to one hart. */
  lemma NumbersAreDense(n: nat, schedule: seq<nat>, k: nat)
    ensures var s := Run(Initial(n), schedule);
            && (k < s.threads <==> exists h: nat :: h < n && Holds(s, h, k))
            && forall g: nat, h: nat :: g < n && h < n && Holds(s, g, k) && Holds(s, h, k) ==> g == h
  {
    RunKeeps(Initial(n), schedule);
    var s := Run(Initial(n), schedule);
    forall h: nat | h < n && Holds(s, h, k)
      ensures k < s.threads && h == s.tickets[k]
    {
      assert h in s.tickets;
      var j :| 0 <= j < |s.tickets| && s.tickets[j] == h;
    }
    if k < s.threads {
      assert Holds(s, s.tickets[k], k);
    }
  }

  /** Hart h has been given number k, whether or not it has stored it yet. */
  predicate Holds(s: State, h: nat, k: nat) {
    Sized(s) && h < |s.stage| && (s.stage[h] == Counted(k) || (s.stage[h].Built? && s.number[h] == Some(k)))
  }

  /** When every constructor has finished, the numbers are 0 to n-1. */
  lemma AllNumbered(n: nat, schedule: seq<nat>)
    requires forall h :: 0 <= h < n ==> Run(Initial(n), schedule).stage[h].Built?
    ensures var s := Run(Initial(n), schedule);
            s.threads == n && forall h :: 0 <= h < n ==> s.number[h].Some? && s.number[h].value < n
  {
    RunKeeps(Initial(n), schedule);
    var s := Run(Initial(n), schedule);
    hide Run, Initial, ListOk;
    TicketsAreAll(s);
    DistinctCount(s.tickets);
    forall h | 0 <= h < n ensures s.number[h].Some? && s.number[h].value < n {
      assert h in s.tickets;
    }
  }

  /** Tickets are distinct, and once every hart is built each has one. */
  lemma TicketsAreAll(s: State)
    requires CountOk(s) && forall h :: 0 <= h < |s.stage| ==> s.stage[h].Built?
    ensures Distinct(s.tickets) && Elements(s.tickets) == Below(|s.stage|)
  {
    assert forall h: nat :: h in Below(|s.stage|) ==> s.stage[h].Built? && h in s.tickets;
  }

  /** A reader that has picked up some hart of the list may go on walking while
      others push: the part of the chain behind it never changes. */
  lemma {:induction false} WalkIsStable(s: State, schedule: seq<nat>, k: nat)
    requires ListOk(s) && CountOk(s) && k < |s.order|
    ensures Chain(Some(s.order[k]), Run(s, schedule).link, s.order[k..])
  {
    hide Run, Step, CountOk, Chain, Distinct;
    RunKeeps(s, schedule);
    var s' := Run(s, schedule);
    var newer :| s'.order == newer + s.order;
    ChainDrop(s'.head, s'.link, s'.order, |newer| + k);
    assert s'.order[|newer| + k..] == s.order[k..];
  }

  lemma {:induction false} ChainDrop(at: Option<nat>, link: seq<Option<nat>>, q: seq<nat>, k: nat)
    requires Chain(at, link, q) && k <= |q|
    ensures Chain(First(q[k..]), link, q[k..])
    decreases k
  {
    if k > 0 {
      ChainDrop(link[q[0]], link, q[1..], k - 1);
      assert q[1..][k - 1..] == q[k..];
    }
  }

  // --------------------------------------------------------------------- find

  /** Search the list for the hart with thread id `tid`: the most recently
      pushed one, or None if there is none. */
  method Find(head: Option<nat>, link: seq<Option<nat>>, tids: seq<int>, tid: int, ghost order: seq<nat>)
    returns (r: Option<nat>)
    requires |tids| == |link| && Chain(head, link, order)
    ensures r.None? <==> forall h :: h in order ==> h < |tids| && tids[h] != tid
    ensures r.Some? ==> exists k :: 0 <= k < |order| && order[k] == r.value && r.value < |tids| && tids[r.value] == tid
                                   && forall j :: 0 <= j < k ==> order[j] < |tids| && tids[order[j]] != tid
  {
    var p := head;
    ghost var k := 0;
    while p.Some?
      invariant 0 <= k <= |order|
      invariant Chain(p, link, order[k..])
      invariant forall j :: 0 <= j < k ==> order[j] < |tids| && tids[order[j]] != tid
      decreases |order| - k
    {
      assert order[k..][0] == order[k];
      assert order[k..][1..] == order[k + 1..];
      if tids[p.value] == tid {
        return p;
      }
      p := link[p.value];
      k := k + 1;
    }
    r := None;
  }

  // ---------------------------------------------------------------- progress

  /** A push or a count fails only because another hart has been pushed, or
      counted, since the read it goes by. */
  lemma FailureMeansOvertaken(s: State, h: nat)
    requires Sized(s) && h < |s.stage|
    ensures s.stage[h].HasLink? ==>
              (Step(s, h).stage[h] == Pushed && Step(s, h).head == Some(h) && Step(s, h).link == s.link <==> s.head == s.link[h])
    ensures s.stage[h].HasLink? && s.head != s.link[h] ==> Step(s, h) == s.(stage := s.stage[h := Unlinked])
    ensures s.stage[h].HasCount? ==> (Step(s, h).threads == s.threads + 1 <==> s.threads == s.stage[h].seen)
    ensures s.stage[h].HasCount? && s.threads != s.stage[h].seen ==> Step(s, h) == s.(stage := s.stage[h := Pushed])
  {
  }

  lemma {:induction false} RunConcat(s: State, a: seq<nat>, b: seq<nat>)
    requires Sized(s)
    ensures Run(s, a + b) == Run(Run(s, a), b)
    decreases |a|
  {
    hide Step;
    if a == [] {
      assert a + b == b;
    } else {
      assert (a + b)[1..] == a[1..] + b;
      RunConcat(Step(s, a[0]), a[1..], b);
    }
  }

  lemma TwoSteps(s: State, h: nat)
    requires Sized(s)
    ensures Run(s, [h, h]) == Step(Step(s, h), h)
  {
    hide Step;
    assert [h, h][1..] == [h];
    assert Run(Step(s, h), [h]) == Step(Step(s, h), h);
  }

  /** A constructor, undisturbed: its hart is pushed in front of the list and takes
      the next number. */
  lemma OneConstructor(s: State, h: nat)
    requires Sized(s) && h < |s.stage| && s.stage[h].Unlinked?
    ensures var t := Run(s, [h, h] + ([h, h] + [h, h]));
            && t.head == Some(h) && t.link == s.link[h := s.head] && t.order == [h] + s.order
            && t.threads == s.threads + 1 && t.number == s.number[h := Some(s.threads)] && t.stage == s.stage[h := Built]
            && Run(s, [h, h]).stage[h] == Pushed
  {
    var t1 := Run(s, [h, h]);
    var t2 := Run(t1, [h, h]);
    RunConcat(s, [h, h], [h, h] + [h, h]);
    RunConcat(t1, [h, h], [h, h]);
    TwoSteps(s, h);
    TwoSteps(t1, h);
    TwoSteps(t2, h);
    assert t1 == s.(head := Some(h), link := s.link[h := s.head], stage := s.stage[h := Pushed], order := [h] + s.order);
    assert t2.stage == s.stage[h := Counted(s.threads)] && t2.threads == s.threads + 1;
  }
}
