/**
  The timing model of one core: what each instruction, jump and memory access
  adds to the core's clock and to the per-pc counters.
*/
module Ledger {
  import opened Common
  import opened Perf
  import opened LruCache
  import Spec = CacheSpec

  /** What things cost, in cycles, and the line sizes of the two caches. */
  datatype Costs = Costs(jump: int, imiss: int, dmiss: int, iline: nat, dline: nat) {
    predicate Ok() { iline > 0 && dline > 0 }
  }

  /** The core's clock, its counters, and its two caches. */
  datatype Books = Books(time: int, counts: seq<Counts>, ic: Spec.Cache, dc: Spec.Cache) {
    predicate Ok() { ic.Ok() && dc.Ok() }
  }

  /** One call of the model; pcs are given as parcel numbers beside the address
      the instruction cache sees. */
  datatype Call =
    | Insn(pc: int, i: nat)
    | Jump(i: nat)                // the parcel jumped to
    | Load(a: int, i: nat)
    | Store(a: int, i: nat)       // stores and atomic operations

  function Add(counts: seq<Counts>, i: nat, kind: Kind, k: int): (s: seq<Counts>)
    requires i < |counts|
    ensures |s| == |counts|
  {
    counts[i := Bump(counts[i], kind, k)]
  }

  predicate Hits(c: Spec.Cache, line: int)
    requires c.Ok()
  {
    Spec.RowHits(c.rows[line % |c.rows|], line)
  }

  /** A miss: count it, and charge the penalty to the clock and to the pc. */
  function Missed(b: Books, i: nat, kind: Kind, penalty: int): (b': Books)
    requires i < |b.counts|
    ensures |b'.counts| == |b.counts| && b'.ic == b.ic && b'.dc == b.dc
  {
    b.(time := b.time + penalty, counts := Add(Add(b.counts, i, kind, 1), i, Cycles, penalty))
  }

  function Tick(b: Books, i: nat): Books
    requires i < |b.counts|
  {
    b.(time := b.time + 1, counts := Add(Add(b.counts, i, Executed, 1), i, Cycles, 1))
  }

  function Charge(c: Costs, b: Books, call: Call): (b': Books)
    requires c.Ok() && b.Ok() && call.i < |b.counts|
    ensures b'.Ok() && |b'.counts| == |b.counts|
  {
    match call
    case Insn(pc, i) =>
      var b1 := if Hits(b.ic, pc / c.iline) then b else Missed(b, i, Imiss, c.imiss);
      Tick(b1, i).(ic := Spec.LookupCut(b.ic, pc / c.iline, false))
    case Jump(i) =>
      b.(time := b.time + c.jump, counts := Add(b.counts, i, Cycles, c.jump))
    case Load(a, i) =>
      var b1 := if Hits(b.dc, a / c.dline) then b else Missed(b, i, Dmiss, c.dmiss);
      b1.(dc := Spec.LookupCut(b.dc, a / c.dline, false))
    case Store(a, i) =>
      var b1 := if Hits(b.dc, a / c.dline) then b else Missed(b, i, Dmiss, c.dmiss);
      b1.(dc := Spec.LookupCut(b.dc, a / c.dline, true))
  }

  function ChargeAll(c: Costs, b: Books, calls: seq<Call>): (b': Books)
    requires c.Ok() && b.Ok() && forall k :: 0 <= k < |calls| ==> calls[k].i < |b.counts|
    ensures b'.Ok() && |b'.counts| == |b.counts|
    decreases |calls|
  {
    if calls == [] then b else ChargeAll(c, Charge(c, b, calls[0]), calls[1..])
  }

  // ----------------------------------------------------------- the books balance

  function Tally(calls: seq<Call>, f: Call -> bool): nat {
    if calls == [] then 0 else (if f(calls[0]) then 1 else 0) + Tally(calls[1..], f)
  }

  function CyclesOf(c: Counts): int { c.cycles }
  function ExecutedOf(c: Counts): int { c.executed }
  function ImissOf(c: Counts): int { c.imiss }
  function DmissOf(c: Counts): int { c.dmiss }
  predicate IsInsn(c: Call) { c.Insn? }
  predicate IsJump(c: Call) { c.Jump? }
  predicate IsLoad(c: Call) { c.Load? }
  predicate IsStore(c: Call) { c.Store? }

  /** The four totals of a core's counters. */
  function Totals(counts: seq<Counts>): Counts {
    Counts(Sum(counts, ExecutedOf), Sum(counts, CyclesOf), Sum(counts, ImissOf), Sum(counts, DmissOf))
  }

  lemma AddMovesTotal(counts: seq<Counts>, i: nat, kind: Kind, k: int)
    requires i < |counts|
    ensures Totals(Add(counts, i, kind, k)) == Bump(Totals(counts), kind, k)
  {
    hide Sum;
    var x := Bump(counts[i], kind, k);
    SumUpdate(counts, i, x, ExecutedOf);
    SumUpdate(counts, i, x, CyclesOf);
    SumUpdate(counts, i, x, ImissOf);
    SumUpdate(counts, i, x, DmissOf);
  }

  lemma MissedMoves(b: Books, i: nat, kind: Kind, penalty: int)
    requires i < |b.counts|
    ensures Totals(Missed(b, i, kind, penalty).counts) == Bump(Bump(Totals(b.counts), kind, 1), Cycles, penalty)
  {
    hide Totals, Add;
    AddMovesTotal(b.counts, i, kind, 1);
    AddMovesTotal(Add(b.counts, i, kind, 1), i, Cycles, penalty);
  }

  lemma TickMoves(b: Books, i: nat)
    requires i < |b.counts|
    ensures Totals(Tick(b, i).counts) == Bump(Bump(Totals(b.counts), Executed, 1), Cycles, 1)
  {
    hide Totals, Add;
    AddMovesTotal(b.counts, i, Executed, 1);
    AddMovesTotal(Add(b.counts, i, Executed, 1), i, Cycles, 1);
  }

  /** What one call adds to the totals. */
  lemma CallTotals(c: Costs, b: Books, call: Call)
    requires c.Ok() && b.Ok() && call.i < |b.counts|
    ensures var b' := Charge(c, b, call);
            var x, y := Totals(b.counts), Totals(b'.counts);
            && y.executed == x.executed + (if call.Insn? then 1 else 0)
            && y.imiss == x.imiss + (b'.ic.misses - b.ic.misses)
            && y.dmiss == x.dmiss + (b'.dc.misses - b.dc.misses)
            && y.cycles - x.cycles == b'.time - b.time
  {
    hide Totals, Add, Spec.RowAfterCut, Spec.RowAfter, Spec.RowHits, Spec.RowEvicts;
    match call {
      case Insn(pc, i) =>
        MissedMoves(b, i, Imiss, c.imiss);
        TickMoves(if Hits(b.ic, pc / c.iline) then b else Missed(b, i, Imiss, c.imiss), i);
      case Jump(i) => AddMovesTotal(b.counts, i, Cycles, c.jump);
      case Load(a, i) => MissedMoves(b, i, Dmiss, c.dmiss);
      case Store(a, i) => MissedMoves(b, i, Dmiss, c.dmiss);
    }
  }

  /** And to the clock. */
  lemma CallTime(c: Costs, b: Books, call: Call)
    requires c.Ok() && b.Ok() && call.i < |b.counts|
    ensures var b' := Charge(c, b, call);
            && b'.ic.misses >= b.ic.misses && b'.dc.misses >= b.dc.misses
            && b'.time - b.time == (if call.Insn? then 1 else 0) + (if call.Jump? then c.jump else 0)
                                   + c.imiss * (b'.ic.misses - b.ic.misses) + c.dmiss * (b'.dc.misses - b.dc.misses)
  {
    hide Add, Spec.RowAfterCut, Spec.RowAfter, Spec.RowHits, Spec.RowEvicts;
  }

  /** What one call adds to the clock and to the totals. */
  lemma CallMoves(c: Costs, b: Books, call: Call)
    requires c.Ok() && b.Ok() && call.i < |b.counts|
    ensures var b' := Charge(c, b, call);
            var x, y := Totals(b.counts), Totals(b'.counts);
            && b'.ic.misses >= b.ic.misses && b'.dc.misses >= b.dc.misses
            && y.executed == x.executed + (if call.Insn? then 1 else 0)
            && y.imiss == x.imiss + (b'.ic.misses - b.ic.misses)
            && y.dmiss == x.dmiss + (b'.dc.misses - b.dc.misses)
            && y.cycles - x.cycles == b'.time - b.time
            && b'.time - b.time == (if call.Insn? then 1 else 0) + (if call.Jump? then c.jump else 0)
                                   + c.imiss * (b'.ic.misses - b.ic.misses) + c.dmiss * (b'.dc.misses - b.dc.misses)
  {
    hide Totals, Charge;
    CallTotals(c, b, call);
    CallTime(c, b, call);
  }

  /** Over any sequence of model calls: the clock moves exactly as much as the
      cycles charged to all pcs together, which is one for each instruction, the
      jump cost for each jump and the penalty for each miss of each cache; and the
      misses charged to pcs are the misses the caches counted. */
  lemma {:induction false} BooksBalance(c: Costs, b: Books, calls: seq<Call>)
    requires c.Ok() && b.Ok() && forall k :: 0 <= k < |calls| ==> calls[k].i < |b.counts|
    ensures var b' := ChargeAll(c, b, calls);
            var x, y := Totals(b.counts), Totals(b'.counts);
            && b'.time - b.time == y.cycles - x.cycles
            && b'.time - b.time == Tally(calls, IsInsn) + c.jump * Tally(calls, IsJump)
                                   + c.imiss * (b'.ic.misses - b.ic.misses) + c.dmiss * (b'.dc.misses - b.dc.misses)
            && y.executed - x.executed == Tally(calls, IsInsn)
            && y.imiss - x.imiss == b'.ic.misses - b.ic.misses
            && y.dmiss - x.dmiss == b'.dc.misses - b.dc.misses
    decreases |calls|
  {
    hide Totals, Charge;
    if calls != [] {
      var b1 := Charge(c, b, calls[0]);
      CallMoves(c, b, calls[0]);
      BooksBalance(c, b1, calls[1..]);
      var b' := ChargeAll(c, b1, calls[1..]);
      Distribute(c.jump, if calls[0].Jump? then 1 else 0, Tally(calls[1..], IsJump));
      Distribute(c.imiss, b1.ic.misses - b.ic.misses, b'.ic.misses - b1.ic.misses);
      Distribute(c.dmiss, b1.dc.misses - b.dc.misses, b'.dc.misses - b1.dc.misses);
    }
  }

  // ------------------------------------------------------- parcel by parcel

  /** The calls charged to parcel i that missed, in the data or in the instruction
      cache. */
  function MissesAt(c: Costs, b: Books, calls: seq<Call>, i: nat, data: bool): nat
    requires c.Ok() && b.Ok() && forall k :: 0 <= k < |calls| ==> calls[k].i < |b.counts|
    decreases |calls|
  {
    if calls == [] then 0 else
    var b1 := Charge(c, b, calls[0]);
    var missed := if data then b1.dc.misses > b.dc.misses else b1.ic.misses > b.ic.misses;
    (if calls[0].i == i && missed then 1 else 0) + MissesAt(c, b1, calls[1..], i, data)
  }

  function InsnAt(i: nat): Call -> bool { (x: Call) => x.Insn? && x.i == i }

  function JumpTo(i: nat): Call -> bool { (x: Call) => x.Jump? && x.i == i }

  /** What one call adds to the counters of parcel i. */
  lemma CallAtParcel(c: Costs, b: Books, call: Call, i: nat)
    requires c.Ok() && b.Ok() && call.i < |b.counts| && i < |b.counts|
    ensures var b' := Charge(c, b, call);
            var x, y := b.counts[i], b'.counts[i];
            var insn, jump := if InsnAt(i)(call) then 1 else 0, if JumpTo(i)(call) then 1 else 0;
            var imiss := if call.i == i && b'.ic.misses > b.ic.misses then 1 else 0;
            var dmiss := if call.i == i && b'.dc.misses > b.dc.misses then 1 else 0;
            && y.executed == x.executed + insn && y.imiss == x.imiss + imiss && y.dmiss == x.dmiss + dmiss
            && y.cycles == x.cycles + insn + c.jump * jump + c.imiss * imiss + c.dmiss * dmiss
  {
    hide Spec.RowAfterCut, Spec.RowAfter, Spec.RowHits, Spec.RowEvicts;
  }

  /** The books of each parcel: it is charged with its own instructions, the jumps
      to it, and the misses of its own fetches, loads and stores, and with nothing
      else. */
  lemma {:induction false} ParcelBalances(c: Costs, b: Books, calls: seq<Call>, i: nat)
    requires c.Ok() && b.Ok() && i < |b.counts| && forall k :: 0 <= k < |calls| ==> calls[k].i < |b.counts|
    ensures var x, y := b.counts[i], ChargeAll(c, b, calls).counts[i];
            var imiss, dmiss := MissesAt(c, b, calls, i, false), MissesAt(c, b, calls, i, true);
            && y.executed - x.executed == Tally(calls, InsnAt(i))
            && y.imiss - x.imiss == imiss && y.dmiss - x.dmiss == dmiss
            && y.cycles - x.cycles == Tally(calls, InsnAt(i)) + c.jump * Tally(calls, JumpTo(i)) + c.imiss * imiss + c.dmiss * dmiss
    decreases |calls|
  {
    hide Charge, InsnAt, JumpTo;
    if calls != [] {
      var b1 := Charge(c, b, calls[0]);
      CallAtParcel(c, b, calls[0], i);
      ParcelBalances(c, b1, calls[1..], i);
      Distribute(c.jump, if JumpTo(i)(calls[0]) then 1 else 0, Tally(calls[1..], JumpTo(i)));
      Distribute(c.imiss, if calls[0].i == i && b1.ic.misses > b.ic.misses then 1 else 0, MissesAt(c, b1, calls[1..], i, false));
      Distribute(c.dmiss, if calls[0].i == i && b1.dc.misses > b.dc.misses then 1 else 0, MissesAt(c, b1, calls[1..], i, true));
    }
  }

  // --------------------------------------------------- what the caches are told

  /** A reference of the instruction or of the data cache. */
  datatype Told = Told(line: int, write: bool)

  function Refer(c: Spec.Cache, refs: seq<Told>): (c': Spec.Cache)
    requires c.Ok()
    ensures c'.Ok()
    decreases |refs|
  {
    if refs == [] then c else Refer(Spec.LookupCut(c, refs[0].line, refs[0].write), refs[1..])
  }

  /** Fetches read the instruction cache. */
  function Fetches(c: Costs, calls: seq<Call>): seq<Told>
    requires c.Ok()
  {
    if calls == [] then [] else
    (match calls[0] case Insn(pc, _) => [Told(pc / c.iline, false)] case _ => []) + Fetches(c, calls[1..])
  }

  /** Loads read the data cache; stores and atomic operations write it. */
  function Accesses(c: Costs, calls: seq<Call>): seq<Told>
    requires c.Ok()
  {
    if calls == [] then [] else
    (match calls[0]
     case Load(a, _) => [Told(a / c.dline, false)]
     case Store(a, _) => [Told(a / c.dline, true)]
     case _ => [])
    + Accesses(c, calls[1..])
  }

  /** Each cache ends as its own references leave it; the write counter of the data
      cache counts the stores, and that of the instruction cache nothing. */
  lemma {:induction false} CachesAreTold(c: Costs, b: Books, calls: seq<Call>)
    requires c.Ok() && b.Ok() && forall k :: 0 <= k < |calls| ==> calls[k].i < |b.counts|
    ensures var b' := ChargeAll(c, b, calls);
            && b'.ic == Refer(b.ic, Fetches(c, calls)) && b'.dc == Refer(b.dc, Accesses(c, calls))
            && b'.ic.refs - b.ic.refs == Tally(calls, IsInsn) && b'.ic.updates == b.ic.updates
            && b'.dc.refs - b.dc.refs == Tally(calls, IsLoad) + Tally(calls, IsStore)
            && b'.dc.updates - b.dc.updates == Tally(calls, IsStore)
    decreases |calls|
  {
    hide Spec.RowAfterCut, Spec.RowAfter, Spec.RowHits, Spec.RowEvicts;
    if calls != [] {
      var b1 := Charge(c, b, calls[0]);
      CachesAreTold(c, b1, calls[1..]);
      ToldFirst(b.ic, Fetches(c, calls), Fetches(c, calls[1..]));
      ToldFirst(b.dc, Accesses(c, calls), Accesses(c, calls[1..]));
    }
  }

  lemma ToldFirst(c: Spec.Cache, refs: seq<Told>, rest: seq<Told>)
    requires c.Ok()
    ensures |refs| > 0 && refs == [refs[0]] + rest ==>
              Refer(c, refs) == Refer(Spec.LookupCut(c, refs[0].line, refs[0].write), rest)
    ensures refs == [] + rest ==> Refer(c, refs) == Refer(c, rest)
  {
    hide Spec.LookupCut;
    if |refs| > 0 && refs == [refs[0]] + rest {
      assert refs[1..] == rest;
    }
    if refs == [] + rest {
      assert refs == rest;
    }
  }

  // ---------------------------------------------------------------- the model

  class Mem {
    var localTime: int
    const costs: Costs
    const perf: Counters
    const ic: Cache
    const dc: Cache

    /** The caches and the counters are distinct objects. */
    ghost predicate Apart() {
      && ic != dc && ic.tags != dc.tags && ic.states != dc.states
      && perf.segment != ic.states && perf.segment != dc.states
    }

    ghost predicate Valid()
      reads this, perf, perf.segment, ic, ic.tags, ic.states, dc, dc.tags, dc.states
    {
      && Apart() && perf.Valid() && ic.Valid() && dc.Valid()
      && ic.line == costs.iline && dc.line == costs.dline && dc.writeable
      && AllClean(ic.View())
    }

    ghost function View(): (b: Books)
      requires Valid()
      reads this, perf, perf.segment, ic, ic.tags, ic.states, dc, dc.tags, dc.states
      ensures b.Ok() && |b.counts| == perf.parcels
    {
      Books(localTime, perf.View(), ic.View(), dc.View())
    }

    constructor (costs: Costs, perf: Counters, ic: Cache, dc: Cache)
      requires ic != dc && ic.tags != dc.tags && ic.states != dc.states
      requires perf.segment != ic.states && perf.segment != dc.states
      requires perf.Valid() && ic.Valid() && dc.Valid()
      requires ic.line == costs.iline && dc.line == costs.dline && dc.writeable && AllClean(ic.View())
      ensures Valid() && View() == Books(0, perf.View(), ic.View(), dc.View())
      ensures this.costs == costs && this.perf == perf && this.ic == ic && this.dc == dc
    {
      this.costs, this.perf, this.ic, this.dc := costs, perf, ic, dc;
      localTime := 0;
    }

    /** Add to one of this core's counters. */
    method Inc(kind: Kind, pc: int, k: int)
      requires Valid() && perf.InText(pc)
      modifies perf.segment
      ensures Valid() && View() == old(View()).(counts := Add(old(View()).counts, perf.Index(pc), kind, k))
      ensures forall n: nat :: n < perf.cores && n != perf.core ==> perf.ViewOf(n) == old(perf.ViewOf(n))
    {
      hide IsFsm, Matches, AllClean, Bump, Spec.Fresh;
      perf.Inc(kind, pc, k);
    }

    /** Advance this core's clock. */
    method Advance(k: int)
      requires Valid()
      modifies this`localTime
      ensures Valid() && View() == old(View()).(time := old(View()).time + k)
      ensures forall n: nat :: n < perf.cores ==> perf.ViewOf(n) == old(perf.ViewOf(n))
    {
      hide IsFsm, Matches, AllClean, ReadCounts;
      localTime := localTime + k;
    }

    /** Look up the instruction cache. */
    method Fetch(pc: int) returns (hit: bool)
      requires Valid()
      modifies ic, ic.tags, ic.states
      ensures Valid() && hit == Hits(old(View()).ic, pc / costs.iline)
      ensures View() == old(View()).(ic := Spec.LookupCut(old(View()).ic, pc / costs.iline, false))
      ensures forall n: nat :: n < perf.cores ==> perf.ViewOf(n) == old(perf.ViewOf(n))
    {
      hide IsFsm, Matches, AllClean, ReadCounts, Spec.LookupCut, Spec.RowHits, Spec.RowEvicts;
      CleanStays(ic.View(), pc / costs.iline);
      var ok;
      ok, hit := ic.Lookup(pc, false);
    }

    /** Look up the data cache. */
    method Access(a: int, write: bool) returns (hit: bool)
      requires Valid()
      modifies dc, dc.tags, dc.states
      ensures Valid() && hit == Hits(old(View()).dc, a / costs.dline)
      ensures View() == old(View()).(dc := Spec.LookupCut(old(View()).dc, a / costs.dline, write))
      ensures forall n: nat :: n < perf.cores ==> perf.ViewOf(n) == old(perf.ViewOf(n))
    {
      hide IsFsm, Matches, AllClean, ReadCounts, Spec.LookupCut, Spec.RowHits, Spec.RowEvicts;
      var ok;
      ok, hit := dc.Lookup(a, write);
    }

    method InsnModel(pc: int)
      requires Valid() && perf.InText(pc)
      modifies this`localTime, perf.segment, ic, ic.tags, ic.states
      ensures Valid() && View() == Charge(costs, old(View()), Insn(pc, perf.Index(pc)))
      ensures forall n: nat :: n < perf.cores && n != perf.core ==> perf.ViewOf(n) == old(perf.ViewOf(n))
    {
      hide IsFsm, Matches, AllClean, ReadCounts, Add, Spec.LookupCut, Spec.RowHits, Spec.RowEvicts, Valid, View, perf.ViewOf;
      var hit := Fetch(pc);
      if !hit {
        Advance(costs.imiss);
        Inc(Imiss, pc, 1);
        Inc(Cycles, pc, costs.imiss);
      }
      Inc(Executed, pc, 1);
      Inc(Cycles, pc, 1);
      Advance(1);
    }

    /** A taken jump or branch; the cost goes to its target. */
    method JumpModel(npc: int, pc: int) returns (r: int)
      requires Valid() && perf.InText(npc)
      modifies this`localTime, perf.segment
      ensures Valid() && r == npc && View() == Charge(costs, old(View()), Jump(perf.Index(npc)))
      ensures forall n: nat :: n < perf.cores && n != perf.core ==> perf.ViewOf(n) == old(perf.ViewOf(n))
    {
      hide IsFsm, Matches, AllClean, ReadCounts, Add, Valid, View, perf.ViewOf;
      Advance(costs.jump);
      Inc(Cycles, npc, costs.jump);
      r := npc;
    }

    /** A load. */
    method LoadModel(a: int, pc: int) returns (r: int)
      requires Valid() && perf.InText(pc)
      modifies this`localTime, perf.segment, dc, dc.tags, dc.states
      ensures Valid() && r == a && View() == Charge(costs, old(View()), Load(a, perf.Index(pc)))
      ensures forall n: nat :: n < perf.cores && n != perf.core ==> perf.ViewOf(n) == old(perf.ViewOf(n))
    {
      hide IsFsm, Matches, AllClean, ReadCounts, Add, Spec.LookupCut, Spec.RowHits, Spec.RowEvicts, Valid, View, perf.ViewOf;
      var hit := Access(a, false);
      if !hit {
        Inc(Dmiss, pc, 1);
        Advance(costs.dmiss);
        Inc(Cycles, pc, costs.dmiss);
      }
      r := a;
    }

    /** A store. */
    method StoreModel(a: int, pc: int) returns (r: int)
      requires Valid() && perf.InText(pc)
      modifies this`localTime, perf.segment, dc, dc.tags, dc.states
      ensures Valid() && r == a && View() == Charge(costs, old(View()), Store(a, perf.Index(pc)))
      ensures forall n: nat :: n < perf.cores && n != perf.core ==> perf.ViewOf(n) == old(perf.ViewOf(n))
    {
      hide IsFsm, Matches, AllClean, ReadCounts, Add, Spec.LookupCut, Spec.RowHits, Spec.RowEvicts, Valid, View, perf.ViewOf;
      var hit := Access(a, true);
      if !hit {
        Inc(Dmiss, pc, 1);
        Advance(costs.dmiss);
        Inc(Cycles, pc, costs.dmiss);
      }
      r := a;
    }

    /** An atomic operation. */
    method AmoModel(a: int, pc: int)
      requires Valid() && perf.InText(pc)
      modifies this`localTime, perf.segment, dc, dc.tags, dc.states
      ensures Valid() && View() == Charge(costs, old(View()), Store(a, perf.Index(pc)))
      ensures forall n: nat :: n < perf.cores && n != perf.core ==> perf.ViewOf(n) == old(perf.ViewOf(n))
    {
      hide IsFsm, Matches, AllClean, ReadCounts, Add, Spec.LookupCut, Spec.RowHits, Spec.RowEvicts, Valid, View, perf.ViewOf;
      var hit := Access(a, true);
      if !hit {
        Inc(Dmiss, pc, 1);
        Advance(costs.dmiss);
        Inc(Cycles, pc, costs.dmiss);
      }
    }
  }
}
