/**
  The lock-free bump allocator behind `malloc`.  Threads race one shared pointer
  `pooltop`; an attempt reads it twice, once for the size check and once for the
  block it will return, and then swaps in the new top.
*/
module Pool {

  const WORD := 0x1_0000_0000_0000_0000   // addresses and sizes are 64 bits wide

  /** A block handed out: it starts at `addr` and may use `size` bytes. */
  datatype Block = Block(addr: nat, size: nat)

  datatype Phase =
    | Idle
    | Checking(size: nat)                        // about to read the top for the check
    | Claiming(size: nat, first: nat)            // about to read it for the block
    | Swapping(size: nat, first: nat, rv: nat)   // about to swap in the new top

  /** The pool [base, base+bytes) and the pointer into it. */
  datatype State = State(base: nat, bytes: nat, top: nat, threads: seq<Phase>, blocks: seq<Block>, failed: nat)

  datatype Event =
    | Malloc(thread: nat, size: nat)
    | Go(thread: nat)

  function After(top: nat, size: nat): nat {
    (top + size + 16) % WORD
  }

  /** The new top: `after` with its low four bits cleared. */
  function NewTop(first: nat, size: nat): nat {
    After(first, size) / 16 * 16
  }

  function Step(s: State, e: Event): (s': State)
    ensures |s'.threads| == |s.threads| && s'.base == s.base && s'.bytes == s.bytes
  {
    if e.thread >= |s.threads| then s else
    var t := e.thread;
    match (e, s.threads[t])
    case (Malloc(_, size), Idle) => s.(threads := s.threads[t := Checking(size % WORD)])
    case (Go(_), Checking(size)) =>
      if After(s.top, size) > s.base + s.bytes
      then s.(threads := s.threads[t := Idle], failed := s.failed + 1)
      else s.(threads := s.threads[t := Claiming(size, s.top)])
    case (Go(_), Claiming(size, first)) => s.(threads := s.threads[t := Swapping(size, first, s.top)])
    case (Go(_), Swapping(size, first, rv)) =>
      if s.top == rv
      then s.(top := NewTop(first, size), threads := s.threads[t := Idle], blocks := s.blocks + [Block(rv, size)])
      else s.(threads := s.threads[t := Checking(size)])
    case _ => s
  }

  function Run(s: State, events: seq<Event>): (s': State)
    ensures |s'.threads| == |s.threads| && s'.base == s.base && s'.bytes == s.bytes
    decreases |events|
  {
    if events == [] then s else Run(Step(s, events[0]), events[1..])
  }

  function Initial(base: nat, bytes: nat, n: nat): State {
    State(base, bytes, base, seq(n, _ => Idle), [], 0)
  }

  // ------------------------------------------------------------------- layout

  /** The blocks fill [base, top) in order, each followed by `least` to 16 bytes
      of slack that end at a multiple of 16. */
  predicate Laid(blocks: seq<Block>, base: nat, top: nat, least: nat) {
    if blocks == [] then top == base
    else
      var b := blocks[|blocks| - 1];
      && Laid(blocks[..|blocks| - 1], base, b.addr, least)
      && b.addr + b.size + least <= top <= b.addr + b.size + 16
      && top % 16 == 0
  }

  /** The event is a swap that is going to succeed. */
  predicate Wins(s: State, e: Event) {
    e.Go? && e.thread < |s.threads| && s.threads[e.thread].Swapping? && s.threads[e.thread].rv == s.top
  }

  /** What a thread about to swap must have seen: the size did not overflow the
      address space, and between its two reads the top moved by no more than the
      slack its block would have had. */
  predicate Fits(p: Phase, least: nat)
    requires p.Swapping?
  {
    && p.first + p.size + 16 < WORD
    && p.rv - p.first + least <= 16 - (p.first + p.size) % 16
  }

  ghost predicate Ok(s: State, least: nat) {
    && least <= 1
    && s.base + s.bytes < WORD
    && s.base <= s.top <= s.base + s.bytes
    && Laid(s.blocks, s.base, s.top, least)
    && forall t :: 0 <= t < |s.threads| ==> ThreadOk(s, s.threads[t])
  }

  predicate ThreadOk(s: State, p: Phase) {
    match p
    case Idle => true
    case Checking(size) => true
    case Claiming(size, first) => first <= s.top && After(first, size) <= s.base + s.bytes
    case Swapping(size, first, rv) => first <= rv <= s.top && After(first, size) <= s.base + s.bytes
  }

  lemma TopAfterSwap(first: nat, size: nat, rv: nat, least: nat)
    requires first <= rv && least <= 1 && rv < WORD
    ensures NewTop(first, size) % 16 == 0 && NewTop(first, size) <= After(first, size)
    ensures Fits(Swapping(size, first, rv), least) ==>
              rv + size + least <= NewTop(first, size) <= rv + size + 16
    ensures rv + size + least <= NewTop(first, size) ==> Fits(Swapping(size, first, rv), least)
  {
    var sum := first + size + 16;
    if sum < WORD {
      assert After(first, size) == sum;
    } else {
      var q := sum / WORD;
      assert After(first, size) == sum - WORD * q && q >= 1;
    }
  }

  lemma LaidOneMore(blocks: seq<Block>, base: nat, b: Block, top: nat, least: nat)
    ensures Laid(blocks + [b], base, top, least) <==>
            && Laid(blocks, base, b.addr, least)
            && b.addr + b.size + least <= top <= b.addr + b.size + 16
            && top % 16 == 0
  {
    assert (blocks + [b])[..|blocks|] == blocks;
  }

  /** One step keeps the layout exactly when it is not a winning swap of a thread
      whose two reads of the top fell too far apart. */
  lemma StepKeepsLayout(s: State, e: Event, least: nat)
    requires Ok(s, least)
    ensures Ok(Step(s, e), least) <==> (Wins(s, e) ==> Fits(s.threads[e.thread], least))
  {
    hide NewTop, After, Fits;
    if Wins(s, e) {
      var p := s.threads[e.thread];
      hide Laid;
      TopAfterSwap(p.first, p.size, p.rv, least);
      LaidOneMore(s.blocks, s.base, Block(p.rv, p.size), NewTop(p.first, p.size), least);
      var s' := Step(s, e);
      assert s'.blocks == s.blocks + [Block(p.rv, p.size)] && s'.top == NewTop(p.first, p.size);
      if Fits(p, least) {
        assert s.top <= s'.top;
        assert forall t :: 0 <= t < |s.threads| && t != e.thread ==> ThreadOk(s, s.threads[t]);
        assert Ok(s', least);
      }
    } else {
      hide Laid;
    }
  }

  /** Every winning swap of the run fits. */
  predicate AllFit(s: State, events: seq<Event>, least: nat)
    decreases |events|
  {
    events == [] ||
    ((Wins(s, events[0]) ==> Fits(s.threads[events[0].thread], least))
     && AllFit(Step(s, events[0]), events[1..], least))
  }

  /** Every winning swap of the run saw one and the same top in both its reads,
      and no size overflowed. */
  predicate Snapshots(s: State, events: seq<Event>)
    decreases |events|
  {
    events == [] ||
    ((Wins(s, events[0]) ==>
        var p := s.threads[events[0].thread];
        p.first == p.rv && p.first + p.size + 16 < WORD)
     && Snapshots(Step(s, events[0]), events[1..]))
  }

  lemma {:induction false} SnapshotsFit(s: State, events: seq<Event>)
    requires Snapshots(s, events)
    ensures AllFit(s, events, 1)
    decreases |events|
  {
    hide Step;
    if events != [] {
      SnapshotsFit(Step(s, events[0]), events[1..]);
    }
  }

  lemma {:induction false} RunKeepsLayout(s: State, events: seq<Event>, least: nat)
    requires Ok(s, least) && AllFit(s, events, least)
    ensures Ok(Run(s, events), least)
    decreases |events|
  {
    hide Step, Wins, Fits, Ok;
    if events != [] {
      StepKeepsLayout(s, events[0], least);
      RunKeepsLayout(Step(s, events[0]), events[1..], least);
    }
  }

  lemma InitialOk(base: nat, bytes: nat, n: nat, least: nat)
    requires base + bytes < WORD && least <= 1
    ensures Ok(Initial(base, bytes, n), least)
  {
  }

  /** The layout is intact after every step of the run. */
  ghost predicate AlwaysOk(s: State, events: seq<Event>, least: nat)
    decreases |events|
  {
    Ok(s, least) && (events == [] || AlwaysOk(Step(s, events[0]), events[1..], least))
  }

  /** A run keeps the layout throughout if and only if every winning swap fits: no
      overflow, and the top moved no further between its two reads than the slack
      of its block. */
  lemma {:induction false} LayoutIffFits(s: State, events: seq<Event>, least: nat)
    requires Ok(s, least)
    ensures AlwaysOk(s, events, least) <==> AllFit(s, events, least)
    decreases |events|
  {
    hide Step, Wins, Fits, Ok;
    if events != [] {
      StepKeepsLayout(s, events[0], least);
      if Ok(Step(s, events[0]), least) {
        LayoutIffFits(Step(s, events[0]), events[1..], least);
      }
    }
  }

  // -------------------------------------------------------------- the theorems

  lemma {:induction false} LaidInside(blocks: seq<Block>, base: nat, top: nat, least: nat, i: nat)
    requires Laid(blocks, base, top, least) && i < |blocks|
    ensures base <= blocks[i].addr && blocks[i].addr + blocks[i].size + least <= top
    ensures i == 0 ==> blocks[i].addr == base
    ensures i > 0 ==>
              && blocks[i].addr % 16 == 0
              && least <= blocks[i].addr - (blocks[i - 1].addr + blocks[i - 1].size) <= 16
  {
    var n := |blocks| - 1;
    if i < n {
      LaidInside(blocks[..n], base, blocks[n].addr, least, i);
    } else if n > 0 {
      assert blocks[..n][n - 1] == blocks[n - 1];
      LaidInside(blocks[..n], base, blocks[n].addr, least, n - 1);
    }
  }

  lemma {:induction false} LaidApart(blocks: seq<Block>, base: nat, top: nat, least: nat, i: nat, j: nat)
    requires Laid(blocks, base, top, least) && i < j < |blocks|
    ensures blocks[i].addr + blocks[i].size + least <= blocks[j].addr
  {
    var n := |blocks| - 1;
    if j < n {
      LaidApart(blocks[..n], base, blocks[n].addr, least, i, j);
    } else {
      LaidInside(blocks[..n], base, blocks[n].addr, least, i);
    }
  }

  /** Each block is followed by 1 to 16 bytes of slack, the last one up to top. */
  predicate Spaced(b: seq<Block>, top: nat) {
    && (forall i :: 0 < i < |b| ==> 1 <= b[i].addr - (b[i - 1].addr + b[i - 1].size) <= 16)
    && (b != [] ==> 1 <= top - (b[|b| - 1].addr + b[|b| - 1].size) <= 16)
  }

  /** Blocks laid out in order are disjoint, inside the pool, followed by 1 to 16
      bytes each, and aligned from the second one on. */
  lemma LaidMeans(b: seq<Block>, base: nat, top: nat)
    requires Laid(b, base, top, 1)
    ensures forall i :: 0 <= i < |b| ==> base <= b[i].addr && b[i].addr + b[i].size < top
    ensures forall i, j :: 0 <= i < j < |b| ==> b[i].addr + b[i].size < b[j].addr
    ensures Spaced(b, top)
    ensures forall i :: 0 < i < |b| ==> b[i].addr % 16 == 0
    ensures b != [] ==> b[0].addr == base
  {
    hide Laid;
    forall i | 0 <= i < |b|
      ensures base <= b[i].addr && b[i].addr + b[i].size < top && (i == 0 ==> b[i].addr == base)
      ensures i > 0 ==> b[i].addr % 16 == 0
    {
      LaidInside(b, base, top, 1, i);
    }
    forall i | 0 < i < |b|
      ensures 1 <= b[i].addr - (b[i - 1].addr + b[i - 1].size) <= 16
    {
      LaidInside(b, base, top, 1, i);
    }
    forall i, j | 0 <= i < j < |b| ensures b[i].addr + b[i].size < b[j].addr {
      LaidApart(b, base, top, 1, i, j);
    }
    LastSlack(b, base, top);
  }

  lemma LastSlack(b: seq<Block>, base: nat, top: nat)
    requires Laid(b, base, top, 1)
    ensures b != [] ==> 1 <= top - (b[|b| - 1].addr + b[|b| - 1].size) <= 16
  {
  }

  /** When each attempt's two reads of the top agree, then under any interleaving
      of retries all blocks handed out are pairwise disjoint and inside the pool,
      each is followed by 1 to 16 bytes of slack, and all are 16-aligned exactly
      if the pool's base is (or none has been handed out). */
  lemma BlocksAreDisjoint(base: nat, bytes: nat, n: nat, events: seq<Event>)
    requires base + bytes < WORD && Snapshots(Initial(base, bytes, n), events)
    ensures var s := Run(Initial(base, bytes, n), events);
            var b := s.blocks;
            && (forall i :: 0 <= i < |b| ==> base <= b[i].addr && b[i].addr + b[i].size <= base + bytes)
            && (forall i, j :: 0 <= i < j < |b| ==> b[i].addr + b[i].size < b[j].addr)
            && Spaced(b, s.top)
            && ((forall i :: 0 <= i < |b| ==> b[i].addr % 16 == 0) <==> base % 16 == 0 || b == [])
  {
    hide Run, Step, Snapshots, AllFit, Laid, ThreadOk, Spaced;
    var s0 := Initial(base, bytes, n);
    InitialOk(base, bytes, n, 1);
    SnapshotsFit(s0, events);
    RunKeepsLayout(s0, events, 1);
    var s := Run(s0, events);
    LaidMeans(s.blocks, base, s.top);
    FirstDecides(s.blocks);
  }

  /** Blocks aligned from the second one on are all aligned if the first is. */
  lemma FirstDecides(b: seq<Block>)
    requires forall i :: 0 < i < |b| ==> b[i].addr % 16 == 0
    ensures b != [] ==> ((forall i :: 0 <= i < |b| ==> b[i].addr % 16 == 0) <==> b[0].addr % 16 == 0)
  {
  }

  // ------------------------------------------------------- the exact condition

  /** The blocks handed out lie in the pool one behind the other, and none reaches
      the top, where the next one will begin. */
  predicate Clear(s: State) {
    && s.top <= s.base + s.bytes
    && (forall i :: 0 <= i < |s.blocks| ==> s.base <= s.blocks[i].addr && s.blocks[i].addr + s.blocks[i].size <= s.top)
    && (forall i, j :: 0 <= i < j < |s.blocks| ==> s.blocks[i].addr + s.blocks[i].size <= s.blocks[j].addr)
  }

  /** That is so after every event of the run. */
  predicate AlwaysClear(s: State, events: seq<Event>)
    decreases |events|
  {
    Clear(s) && (events == [] || AlwaysClear(Step(s, events[0]), events[1..]))
  }

  lemma LaidIsClear(s: State)
    requires Ok(s, 0)
    ensures Clear(s)
  {
    hide Laid, ThreadOk;
    var b := s.blocks;
    forall i | 0 <= i < |b| ensures s.base <= b[i].addr && b[i].addr + b[i].size <= s.top {
      LaidInside(b, s.base, s.top, 0, i);
    }
    forall i, j | 0 <= i < j < |b| ensures b[i].addr + b[i].size <= b[j].addr {
      LaidApart(b, s.base, s.top, 0, i, j);
    }
  }

  /** A winning swap that does not fit leaves the top inside, or below, the block
      it has just handed out. */
  lemma MisfitLeavesTopBelow(s: State, e: Event)
    requires Ok(s, 0) && Wins(s, e) && !Fits(s.threads[e.thread], 0)
    ensures var p, s' := s.threads[e.thread], Step(s, e);
            && s'.blocks == s.blocks + [Block(p.rv, p.size)] && s'.top < p.rv + p.size
            && s'.top <= s'.base + s'.bytes && s'.threads == s.threads[e.thread := Idle]
            && !Clear(s')
  {
    hide NewTop, After, Fits, Laid;
    var p, s' := s.threads[e.thread], Step(s, e);
    TopAfterSwap(p.first, p.size, p.rv, 0);
    assert ThreadOk(s, p);
    assert s'.blocks[|s.blocks|] == Block(p.rv, p.size);
  }

  /** The exact condition: throughout a run the blocks stay disjoint, inside the
      pool and clear of the top if and only if every winning swap fits. */
  lemma {:induction false} ClearIffFits(s: State, events: seq<Event>)
    requires Ok(s, 0)
    ensures AlwaysClear(s, events) <==> AllFit(s, events, 0)
    decreases |events|
  {
    hide Step, Wins, Fits, Ok, Clear;
    LaidIsClear(s);
    if events != [] {
      StepKeepsLayout(s, events[0], 0);
      if Ok(Step(s, events[0]), 0) {
        ClearIffFits(Step(s, events[0]), events[1..]);
      } else {
        MisfitLeavesTopBelow(s, events[0]);
      }
    }
  }

  lemma RunIsClearIffFits(base: nat, bytes: nat, n: nat, events: seq<Event>)
    requires base + bytes < WORD
    ensures AlwaysClear(Initial(base, bytes, n), events) <==> AllFit(Initial(base, bytes, n), events, 0)
  {
    InitialOk(base, bytes, n, 0);
    ClearIffFits(Initial(base, bytes, n), events);
  }

  predicate Overlap(b: Block, c: Block) {
    b.addr < c.addr + c.size && c.addr < b.addr + b.size
  }

  /** When every winning swap has fitted, the blocks are pairwise disjoint and
      inside the pool. */
  lemma FittingBlocksAreDisjoint(base: nat, bytes: nat, n: nat, events: seq<Event>)
    requires base + bytes < WORD && AllFit(Initial(base, bytes, n), events, 0)
    ensures var b := Run(Initial(base, bytes, n), events).blocks;
            && (forall i :: 0 <= i < |b| ==> base <= b[i].addr && b[i].addr + b[i].size <= base + bytes)
            && (forall i, j :: 0 <= i < j < |b| ==> !Overlap(b[i], b[j]))
  {
    hide Run, Step, AllFit, Laid, ThreadOk;
    var s0 := Initial(base, bytes, n);
    InitialOk(base, bytes, n, 0);
    RunKeepsLayout(s0, events, 0);
    LaidIsClear(Run(s0, events));
  }

  /** The first one that does not fit does harm: one more malloc, by any thread
      that is free, of any size that reaches past the start of the block just
      handed out and for which there is room, returns a block that overlaps it. */
  lemma MisfitOverlaps(base: nat, bytes: nat, n: nat, events: seq<Event>, e: Event, t: nat, size: nat)
    requires base + bytes < WORD && AllFit(Initial(base, bytes, n), events, 0)
    requires var s := Run(Initial(base, bytes, n), events);
             && Wins(s, e) && !Fits(s.threads[e.thread], 0)
             && t < n && Step(s, e).threads[t].Idle?
             && s.threads[e.thread].rv < Step(s, e).top + size
             && Step(s, e).top + size + 16 <= base + bytes
    ensures var s := Run(Initial(base, bytes, n), events);
            var p := s.threads[e.thread];
            var s' := Run(Step(s, e), [Malloc(t, size), Go(t), Go(t), Go(t)]);
            && s'.blocks == s.blocks + [Block(p.rv, p.size), Block(Step(s, e).top, size)]
            && Overlap(Block(p.rv, p.size), Block(Step(s, e).top, size))
  {
    var s0 := Initial(base, bytes, n);
    InitialOk(base, bytes, n, 0);
    RunKeepsLayout(s0, events, 0);
    var s := Run(s0, events);
    MisfitLeavesTopBelow(s, e);
    hide Run, AllFit, Ok, Fits, Wins;
    OneMalloc(Step(s, e), t, size);
  }

  /** One malloc, undisturbed. */
  lemma OneMalloc(s: State, t: nat, size: nat)
    requires t < |s.threads| && s.threads[t].Idle? && s.top + size + 16 <= s.base + s.bytes < WORD
    ensures Run(s, [Malloc(t, size), Go(t), Go(t), Go(t)]).blocks == s.blocks + [Block(s.top, size)]
  {
    var s1 := Step(s, Malloc(t, size));
    assert size % WORD == size && After(s.top, size) == s.top + size + 16;
    assert s1 == s.(threads := s.threads[t := Checking(size)]);
    var s2 := Step(s1, Go(t));
    assert s2 == s.(threads := s.threads[t := Claiming(size, s.top)]);
    var s3 := Step(s2, Go(t));
    assert s3 == s.(threads := s.threads[t := Swapping(size, s.top, s.top)]);
    var s4 := Step(s3, Go(t));
    assert s4.blocks == s.blocks + [Block(s.top, size)];
    hide Step;
    assert Run(s3, [Go(t)]) == s4;
    assert [Go(t), Go(t)][1..] == [Go(t)];
    assert Run(s2, [Go(t), Go(t)]) == s4;
    assert [Go(t), Go(t), Go(t)][1..] == [Go(t), Go(t)];
    assert Run(s1, [Go(t), Go(t), Go(t)]) == s4;
    assert [Malloc(t, size), Go(t), Go(t), Go(t)][1..] == [Go(t), Go(t), Go(t)];
  }

  /** An attempt that was overtaken starts over, with its size, and if it is then
      left alone it gets its block above what overtook it. */
  lemma OvertakenRetries(s: State, t: nat)
    requires t < |s.threads| && s.threads[t].Swapping? && s.threads[t].rv != s.top
    requires s.top + s.threads[t].size + 16 <= s.base + s.bytes < WORD
    ensures var size := s.threads[t].size;
            && Run(s, [Go(t)] + [Go(t), Go(t), Go(t)]).blocks == s.blocks + [Block(s.top, size)]
            && Run(s, [Go(t)]).blocks == s.blocks && Run(s, [Go(t)]).top == s.top
  {
    var size := s.threads[t].size;
    var s1 := s.(threads := s.threads[t := Checking(size)]);
    var s0 := s.(threads := s.threads[t := Idle]);
    assert Step(s, Go(t)) == s1;
    OneMalloc(s0, t, size);
    assert size % WORD == size;
    assert Step(s0, Malloc(t, size)) == s1;
    hide Step;
    assert Run(s, [Go(t)]) == s1;
    assert [Malloc(t, size), Go(t), Go(t), Go(t)][1..] == [Go(t), Go(t), Go(t)];
    assert Run(s0, [Malloc(t, size), Go(t), Go(t), Go(t)]) == Run(s1, [Go(t), Go(t), Go(t)]);
    assert ([Go(t)] + [Go(t), Go(t), Go(t)])[1..] == [Go(t), Go(t), Go(t)];
  }

  /** One for which there is no room, undisturbed: it fails and leaves the pool as
      it was.  A size so large that the sum wraps round passes the check. */
  lemma NoRoomFails(s: State, t: nat, size: nat)
    requires t < |s.threads| && s.threads[t].Idle? && size < WORD && s.base + s.bytes < s.top + size + 16
    ensures var r := Run(s, [Malloc(t, size), Go(t)]);
            if s.top + size + 16 < 0x1_0000_0000_0000_0000 then r == s.(failed := s.failed + 1)
            else s.top + 16 <= s.base + s.bytes ==> r == s.(threads := s.threads[t := Claiming(size, s.top)])
  {
    var s1 := Step(s, Malloc(t, size));
    assert s1 == s.(threads := s.threads[t := Checking(size)]);
    if s.top + size + 16 < WORD {
      assert After(s.top, size) == s.top + size + 16;
    } else if s.top + 16 <= s.base + s.bytes {
      Wrapped(s.top, size);
    }
    assert Step(s1, Go(t)).threads[t := Idle] == s.threads;
    hide Step;
    assert [Malloc(t, size), Go(t)][1..] == [Go(t)];
    assert Run(s1, [Go(t)]) == Step(s1, Go(t));
  }

  lemma Wrapped(top: nat, size: nat)
    requires size < WORD <= top + size + 16
    ensures After(top, size) <= top + 16
  {
    var q := (top + size + 16) / WORD;
    assert After(top, size) == top + size + 16 - WORD * q && q >= 1;
  }

  /** The code does not take a snapshot.  A thread that reads the top, is
      overtaken by another allocation, reads it again and then swaps, moves the
      top backwards; the next block overlaps one already handed out. */
  lemma TornReadsOverlap()
    ensures var run := [Malloc(0, 16), Go(0),
                        Malloc(1, 100), Go(1), Go(1), Go(1),
                        Go(0), Go(0),
                        Malloc(1, 100), Go(1), Go(1), Go(1)];
            var s := Run(Initial(0x1000, 0x4000_0000, 2), run);
            s.blocks == [Block(0x1000, 100), Block(0x1070, 16), Block(0x1020, 100)]
  {
  }
}
