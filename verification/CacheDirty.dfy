/**
  Dirty bits and eviction counts over whole traces.
*/
module CacheDirty {
  import opened Lru
  import opened CacheSpec
  import opened CacheTraces

  /** One row of n ways after its references. */
  function RowState(n: nat, refs: seq<Ref>): (row: seq<Tag>)
    requires n > 0
    ensures |row| == n
  {
    if refs == [] then seq(n, _ => Tag(0, false)) else
    var last := refs[|refs| - 1];
    RowAfter(RowState(n, refs[..|refs| - 1]), last.line, last.write)
  }

  /** When x last entered the row: the last reference to it that missed.  Line 0
      may enter without a miss, by taking an empty slot; it is then there from the
      start. */
  function LastFill(n: nat, refs: seq<Ref>, x: int): (t: nat)
    requires n > 0
    ensures t <= |refs|
  {
    if refs == [] then 0 else
    var init, last := refs[..|refs| - 1], refs[|refs| - 1];
    if last.line == x && !RowHits(RowState(n, init), x) then |init| else LastFill(n, init, x)
  }

  predicate WrittenSince(refs: seq<Ref>, t: nat, x: int) {
    exists j :: t <= j < |refs| && refs[j] == Ref(x, true)
  }

  /** The tag the row finds for a line it holds. */
  function TagOf(row: seq<Tag>, x: int): Tag
    requires RowHits(row, x)
  {
    row[IndexOf(Lines(row), x)]
  }

  lemma FirstLine(row: seq<Tag>, x: int, i: nat)
    requires i < |row| && row[i].addr == x && forall j :: 0 <= j < i ==> row[j].addr != x
    ensures RowHits(row, x) && TagOf(row, x) == row[i]
  {
    assert Lines(row)[i] == x;
    IndexIs(Lines(row), x, i);
  }

  lemma FirstIndex(row: seq<Tag>, x: int) returns (i: nat)
    requires RowHits(row, x)
    ensures i < |row| && row[i].addr == x && TagOf(row, x) == row[i]
    ensures forall j :: 0 <= j < i ==> row[j].addr != x
    ensures i == IndexOf(Lines(row), x)
  {
    i := IndexOf(Lines(row), x);
    forall j | 0 <= j < i ensures row[j].addr != x {
      assert Lines(row)[j] != x;
    }
  }

  /** A reference to y leaves the tags of other lines as they were. */
  lemma OtherTagKept(row: seq<Tag>, y: int, write: bool, x: int)
    requires row != [] && x != y && RowHits(RowAfter(row, y, write), x)
    ensures RowHits(row, x) && TagOf(RowAfter(row, y, write), x) == TagOf(row, x)
  {
    var after := RowAfter(row, y, write);
    var k := FirstIndex(after, x);
    if RowHits(row, y) {
      var i := FirstIndex(row, y);
      assert after == [after[0]] + row[..i] + row[i + 1..];
      var back := if k <= i then k - 1 else k;
      assert row[back] == after[k];
      forall j | 0 <= j < back ensures row[j].addr != x {
        if j < i { assert row[j] == after[j + 1]; }
        if j > i { assert row[j] == after[j]; }
      }
      FirstLine(row, x, back);
    } else {
      assert after == [Tag(y, write)] + row[..|row| - 1];
      forall j | 0 <= j < k - 1 ensures row[j].addr != x {
        assert row[j] == after[j + 1];
      }
      FirstLine(row, x, k - 1);
    }
  }

  lemma OwnTag(row: seq<Tag>, y: int, write: bool)
    requires row != []
    ensures RowHits(RowAfter(row, y, write), y)
    ensures TagOf(RowAfter(row, y, write), y) == Tag(y, write || (RowHits(row, y) && TagOf(row, y).dirty))
  {
    FirstLine(RowAfter(row, y, write), y, 0);
  }

  /** A resident line is dirty iff it was written since it was filled. */
  lemma {:induction false} DirtyIff(n: nat, refs: seq<Ref>, x: int)
    requires n > 0 && RowHits(RowState(n, refs), x)
    ensures TagOf(RowState(n, refs), x).dirty <==> WrittenSince(refs, LastFill(n, refs, x), x)
  {
    hide RowAfter, RowHits, TagOf;
    if refs == [] {
      FreshIsClean(n, x);
    } else {
      var init, last := refs[..|refs| - 1], refs[|refs| - 1];
      assert refs == init + [last];
      var row := RowState(n, init);
      if last.line == x {
        OwnTag(row, x, last.write);
        if RowHits(row, x) { DirtyIff(n, init, x); }
        WrittenLater(init, last, LastFill(n, init, x), x);
      } else {
        OtherTagKept(row, last.line, last.write, x);
        DirtyIff(n, init, x);
        WrittenLater(init, last, LastFill(n, init, x), x);
      }
    }
  }

  lemma FreshIsClean(n: nat, x: int)
    requires n > 0 && RowHits(seq(n, _ => Tag(0, false)), x)
    ensures !TagOf(seq(n, _ => Tag(0, false)), x).dirty
  {
  }

  lemma WrittenLater(init: seq<Ref>, last: Ref, t: nat, x: int)
    requires t <= |init|
    ensures WrittenSince(init + [last], t, x) <==> WrittenSince(init, t, x) || last == Ref(x, true)
  {
    if WrittenSince(init, t, x) {
      var j :| t <= j < |init| && init[j] == Ref(x, true);
      assert (init + [last])[j] == Ref(x, true);
    }
    if last == Ref(x, true) {
      assert (init + [last])[|init|] == Ref(x, true);
    }
  }

  // ------------------------------------------------------------ evictions

  function LinesOf(refs: seq<Ref>): seq<int> {
    seq(|refs|, i requires 0 <= i < |refs| => refs[i].line)
  }

  lemma {:induction false} RowStateLines(n: nat, refs: seq<Ref>)
    requires n > 0
    ensures Lines(RowState(n, refs)) == After(Empty(n), LinesOf(refs))
  {
    hide RowAfter, Touch;
    if refs == [] {
      assert Lines(RowState(n, refs)) == Empty(n);
    } else {
      var init, last := refs[..|refs| - 1], refs[|refs| - 1];
      RowStateLines(n, init);
      LinesAfter(RowState(n, init), last.line, last.write);
      assert LinesOf(refs)[..|refs| - 1] == LinesOf(init);
    }
  }

  /** All n ways hold lines that were used. */
  predicate RowFull(n: nat, refs: seq<Ref>) {
    |Recency(LinesOf(refs))| >= n
  }

  /** Slots behind the lines ever used are empty and clean. */
  lemma {:induction false} EmptyIsClean(n: nat, refs: seq<Ref>, i: nat)
    requires n > 0 && |Recency(LinesOf(refs))| <= i < n
    ensures !RowState(n, refs)[i].dirty
  {
    hide RowAfter, IndexOf, Window, Recency;
    if refs != [] {
      var init, last := refs[..|refs| - 1], refs[|refs| - 1];
      var row, r := RowState(n, init), Recency(LinesOf(init));
      var k := IndexOf(Lines(row), last.line);
      RecencyGrows(refs);
      RowStateLines(n, init);
      RowIsRecencyWindow(n, LinesOf(init));
      if |r| < n { FoundAt(n, r, last.line); }
      RowShifts(row, last.line, last.write, i);
      EmptyIsClean(n, init, if i > k then i else i - 1);
    }
  }

  /** One more reference: a line is added if it is new. */
  lemma RecencyGrows(refs: seq<Ref>)
    requires refs != []
    ensures var r, x := Recency(LinesOf(refs[..|refs| - 1])), refs[|refs| - 1].line;
            |Recency(LinesOf(refs))| == if x in r then |r| else |r| + 1
  {
    assert LinesOf(refs)[..|refs| - 1] == LinesOf(refs[..|refs| - 1]);
  }

  /** A reference moves the tags ahead of the line found back by one. */
  lemma RowShifts(row: seq<Tag>, line: int, write: bool, i: nat)
    requires 0 < i < |row|
    ensures var k := IndexOf(Lines(row), line);
            RowAfter(row, line, write)[i] == row[if i > k then i else i - 1]
  {
  }

  /** Where a padded recency list finds a line. */
  lemma FoundAt(n: nat, r: seq<int>, x: int)
    requires |r| < n
    ensures var k := IndexOf(Window(n, r), x);
            k == if x in r then IndexOf(r, x) else if x == 0 then |r| else n
  {
    hide IndexOf;
    var w := Window(n, r);
    if x in r {
      IndexIs(w, x, IndexOf(r, x));
    } else if x == 0 {
      IndexIs(w, 0, |r|);
    } else {
      assert x !in w;
    }
  }

  /** The last tag of a full row is the one the row finds for its line; that of any
      other row is clean. */
  lemma VictimTag(n: nat, refs: seq<Ref>)
    requires n > 0
    ensures var v := RowState(n, refs)[n - 1];
            if RowFull(n, refs) then RowHits(RowState(n, refs), v.addr) && TagOf(RowState(n, refs), v.addr) == v
            else !v.dirty
  {
    hide RowAfter, Recency;
    var row, xs := RowState(n, refs), LinesOf(refs);
    if RowFull(n, refs) {
      RowStateLines(n, refs);
      RowIsRecencyWindow(n, xs);
      RecencyFacts(xs);
      forall j | 0 <= j < n - 1 ensures row[j].addr != row[n - 1].addr {
        assert Lines(row)[j] == row[j].addr && Lines(row)[n - 1] == row[n - 1].addr;
      }
      FirstLine(row, row[n - 1].addr, n - 1);
    } else {
      EmptyIsClean(n, refs, n - 1);
    }
  }

  /** Referencing `line` now ends the residency of a line that was written since
      it was filled. */
  predicate EndsWrittenResidency(n: nat, refs: seq<Ref>, line: int)
    requires n > 0
  {
    var victim := RowState(n, refs)[n - 1].addr;
    && !RowHits(RowState(n, refs), line) && RowFull(n, refs)
    && WrittenSince(refs, LastFill(n, refs, victim), victim)
  }

  lemma EvictsIff(n: nat, refs: seq<Ref>, line: int)
    requires n > 0
    ensures RowEvicts(RowState(n, refs), line) <==> EndsWrittenResidency(n, refs, line)
  {
    hide RowState, LastFill, WrittenSince, RowHits, TagOf, RowFull;
    VictimTag(n, refs);
    if RowFull(n, refs) { DirtyIff(n, refs, RowState(n, refs)[n - 1].addr); }
  }

  /** One row's own references. */
  function RowRefs(trace: seq<Ref>, r: nat, rows: nat): seq<Ref>
    requires rows > 0
  {
    if trace == [] then [] else
    var init, last := trace[..|trace| - 1], trace[|trace| - 1];
    if last.line % rows == r then RowRefs(init, r, rows) + [last] else RowRefs(init, r, rows)
  }

  lemma {:induction false} RowOfRun(ways: nat, rows: nat, trace: seq<Ref>, r: nat)
    requires ways > 0 && r < rows
    ensures |Run(Fresh(ways, rows), trace).rows| == rows
    ensures Run(Fresh(ways, rows), trace).rows[r] == RowState(ways, RowRefs(trace, r, rows))
  {
    hide RowAfter;
    if trace != [] {
      var init := trace[..|trace| - 1];
      RowOfRun(ways, rows, init, r);
      assert (RowRefs(init, r, rows) + [trace[|trace| - 1]])[..|RowRefs(init, r, rows)|] == RowRefs(init, r, rows);
    }
  }

  /** Residencies with a write that ended during a trace. */
  function EndedWrites(ways: nat, rows: nat, trace: seq<Ref>): nat
    requires ways > 0 && rows > 0
  {
    if trace == [] then 0 else
    var init, last := trace[..|trace| - 1], trace[|trace| - 1];
    EndedWrites(ways, rows, init) +
      if EndsWrittenResidency(ways, RowRefs(init, last.line % rows, rows), last.line) then 1 else 0
  }

  /** The eviction counter counts exactly the residencies that had a write and
      have ended. */
  lemma {:induction false} EvictionsAreEndedWrites(ways: nat, rows: nat, trace: seq<Ref>)
    requires ways > 0 && rows > 0
    ensures Run(Fresh(ways, rows), trace).evictions == EndedWrites(ways, rows, trace)
  {
    hide RowAfter, RowState, EndsWrittenResidency, RowEvicts, RowRefs;
    if trace != [] {
      var init, last := trace[..|trace| - 1], trace[|trace| - 1];
      EvictionsAreEndedWrites(ways, rows, init);
      RowOfRun(ways, rows, init, last.line % rows);
      EvictsIff(ways, RowRefs(init, last.line % rows, rows), last.line);
    }
  }

  // ------------------------------------------------------------ conservation

  function DirtyIn(row: seq<Tag>): nat {
    if row == [] then 0 else (if row[0].dirty then 1 else 0) + DirtyIn(row[1..])
  }

  function DirtyInAll(rows: seq<seq<Tag>>): nat {
    if rows == [] then 0 else DirtyIn(rows[0]) + DirtyInAll(rows[1..])
  }

  lemma {:induction false} DirtyInConcat(a: seq<Tag>, b: seq<Tag>)
    ensures DirtyIn(a + b) == DirtyIn(a) + DirtyIn(b)
  {
    if a == [] {
      assert a + b == b;
    } else {
      assert (a + b)[1..] == a[1..] + b;
      DirtyInConcat(a[1..], b);
    }
  }

  lemma {:induction false} DirtyInUpdate(rows: seq<seq<Tag>>, r: nat, row: seq<Tag>)
    requires r < |rows|
    ensures DirtyInAll(rows[r := row]) == DirtyInAll(rows) - DirtyIn(rows[r]) + DirtyIn(row)
  {
    if r > 0 {
      assert rows[r := row][1..] == rows[1..][r - 1 := row];
      DirtyInUpdate(rows[1..], r - 1, row);
    }
  }

  /** One reference makes at most one line dirty, and only if it writes; an
      eviction takes one dirty line away. */
  lemma DirtyStep(row: seq<Tag>, line: int, write: bool)
    requires row != []
    ensures DirtyIn(RowAfter(row, line, write)) + (if RowEvicts(row, line) then 1 else 0)
            <= DirtyIn(row) + (if write then 1 else 0)
  {
    var k, head := OneOutOneIn(row, line, write);
    hide DirtyIn, RowAfter, RowEvicts;
    assert row == row[..k] + ([row[k]] + row[k + 1..]);
    DirtyMove(row[..k], row[k], row[k + 1..], head);
  }

  /** A reference takes tag k out and puts `head` in front. */
  lemma OneOutOneIn(row: seq<Tag>, line: int, write: bool) returns (k: nat, head: Tag)
    requires row != []
    ensures k < |row| && RowAfter(row, line, write) == [head] + (row[..k] + row[k + 1..])
    ensures head.dirty <==> write || (row[k].dirty && !RowEvicts(row, line))
    ensures RowEvicts(row, line) ==> row[k].dirty
  {
    hide IndexOf;
    var i := IndexOf(Lines(row), line);
    if i < |row| {
      k, head := i, Tag(line, row[i].dirty || write);
      assert Lines(row)[i] == line;
    } else {
      k, head := |row| - 1, Tag(line, write);
      assert line !in Lines(row);
    }
  }

  /** Taking a tag out and putting another in front. */
  lemma DirtyMove(a: seq<Tag>, t: Tag, b: seq<Tag>, head: Tag)
    ensures DirtyIn([head] + (a + b)) + (if t.dirty then 1 else 0)
            == DirtyIn(a + ([t] + b)) + if head.dirty then 1 else 0
  {
    DirtyInConcat([head], a + b);
    DirtyInConcat(a, b);
    DirtyInConcat(a, [t] + b);
    DirtyInConcat([t], b);
    OneTag(head);
    OneTag(t);
  }

  lemma OneTag(t: Tag)
    ensures DirtyIn([t]) == if t.dirty then 1 else 0
  {
  }

  /** Lines written back plus lines still dirty never exceed writes. */
  lemma {:induction false} WritesPayForDirt(ways: nat, rows: nat, trace: seq<Ref>)
    requires ways > 0 && rows > 0
    ensures var c := Run(Fresh(ways, rows), trace); c.evictions + DirtyInAll(c.rows) <= c.updates
  {
    hide RowAfter, RowEvicts, DirtyIn;
    if trace == [] {
      CleanRows(ways, Fresh(ways, rows).rows);
    } else {
      var init, last := trace[..|trace| - 1], trace[|trace| - 1];
      WritesPayForDirt(ways, rows, init);
      var c := Run(Fresh(ways, rows), init);
      var r := last.line % |c.rows|;
      DirtyStep(c.rows[r], last.line, last.write);
      DirtyInUpdate(c.rows, r, RowAfter(c.rows[r], last.line, last.write));
    }
  }

  lemma {:induction false} CleanRow(row: seq<Tag>)
    requires forall i :: 0 <= i < |row| ==> !row[i].dirty
    ensures DirtyIn(row) == 0
  {
    if row != [] { CleanRow(row[1..]); }
  }

  lemma {:induction false} CleanRows(n: nat, rows: seq<seq<Tag>>)
    requires forall r :: 0 <= r < |rows| ==> rows[r] == seq(n, _ => Tag(0, false))
    ensures DirtyInAll(rows) == 0
  {
    if rows != [] {
      CleanRow(rows[0]);
      CleanRows(n, rows[1..]);
    }
  }
}
