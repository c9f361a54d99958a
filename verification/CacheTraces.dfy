/**
  Whole traces through the cache: what each row holds, when a lookup hits, how
  misses compare with other associativities and other replacement schedules.
*/
module CacheTraces {
  import opened Common
  import opened Lru
  import opened LruBound
  import opened CacheSpec

  datatype Ref = Ref(line: int, write: bool)

  function Run(c: Cache, trace: seq<Ref>): (c': Cache)
    requires c.Ok()
    ensures c'.Ok() && |c'.rows| == |c.rows|
  {
    if trace == [] then c else
    var last := trace[|trace| - 1];
    Lookup(Run(c, trace[..|trace| - 1]), last.line, last.write)
  }

  /** The lines of one row's references, in order. */
  function RowLines(trace: seq<Ref>, r: nat, rows: nat): seq<int>
    requires rows > 0
  {
    if trace == [] then [] else
    var init, last := trace[..|trace| - 1], trace[|trace| - 1];
    if last.line % rows == r then RowLines(init, r, rows) + [last.line] else RowLines(init, r, rows)
  }

  /** Forgetting dirty bits, one reference to a row is one touch of its lines. */
  lemma LinesAfter(row: seq<Tag>, line: int, write: bool)
    requires row != []
    ensures Lines(RowAfter(row, line, write)) == Touch(Lines(row), line)
  {
    hide IndexOf;
    var i := IndexOf(Lines(row), line);
    if i < |row| {
      assert Lines(row[..i]) == Lines(row)[..i] && Lines(row[i + 1..]) == Lines(row)[i + 1..];
      LinesConcat(Tag(line, row[i].dirty || write), row[..i], row[i + 1..]);
    } else {
      assert Lines(row[..|row| - 1]) == Lines(row)[..|row| - 1];
      LinesConcat(Tag(line, write), row[..|row| - 1], []);
    }
  }

  lemma LinesConcat(t: Tag, a: seq<Tag>, b: seq<Tag>)
    ensures Lines([t] + a + b) == [t.addr] + Lines(a) + Lines(b)
    ensures b == [] ==> Lines([t] + a) == [t.addr] + Lines(a)
  {
  }

  /** Rows are independent: row r sees exactly its own references. */
  lemma {:induction false} RowAfterRun(ways: nat, rows: nat, trace: seq<Ref>, r: nat)
    requires ways > 0 && r < rows
    ensures |Run(Fresh(ways, rows), trace).rows| == rows
    ensures |Run(Fresh(ways, rows), trace).rows[r]| == ways
    ensures Lines(Run(Fresh(ways, rows), trace).rows[r]) == After(Empty(ways), RowLines(trace, r, rows))
  {
    hide RowAfter, Touch;
    if trace == [] {
      assert Lines(Fresh(ways, rows).rows[r]) == Empty(ways);
    } else {
      var init, last := trace[..|trace| - 1], trace[|trace| - 1];
      RowAfterRun(ways, rows, init, r);
      if last.line % rows == r {
        LinesAfter(Run(Fresh(ways, rows), init).rows[r], last.line, last.write);
        assert (RowLines(init, r, rows) + [last.line])[..|RowLines(init, r, rows)|] == RowLines(init, r, rows);
      }
    }
  }

  /** After any trace each row holds exactly the most recently
      used distinct lines of that row, in recency order, then empty slots. */
  lemma RowHoldsMostRecent(ways: nat, rows: nat, trace: seq<Ref>, r: nat)
    requires ways > 0 && r < rows
    ensures |Run(Fresh(ways, rows), trace).rows| == rows
    ensures Lines(Run(Fresh(ways, rows), trace).rows[r]) == Window(ways, Recency(RowLines(trace, r, rows)))
  {
    RowAfterRun(ways, rows, trace, r);
    RowIsRecencyWindow(ways, RowLines(trace, r, rows));
  }

  /** A lookup hits iff its line was referenced before and fewer than `ways`
      distinct other lines of its row were referenced since; or it is for line 0,
      which an empty slot reads as, and its row has one. */
  lemma LookupHitsIff(ways: nat, rows: nat, trace: seq<Ref>, line: int)
    requires ways > 0 && rows > 0
    ensures |Run(Fresh(ways, rows), trace).rows| == rows
    ensures RowHits(Run(Fresh(ways, rows), trace).rows[line % rows], line) <==>
            var xs := RowLines(trace, line % rows, rows);
            (line in xs && |Since(xs, line)| < ways) || (line == 0 && |Recency(xs)| < ways)
  {
    hide After, Since, Recency;
    RowAfterRun(ways, rows, trace, line % rows);
    HitIff(ways, RowLines(trace, line % rows, rows), line);
  }

  function Writes(trace: seq<Ref>): nat {
    if trace == [] then 0 else Writes(trace[..|trace| - 1]) + if trace[|trace| - 1].write then 1 else 0
  }

  /** The counters count: references, and those that were writes. */
  lemma {:induction false} CountersCount(c: Cache, trace: seq<Ref>)
    requires c.Ok()
    ensures Run(c, trace).refs == c.refs + |trace|
    ensures Run(c, trace).updates == c.updates + Writes(trace)
  {
    hide RowAfter, RowHits, RowEvicts;
    if trace != [] {
      CountersCount(c, trace[..|trace| - 1]);
    }
  }

  // ------------------------------------------------------------ associativity

  /** With the same rows, every hit with k ways is a hit with k+1, so total
      misses never rise with associativity: for every trace. */
  lemma {:induction false} MoreWaysNeverWorse(ways: nat, rows: nat, trace: seq<Ref>, line: int)
    requires ways > 0 && rows > 0
    ensures |Run(Fresh(ways, rows), trace).rows| == |Run(Fresh(ways + 1, rows), trace).rows| == rows
    ensures RowHits(Run(Fresh(ways, rows), trace).rows[line % rows], line) ==>
              RowHits(Run(Fresh(ways + 1, rows), trace).rows[line % rows], line)
    ensures Run(Fresh(ways + 1, rows), trace).misses <= Run(Fresh(ways, rows), trace).misses
  {
    hide After, RowLines;
    var r := line % rows;
    RowAfterRun(ways, rows, trace, r);
    RowAfterRun(ways + 1, rows, trace, r);
    MoreWaysNoMoreMisses(ways, RowLines(trace, r, rows));
    assert After(Empty(ways), RowLines(trace, r, rows)) == After(Empty(ways + 1), RowLines(trace, r, rows))[..ways];
    if trace != [] {
      var last := trace[|trace| - 1];
      MoreWaysNeverWorse(ways, rows, trace[..|trace| - 1], last.line);
    }
  }

  // ------------------------------------------------------------ total misses

  /** Misses of the first k rows, each on its own. */
  function MissesOfRows(ways: nat, rows: nat, trace: seq<Ref>, k: nat): nat
    requires ways > 0 && rows > 0
  {
    if k == 0 then 0 else MissesOfRows(ways, rows, trace, k - 1) + Misses(ways, RowLines(trace, k - 1, rows))
  }

  lemma {:induction false} OneRefOneRow(ways: nat, rows: nat, trace: seq<Ref>, k: nat)
    requires ways > 0 && rows > 0 && k <= rows && trace != []
    ensures var init, last := trace[..|trace| - 1], trace[|trace| - 1];
            MissesOfRows(ways, rows, trace, k) == MissesOfRows(ways, rows, init, k) +
              if last.line % rows < k && last.line !in After(Empty(ways), RowLines(init, last.line % rows, rows)) then 1 else 0
  {
    hide After, Misses, RowLines;
    if k > 0 {
      OneRefOneRow(ways, rows, trace, k - 1);
      RowLinesStep(trace, k - 1, rows);
      MissesOneMore(ways, RowLines(trace[..|trace| - 1], k - 1, rows), trace[|trace| - 1].line);
    }
  }

  lemma RowLinesStep(trace: seq<Ref>, r: nat, rows: nat)
    requires rows > 0 && trace != []
    ensures var init, last := trace[..|trace| - 1], trace[|trace| - 1];
            RowLines(trace, r, rows) == if last.line % rows == r then RowLines(init, r, rows) + [last.line] else RowLines(init, r, rows)
  {
  }

  lemma MissesOneMore(n: nat, xs: seq<int>, x: int)
    requires n > 0
    ensures Misses(n, xs + [x]) == Misses(n, xs) + if x in After(Empty(n), xs) then 0 else 1
  {
    assert (xs + [x])[..|xs|] == xs;
  }

  lemma {:induction false} MissesAddUp(ways: nat, rows: nat, trace: seq<Ref>)
    requires ways > 0 && rows > 0
    ensures Run(Fresh(ways, rows), trace).misses == MissesOfRows(ways, rows, trace, rows)
  {
    if trace == [] {
      NoMisses(ways, rows, rows);
    } else {
      hide After, RowLines, MissesOfRows;
      var init, last := trace[..|trace| - 1], trace[|trace| - 1];
      MissesAddUp(ways, rows, init);
      OneRefOneRow(ways, rows, trace, rows);
      RowAfterRun(ways, rows, init, last.line % rows);
    }
  }

  lemma {:induction false} NoMisses(ways: nat, rows: nat, k: nat)
    requires ways > 0 && rows > 0
    ensures MissesOfRows(ways, rows, [], k) == 0
  {
    if k > 0 { NoMisses(ways, rows, k - 1); }
  }

  /** A replacement schedule for each of the first k rows. */
  predicate Schedules(ways: nat, rows: nat, trace: seq<Ref>, held: seq<seq<set<int>>>, k: nat)
    requires rows > 0
  {
    k <= |held| && forall r :: 0 <= r < k ==> IsSchedule(ways, RowLines(trace, r, rows), held[r])
  }

  function ScheduleMissesOfRows(ways: nat, rows: nat, trace: seq<Ref>, held: seq<seq<set<int>>>, k: nat): nat
    requires rows > 0 && Schedules(ways, rows, trace, held, k)
  {
    if k == 0 then 0 else
    ScheduleMissesOfRows(ways, rows, trace, held, k - 1) + ScheduleMisses(RowLines(trace, k - 1, rows), held[k - 1])
  }

  lemma {:induction false} RowsAreCompetitive(ways: nat, rows: nat, trace: seq<Ref>, held: seq<seq<set<int>>>, k: nat)
    requires ways > 0 && rows > 0 && Schedules(ways, rows, trace, held, k)
    ensures MissesOfRows(ways, rows, trace, k) <= ways * ScheduleMissesOfRows(ways, rows, trace, held, k) + ways * k
  {
    hide RowLines, ScheduleMisses, Misses;
    if k > 0 {
      RowsAreCompetitive(ways, rows, trace, held, k - 1);
      LruIsCompetitive(ways, RowLines(trace, k - 1, rows), held[k - 1]);
      Distribute(ways, ScheduleMissesOfRows(ways, rows, trace, held, k - 1), ScheduleMisses(RowLines(trace, k - 1, rows), held[k - 1]));
      Distribute(ways, k - 1, 1);
    }
  }

  /** The misses the cache counts are at most `ways` times those of any other way
      of replacing lines in the same rows, plus one filling of the cache. */
  lemma CacheIsCompetitive(ways: nat, rows: nat, trace: seq<Ref>, held: seq<seq<set<int>>>)
    requires ways > 0 && rows > 0 && Schedules(ways, rows, trace, held, rows)
    ensures Run(Fresh(ways, rows), trace).misses <=
            ways * ScheduleMissesOfRows(ways, rows, trace, held, rows) + ways * rows
  {
    MissesAddUp(ways, rows, trace);
    RowsAreCompetitive(ways, rows, trace, held, rows);
  }
}
