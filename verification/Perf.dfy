/**
  The performance counters: one shared segment holding, for every core and every
  two-byte parcel of the text, four counters.  Offsets are counted in longs.
*/
module Perf {

  const HEADER := 4    // size, parcels, base, cores

  /** The counters of one parcel. */
  datatype Counts = Counts(executed: int, cycles: int, imiss: int, dmiss: int)

  datatype Kind = Executed | Cycles | Imiss | Dmiss

  /** Where core n's arrays begin: each earlier core has two counts of a pair of
      longs and two more longs for each parcel. */
  function CoreStart(parcels: nat, n: nat): nat {
    HEADER + n * parcels * (2 + 2)
  }

  /** The counter of the given kind, core and parcel. */
  function Cell(parcels: nat, n: nat, kind: Kind, i: nat): nat {
    CoreStart(parcels, n) +
    match kind
    case Executed => 2 * i
    case Cycles => 2 * i + 1
    case Imiss => parcels * 2 + i
    case Dmiss => parcels * 2 + parcels + i
  }

  /** The length of the segment `create` maps. */
  function SegmentSize(parcels: nat, cores: nat): (n: nat)
    ensures n >= HEADER
  {
    HEADER + parcels * cores * 2 + 2 * parcels * cores
  }

  lemma {:induction false} CoresApart(parcels: nat, m: nat, n: nat)
    requires m < n
    ensures CoreStart(parcels, m) + 4 * parcels <= CoreStart(parcels, n)
    decreases n
  {
    assert n * parcels == (n - 1) * parcels + parcels;
    if m < n - 1 { CoresApart(parcels, m, n - 1); }
  }

  lemma SizeIsEnd(parcels: nat, cores: nat)
    ensures SegmentSize(parcels, cores) == CoreStart(parcels, cores)
  {
    assert parcels * cores == cores * parcels;
    assert 2 * parcels * cores == 2 * (cores * parcels);
  }

  /** The layout in bytes, as a reader of the shared segment finds it: behind a
      32-byte header 32 bytes for each parcel of each core, first the pairs of
      executions and cycles, then the two kinds of misses. */
  lemma CellBytes(parcels: nat, cores: nat, n: nat, i: nat)
    ensures 8 * Cell(parcels, n, Executed, i) == 32 + 32 * (n * parcels) + 16 * i
    ensures 8 * Cell(parcels, n, Cycles, i) == 32 + 32 * (n * parcels) + 16 * i + 8
    ensures 8 * Cell(parcels, n, Imiss, i) == 32 + 32 * (n * parcels) + 16 * parcels + 8 * i
    ensures 8 * Cell(parcels, n, Dmiss, i) == 32 + 32 * (n * parcels) + 24 * parcels + 8 * i
    ensures 8 * SegmentSize(parcels, cores) == 32 + 32 * (cores * parcels)
  {
    SizeIsEnd(parcels, cores);
  }

  /** Every counter lies inside the segment, behind the header. */
  lemma CellInside(parcels: nat, cores: nat, n: nat, kind: Kind, i: nat)
    requires n < cores && i < parcels
    ensures HEADER <= Cell(parcels, n, kind, i) < SegmentSize(parcels, cores)
  {
    CoresApart(parcels, n, cores);
    SizeIsEnd(parcels, cores);
  }

  /** Counters of different cores, parcels or kinds never alias. */
  lemma CellsDoNotAlias(parcels: nat, m: nat, k: Kind, i: nat, n: nat, l: Kind, j: nat)
    requires i < parcels && j < parcels
    ensures Cell(parcels, m, k, i) == Cell(parcels, n, l, j) <==> m == n && k == l && i == j
  {
    hide CoreStart;
    if m < n { CoresApart(parcels, m, n); }
    if n < m { CoresApart(parcels, n, m); }
  }

  /** The counters of one core, as a reader of the segment sees them. */
  function ReadCounts(segment: seq<int>, parcels: nat, n: nat, i: nat): Counts
    requires i < parcels && Cell(parcels, n, Dmiss, parcels - 1) < |segment|
  {
    Counts(segment[Cell(parcels, n, Executed, i)], segment[Cell(parcels, n, Cycles, i)],
           segment[Cell(parcels, n, Imiss, i)], segment[Cell(parcels, n, Dmiss, i)])
  }

  function Bump(c: Counts, kind: Kind, k: int): Counts {
    match kind
    case Executed => c.(executed := c.executed + k)
    case Cycles => c.(cycles := c.cycles + k)
    case Imiss => c.(imiss := c.imiss + k)
    case Dmiss => c.(dmiss := c.dmiss + k)
  }

  /** Adding to one cell changes that counter of that parcel of that core only. */
  lemma BumpIsLocal(segment: seq<int>, parcels: nat, m: nat, kind: Kind, i: nat, k: int, n: nat, j: nat)
    requires i < parcels && j < parcels
    requires Cell(parcels, m, Dmiss, parcels - 1) < |segment| && Cell(parcels, n, Dmiss, parcels - 1) < |segment|
    ensures var at := Cell(parcels, m, kind, i);
            && at < |segment|
            && ReadCounts(segment[at := segment[at] + k], parcels, n, j)
               == if m == n && i == j then Bump(ReadCounts(segment, parcels, n, j), kind, k)
                  else ReadCounts(segment, parcels, n, j)
  {
    CellsDoNotAlias(parcels, m, kind, i, n, Executed, j);
    CellsDoNotAlias(parcels, m, kind, i, n, Cycles, j);
    CellsDoNotAlias(parcels, m, kind, i, n, Imiss, j);
    CellsDoNotAlias(parcels, m, kind, i, n, Dmiss, j);
    hide CoreStart;
  }

  class Counters {
    const segment: array<int>
    const base: int
    const parcels: nat
    const cores: nat
    const core: nat
    // pointers into the segment, set once
    const count: nat
    const imiss: nat
    const dmiss: nat

    ghost predicate Valid() {
      && core < cores && segment.Length == SegmentSize(parcels, cores)
      && count == CoreStart(parcels, core) && imiss == count + parcels * 2 && dmiss == imiss + parcels
    }

    /** The counters of core n, parcel by parcel. */
    ghost function ViewOf(n: nat): (s: seq<Counts>)
      requires Valid() && n < cores
      reads segment
      ensures |s| == parcels
    {
      Fits(n);
      seq(parcels, i requires 0 <= i < parcels reads segment => ReadCounts(segment[..], parcels, n, i))
    }

    /** This core's counters. */
    ghost function View(): (s: seq<Counts>)
      requires Valid()
      reads segment
      ensures |s| == parcels
    {
      ViewOf(core)
    }

    lemma Fits(n: nat)
      requires Valid() && n < cores
      ensures parcels > 0 ==> Cell(parcels, n, Dmiss, parcels - 1) < segment.Length
    {
      if parcels > 0 {
        CellInside(parcels, cores, n, Dmiss, parcels - 1);
      }
    }

    /** Attach core n to a segment made for `cores` cores.  A core too many gets no
        pointers (they are unset in the source, zero here). */
    constructor (segment: array<int>, base: int, parcels: nat, cores: nat, n: nat)
      ensures this.segment == segment && this.base == base
      ensures this.parcels == parcels && this.cores == cores && core == n
      ensures n < cores && segment.Length == SegmentSize(parcels, cores) ==> Valid()
      ensures n >= cores ==> count == imiss == dmiss == 0
    {
      this.segment, this.base, this.parcels, this.cores, core := segment, base, parcels, cores, n;
      if n >= cores {
        count, imiss, dmiss := 0, 0, 0;
      } else {
        var ptr := HEADER + n * parcels * (2 + 2);
        count := ptr;
        imiss := ptr + parcels * 2;
        dmiss := ptr + parcels * 2 + parcels;
      }
    }

    predicate InText(pc: int) { base <= pc && (pc - base) / 2 < parcels }

    function Index(pc: int): (i: nat)
      requires InText(pc)
      ensures i < parcels
    {
      (pc - base) / 2
    }

    /** Add k to the counter of the given kind for `pc`. */
    method Inc(kind: Kind, pc: int, k: int)
      requires Valid() && InText(pc)
      modifies segment
      ensures var i := (pc - base) / 2;
              View() == old(View())[i := Bump(old(View())[i], kind, k)]
      ensures forall n: nat :: n < cores && n != core ==> ViewOf(n) == old(ViewOf(n))
      ensures segment[..HEADER] == old(segment[..HEADER])
    {
      hide SegmentSize, CoreStart;
      var i := Index(pc);
      CellInside(parcels, cores, core, kind, i);
      ghost var before := segment[..];
      var at := match kind
        case Executed => count + 2 * i
        case Cycles => count + 2 * i + 1
        case Imiss => imiss + i
        case Dmiss => dmiss + i;
      assert at == Cell(parcels, core, kind, i);
      segment[at] := segment[at] + k;
      assert segment[..] == before[at := before[at] + k];
      forall n: nat, j: nat | n < cores && j < parcels
        ensures ViewOf(n)[j] == if n == core && j == i then Bump(old(ViewOf(n))[j], kind, k) else old(ViewOf(n))[j]
      {
        Fits(n);
        Fits(core);
        BumpIsLocal(before, parcels, core, kind, i, k, n, j);
      }
    }
  }
}
