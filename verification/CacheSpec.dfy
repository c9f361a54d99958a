/**
  What the cache means: rows of tags kept in recency order, and counters.
*/
module CacheSpec {
  import opened Lru

  datatype Tag = Tag(addr: int, dirty: bool)

  function Lines(row: seq<Tag>): (s: seq<int>)
    ensures |s| == |row|
  {
    seq(|row|, i requires 0 <= i < |row| => row[i].addr)
  }

  /** A row after one reference: the line found moves to the front, becoming dirty
      if written; otherwise the last line goes and the new one comes first. */
  function RowAfter(row: seq<Tag>, line: int, write: bool): (r: seq<Tag>)
    requires row != []
    ensures |r| == |row|
  {
    var i := IndexOf(Lines(row), line);
    if i < |row| then [Tag(line, row[i].dirty || write)] + row[..i] + row[i + 1..]
    else [Tag(line, write)] + row[..|row| - 1]
  }

  predicate RowHits(row: seq<Tag>, line: int) {
    line in Lines(row)
  }

  /** A miss that throws out a dirty line. */
  predicate RowEvicts(row: seq<Tag>, line: int)
    requires row != []
  {
    !RowHits(row, line) && row[|row| - 1].dirty
  }

  datatype Cache = Cache(rows: seq<seq<Tag>>, refs: nat, misses: nat, updates: nat, evictions: nat) {
    predicate Ok() {
      rows != [] && forall r :: 0 <= r < |rows| ==> rows[r] != []
    }
  }

  /** One reference to a line; it lives in the row its number selects. */
  function Lookup(c: Cache, line: int, write: bool): (c': Cache)
    requires c.Ok()
    ensures c'.Ok() && |c'.rows| == |c.rows|
  {
    var r := line % |c.rows|;
    Cache(c.rows[r := RowAfter(c.rows[r], line, write)],
          c.refs + 1,
          c.misses + (if RowHits(c.rows[r], line) then 0 else 1),
          c.updates + (if write then 1 else 0),
          c.evictions + (if RowEvicts(c.rows[r], line) then 1 else 0))
  }

  // ------------------------------------------------------------ 63-bit tags

  /** Line numbers are kept in a 63-bit field. */
  predicate FitsTag(line: int) {
    -0x4000_0000_0000_0000 <= line < 0x4000_0000_0000_0000
  }

  /** What the field keeps of a line number: its low 63 bits, as a signed number. */
  function Cut(line: int): (t: int)
    ensures FitsTag(t) && (t - line) % 0x8000_0000_0000_0000 == 0
    ensures FitsTag(line) ==> t == line
  {
    (line + 0x4000_0000_0000_0000) % 0x8000_0000_0000_0000 - 0x4000_0000_0000_0000
  }

  /** A row of such fields after one reference: the line is compared whole and
      kept cut. */
  function RowAfterCut(row: seq<Tag>, line: int, write: bool): (r: seq<Tag>)
    requires row != []
    ensures |r| == |row|
  {
    if RowHits(row, line) then RowAfter(row, line, write) else [Tag(Cut(line), write)] + row[..|row| - 1]
  }

  function LookupCut(c: Cache, line: int, write: bool): (c': Cache)
    requires c.Ok()
    ensures c'.Ok() && |c'.rows| == |c.rows|
  {
    var r := line % |c.rows|;
    Lookup(c, line, write).(rows := c.rows[r := RowAfterCut(c.rows[r], line, write)])
  }

  /** Wide enough for every 64-bit address when a line has two bytes or more. */
  lemma LinesFit(addr: int, line: nat)
    requires -0x8000_0000_0000_0000 <= addr < 0x8000_0000_0000_0000 && line >= 2
    ensures FitsTag(addr / line)
  {
  }

  /** A line number that fits is looked up as if the fields had no width. */
  lemma CutIsWhole(c: Cache, line: int, write: bool)
    requires c.Ok() && FitsTag(line)
    ensures LookupCut(c, line, write) == Lookup(c, line, write)
  {
    var r := line % |c.rows|;
    assert RowAfterCut(c.rows[r], line, write) == RowAfter(c.rows[r], line, write);
  }

  predicate TagsFit(c: Cache) {
    forall r, i :: 0 <= r < |c.rows| && 0 <= i < |c.rows[r]| ==> FitsTag(c.rows[r][i].addr)
  }

  /** One that does not fit never hits, however often it is referenced. */
  lemma WideLineMisses(c: Cache, line: int, write: bool)
    requires c.Ok() && TagsFit(c)
    ensures TagsFit(LookupCut(c, line, write))
    ensures !FitsTag(line) ==> !RowHits(c.rows[line % |c.rows|], line)
  {
    hide Cut;
    var r := line % |c.rows|;
    var row, lines := c.rows[r], Lines(c.rows[r]);
    assert forall i :: 0 <= i < |row| ==> FitsTag(row[i].addr) && lines[i] == row[i].addr;
    RowAfterCutFits(row, line, write);
  }

  lemma RowAfterCutFits(row: seq<Tag>, line: int, write: bool)
    requires row != [] && forall i :: 0 <= i < |row| ==> FitsTag(row[i].addr)
    ensures var r := RowAfterCut(row, line, write); forall i :: 0 <= i < |r| ==> FitsTag(r[i].addr)
  {
    hide Cut;
    if RowHits(row, line) {
      var i :| 0 <= i < |row| && Lines(row)[i] == line;
      assert FitsTag(row[i].addr);
    }
  }

  /** The cache as the constructor leaves it. */
  function Fresh(ways: nat, rows: nat): (c: Cache)
    requires ways > 0 && rows > 0
    ensures c.Ok()
  {
    Cache(seq(rows, _ => seq(ways, _ => Tag(0, false))), 0, 0, 0, 0)
  }
}
