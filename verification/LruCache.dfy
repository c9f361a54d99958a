/**
  The cache itself: tag arrays, a 16-bit replacement state for each row, and a
  lookup that walks the flat replacement table.
*/
module LruCache {
  import opened Common
  import opened Orders
  import opened OrderNames
  import opened FsmTable
  import opened Lru
  import Spec = CacheSpec

  /** fsm is the emitted table for the orders in `keys`. */
  ghost predicate IsFsm(ways: nat, keys: seq<Order>, fsm: seq<Entry>) {
    Lists(keys, AllOrders(ways)) && fsm == Flat(ways, keys)
  }

  /** A row's state number stands for an order, its state is that number times
      the ways, and its tags read in that order are its contents. */
  predicate Matches(keys: seq<Order>, number: nat, state: int, contents: seq<Spec.Tag>, column: seq<Spec.Tag>) {
    && number < |keys| && state == number * |column|
    && IsOrder(|column|, keys[number]) && |contents| == |column|
    && forall i :: 0 <= i < |column| ==> contents[i] == column[keys[number][i]]
  }

  predicate Clean(row: seq<Spec.Tag>) {
    forall i :: 0 <= i < |row| ==> !row[i].dirty
  }

  /** Nothing in the cache has been written. */
  predicate AllClean(c: Spec.Cache) {
    forall r :: 0 <= r < |c.rows| ==> Clean(c.rows[r])
  }

  class Cache {
    const fsm: seq<Entry>          // fsm[0] is a header
    ghost const keys: seq<Order>   // the order each state number stands for
    const line: nat                // line size in bytes
    const rows: nat
    const ways: nat
    const writeable: bool
    const tags: array2<Spec.Tag>   // [way, row]
    const states: array<int>       // state number times ways, for each row
    var evicted: int               // the cell eviction reports are written to
    var refs: nat
    var misses: nat
    var updates: nat
    var evictions: nat
    ghost var number: seq<nat>               // the state number of each row
    ghost var contents: seq<seq<Spec.Tag>>   // each row, most recently used first

    /** The tags of row r, way by way. */
    ghost function Column(r: nat): (s: seq<Spec.Tag>)
      requires r < tags.Length1
      reads tags
      ensures |s| == tags.Length0
    {
      seq(tags.Length0, w requires 0 <= w < tags.Length0 reads tags => tags[w, r])
    }

    ghost predicate RowOk(r: nat)
      requires r < states.Length && r < |number| && r < |contents| && r < tags.Length1
      reads `number, `contents, tags, states
    {
      Matches(keys, number[r], states[r], contents[r], Column(r))
    }

    ghost predicate Valid()
      reads `number, `contents, tags, states
    {
      && line > 0 && rows > 0 && ways > 0 && IsFsm(ways, keys, fsm)
      && tags.Length0 == ways && tags.Length1 == rows
      && states.Length == rows && |number| == rows && |contents| == rows
      && (forall r :: 0 <= r < rows ==> |contents[r]| == ways)
      && (forall r :: 0 <= r < rows ==> RowOk(r))
    }

    ghost function View(): (c: Spec.Cache)
      requires Valid()
      reads this, tags, states
      ensures c.Ok() && |c.rows| == rows
    {
      Spec.Cache(contents, refs, misses, updates, evictions)
    }

    constructor (fsm: seq<Entry>, ghost keys: seq<Order>, ways: nat, lgLine: nat, lgRows: nat, writeable: bool)
      requires ways > 0 && IsFsm(ways, keys, fsm)
      ensures Valid() && fresh(tags) && fresh(states)
      ensures this.ways == ways && line == Pow2(lgLine) && rows == Pow2(lgRows) && this.writeable == writeable
      ensures View() == Spec.Fresh(ways, rows)
    {
      hide IsFsm;
      this.fsm, this.keys, this.ways, this.writeable := fsm, keys, ways, writeable;
      line, rows := Pow2(lgLine), Pow2(lgRows);
      tags := new Spec.Tag[ways, Pow2(lgRows)]((_, _) => Spec.Tag(0, false));
      states := new int[Pow2(lgRows)](_ => 0);
      evicted := 0;
      refs, misses, updates, evictions := 0, 0, 0, 0;
      number := seq(Pow2(lgRows), _ => 0);
      contents := Spec.Fresh(ways, Pow2(lgRows)).rows;
      FirstOrder(ways, keys, fsm);
    }

    /** Empty every way and return every row to state 0; the counters stay. */
    method Flush()
      requires Valid()
      modifies `number, `contents, tags, states
      ensures Valid()
      ensures View() == old(View()).(rows := Spec.Fresh(ways, rows).rows)
    {
      hide IsFsm;
      forall w, r | 0 <= w < ways && 0 <= r < rows { tags[w, r] := Spec.Tag(0, false); }
      forall r | 0 <= r < rows { states[r] := 0; }
      number := seq(rows, _ => 0);
      contents := Spec.Fresh(ways, rows).rows;
      FirstOrder(ways, keys, fsm);
    }

    /** Walk row `index` in recency order until `want` is found or the ways are
        exhausted; p ends at the last table slot read, after i + 1 steps. */
    method Search(index: nat, want: int) returns (p: int, way: nat, hit: bool, ghost i: nat)
      requires Valid() && index < rows
      ensures i < ways && p == states[index] + i + 1 && 0 <= p < |fsm|
      ensures number[index] < |keys| && |keys[number[index]]| == ways && |contents[index]| == ways
      ensures fsm[p].way == way == keys[number[index]][i]
      ensures forall j :: 0 <= j < i ==> contents[index][j].addr != want
      ensures hit <==> contents[index][i].addr == want
      ensures !hit ==> i == ways - 1
    {
      hide IsFsm, IsOrder;
      assert RowOk(index);
      FsmAt(ways, keys, fsm, number[index], 0);
      p := states[index];
      var end := p + ways;
      i := 0;
      while true
        invariant i < ways && p == states[index] + i && end == states[index] + ways
        invariant forall j :: 0 <= j < i ==> contents[index][j].addr != want
        decreases end - p
      {
        FsmAt(ways, keys, fsm, number[index], i);
        p := p + 1;
        way := fsm[p].way;
        if tags[way, index].addr == want { return p, way, true, i; }
        if p >= end { return p, way, false, i; }
        i := i + 1;
      }
    }

    /** The tag, dirty bit, eviction cell and counters of one reference that ended
        at tags[way, index]; the tag keeps 63 bits of the line.  A miss on a dirty victim reports the line coming in,
        because the tag is overwritten before it is reported. */
    method Account(way: nat, index: nat, want: int, write: bool, hit: bool)
      requires way < tags.Length0 && index < tags.Length1
      requires hit ==> tags[way, index].addr == want
      modifies `evicted, `misses, `updates, `evictions, tags
      ensures Column(index) ==
              old(Column(index))[way := Spec.Tag(if hit then want else Spec.Cut(want), write || (hit && old(tags[way, index].dirty)))]
      ensures forall r :: 0 <= r < tags.Length1 && r != index ==> Column(r) == old(Column(r))
      ensures misses == old(misses) + if hit then 0 else 1
      ensures updates == old(updates) + if write then 1 else 0
      ensures evictions == old(evictions) + if !hit && old(tags[way, index].dirty) then 1 else 0
      ensures evicted == if hit then old(evicted)
                         else if old(tags[way, index].dirty) then Spec.Cut(want)
                         else if writeable then 0 else old(evicted)
    {
      if !hit {
        tags[way, index] := Spec.Tag(Spec.Cut(want), tags[way, index].dirty);
        misses := misses + 1;
        if tags[way, index].dirty {
          evicted := tags[way, index].addr;
          evictions := evictions + 1;
          tags[way, index] := Spec.Tag(tags[way, index].addr, false);
        } else if writeable {
          evicted := 0;
        }
        tags[way, index] := Spec.Tag(Spec.Cut(want), tags[way, index].dirty);
      }
      if write {
        tags[way, index] := Spec.Tag(tags[way, index].addr, true);
        updates := updates + 1;
      }
    }

    /** One reference: the abstract cache takes one specified step, that of
        whole line numbers where they fit (`CacheSpec.CutIsWhole`).  A miss on a clean victim reports 0 if the cache is writeable.  `ok` is false where a
        dirty line falls out of a cache that is not: the report then goes through a
        null pointer. */
    method Lookup(addr: int, write: bool) returns (ok: bool, hit: bool)
      requires Valid()
      modifies this, tags, states
      ensures ok <==> writeable || !Spec.RowEvicts(old(View()).rows[addr / line % rows], addr / line)
      ensures ok ==> Valid()
      ensures ok ==> View() == Spec.LookupCut(old(View()), addr / line, write)
      ensures ok ==> hit == Spec.RowHits(old(View()).rows[addr / line % rows], addr / line)
      ensures ok ==> evicted == if hit then old(evicted)
                                else if Spec.RowEvicts(old(View()).rows[addr / line % rows], addr / line) then Spec.Cut(addr / line)
                                else if writeable then 0 else old(evicted)
    {
      hide IsFsm, IsOrder, Matches, Spec.RowAfter, Spec.RowAfterCut, Spec.RowHits, Spec.RowEvicts, Spec.Cut;
      var want := addr / line;
      var index := want % rows;
      assert RowOk(index);
      ghost var i;
      var p, way, found;
      p, way, found, i := Search(index, want);
      ghost var next := StepRow(keys, fsm, number[index], states[index], contents[index], Column(index), want, write, i);
      refs := refs + 1;
      ok, hit := true, found;
      if !found && tags[way, index].dirty && !writeable {
        ok := false;
        return;
      }
      Account(way, index, want, write, found);
      states[index] := fsm[p].next;
      contents := contents[index := Spec.RowAfterCut(contents[index], want, write)];
      number := number[index := next];
      forall r | 0 <= r < rows ensures RowOk(r) {
        assert old(RowOk(r));
      }
    }
  }

  /** A clean cache only read stays clean, and throws out nothing dirty. */
  lemma CleanStays(c: Spec.Cache, line: int)
    requires c.Ok() && AllClean(c)
    ensures AllClean(Spec.LookupCut(c, line, false))
    ensures !Spec.RowEvicts(c.rows[line % |c.rows|], line)
  {
    hide Spec.RowHits;
    var r := line % |c.rows|;
    assert Clean(c.rows[r]);
    CleanRowStays(c.rows[r], line);
  }

  lemma CleanRowStays(row: seq<Spec.Tag>, line: int)
    requires row != [] && Clean(row)
    ensures Clean(Spec.RowAfterCut(row, line, false))
  {
  }

  /** One step of a row: the state the table gives stands for the row the
      specification gives. */
  lemma StepRow(keys: seq<Order>, fsm: seq<Entry>, number: nat, state: int, contents: seq<Spec.Tag>,
                column: seq<Spec.Tag>, want: int, write: bool, i: nat) returns (next: nat)
    requires IsFsm(|column|, keys, fsm) && Matches(keys, number, state, contents, column)
    requires i < |column| && forall j :: 0 <= j < i ==> contents[j].addr != want
    requires contents[i].addr != want ==> i == |column| - 1
    ensures 0 <= state + i + 1 < |fsm| && number < |keys| && |keys[number]| == |column| && |contents| == |column|
    ensures 0 <= keys[number][i] < |column| && contents[i] == column[keys[number][i]]
    ensures Spec.RowHits(contents, want) <==> contents[i].addr == want
    ensures Spec.RowEvicts(contents, want) <==> contents[i].addr != want && contents[i].dirty
    ensures Matches(keys, next, fsm[state + i + 1].next, Spec.RowAfterCut(contents, want, write),
                    column[keys[number][i] := Spec.Tag(if contents[i].addr == want then want else Spec.Cut(want), write || (contents[i].addr == want && contents[i].dirty))])
  {
    hide IsFsm, Spec.RowAfterCut, Spec.RowAfter, Spec.RowHits, Spec.RowEvicts, Spec.Cut, Number;
    var order := keys[number];
    FsmAt(|column|, keys, fsm, number, i);
    SearchIsSpec(contents, want, write, i);
    next := Number(keys, MoveToFront(order, i));
    ContentsMove(order, i, contents, column,
                 Spec.Tag(if contents[i].addr == want then want else Spec.Cut(want), write || (contents[i].addr == want && contents[i].dirty)));
  }

  /** What the search finds, in the words of the specification. */
  lemma SearchIsSpec(row: seq<Spec.Tag>, want: int, write: bool, i: nat)
    requires i < |row| && forall j :: 0 <= j < i ==> row[j].addr != want
    requires row[i].addr != want ==> i == |row| - 1
    ensures Spec.RowHits(row, want) <==> row[i].addr == want
    ensures Spec.RowEvicts(row, want) <==> row[i].addr != want && row[i].dirty
    ensures Spec.RowAfterCut(row, want, write) ==
            [Spec.Tag(if row[i].addr == want then want else Spec.Cut(want), write || (row[i].addr == want && row[i].dirty))]
            + row[..i] + row[i + 1..]
  {
    hide Spec.Cut;
    var lines := Spec.Lines(row);
    if row[i].addr == want {
      assert lines[i] == want;
      IndexIs(lines, want, i);
    } else {
      assert forall j :: 0 <= j < |row| ==> lines[j] != want;
    }
  }

  /** Moving way order[i] to the front moves its contents to the front. */
  lemma ContentsMove(order: Order, i: nat, before: seq<Spec.Tag>, column: seq<Spec.Tag>, tag: Spec.Tag)
    requires IsOrder(|column|, order) && |before| == |column| && i < |order|
    requires forall j :: 0 <= j < |order| ==> before[j] == column[order[j]]
    ensures IsOrder(|column|, MoveToFront(order, i))
    ensures forall j :: 0 <= j < |order| ==>
              ([tag] + before[..i] + before[i + 1..])[j] == column[order[i] := tag][MoveToFront(order, i)[j]]
  {
    MoveIsOrder(|column|, order, i);
    var m := MoveToFront(order, i);
    forall j | 0 <= j < |order|
      ensures ([tag] + before[..i] + before[i + 1..])[j] == column[order[i] := tag][m[j]]
    {
      if 0 < j <= i { assert m[j] == order[j - 1]; }
      if i < j { assert m[j] == order[j]; }
    }
  }

  lemma IsFsmLists(ways: nat, keys: seq<Order>, fsm: seq<Entry>)
    requires IsFsm(ways, keys, fsm)
    ensures Lists(keys, AllOrders(ways))
  {
  }

  /** The i-th slot the walk reads from a state names the order's i-th way. */
  predicate SlotIs(fsm: seq<Entry>, state: int, order: Order, i: nat) {
    0 <= state + i + 1 < |fsm| && i < |order| && fsm[state + i + 1].way == order[i]
  }

  /** In a valid cache every row's state is a multiple of the ways below
      ways * ways!, and the walk from it meets each way exactly once: the ways of
      the slots it reads form an order. */
  lemma StateBound(c: Cache, r: nat) returns (k: nat)
    requires c.Valid() && r < c.rows
    ensures k < Factorial(c.ways) && c.states[r] == k * c.ways
    ensures k * c.ways <= (Factorial(c.ways) - 1) * c.ways
    ensures k < |c.keys| && IsOrder(c.ways, c.keys[k])
    ensures forall i: nat :: i < c.ways ==> SlotIs(c.fsm, c.states[r], c.keys[k], i)
  {
    hide AllOrders, Flat, Factorial, Number, MoveToFront, IsFsm, Matches, IsOrder;
    k := RowOrder(c, r);
    MulMonotone(k, Factorial(c.ways) - 1, c.ways);
    forall i: nat | i < c.ways ensures SlotIs(c.fsm, c.states[r], c.keys[k], i) {
      FsmAt(c.ways, c.keys, c.fsm, k, i);
    }
  }

  /** The number of a row's order. */
  lemma RowOrder(c: Cache, r: nat) returns (k: nat)
    requires c.Valid() && r < c.rows
    ensures k < Factorial(c.ways) && c.states[r] == k * c.ways
    ensures k < |c.keys| && IsOrder(c.ways, c.keys[k]) && |c.keys[k]| == c.ways
  {
    hide AllOrders, Flat, Factorial, Number, MoveToFront, IsFsm;
    assert c.RowOk(r);
    assert Lists(c.keys, AllOrders(c.ways)) by { IsFsmLists(c.ways, c.keys, c.fsm); }
    k := c.number[r];
    ListCount(c.keys, AllOrders(c.ways));
    OrdersCount(c.ways);
  }

  /** The states fit the sixteen bits the cache and the table keep them in exactly
      up to seven ways. */
  lemma StateFitsShort(ways: nat)
    ensures (Factorial(ways) - 1) * ways < 0x1_0000 <==> ways <= 7
  {
    assert Factorial(4) == 24;
    assert Factorial(7) == 5040;
    if ways > 7 { FactorialGrows(ways); }
  }

  lemma {:induction false} FactorialGrows(n: nat)
    requires n >= 8
    ensures Factorial(n) >= 40320 && (Factorial(n) - 1) * n >= 0x1_0000
  {
    assert Factorial(4) == 24;
    assert Factorial(7) == 5040;
    if n > 8 {
      FactorialGrows(n - 1);
      MulMonotone(1, n, Factorial(n - 1));
    }
    MulMonotone(8, n, Factorial(n) - 1);
  }

  /** Build a cache: one to four ways have tables, any other number ends the
      program. */
  method Make(ways: int, lgLine: nat, lgRows: nat, writeable: bool) returns (c: Cache?)
    ensures c != null <==> 1 <= ways <= 4
    ensures c != null ==>
              && c.Valid() && fresh(c) && c.ways == ways && c.line == Pow2(lgLine) && c.rows == Pow2(lgRows)
              && c.writeable == writeable && c.View() == Spec.Fresh(ways, Pow2(lgRows))
  {
    if !(1 <= ways <= 4) { return null; }
    var g := new Generator(ways);
    g.Generate();
    var fsm, keys := g.Emit();
    c := new Cache(fsm, keys, ways, lgLine, lgRows, writeable);
  }

  lemma FirstOrder(ways: nat, keys: seq<Order>, fsm: seq<Entry>)
    requires IsFsm(ways, keys, fsm)
    ensures keys != [] && IsOrder(ways, keys[0])
  {
    var s := seq(ways, i => i);
    assert IsOrder(ways, s);
    OrdersAreAllOrders(ways, s);
    assert s in keys;
    assert keys[0] in keys;
    AllOrdersAreOrders(ways, keys[0]);
  }

  /** The table slot the walk reads at step i from state k. */
  lemma FsmAt(ways: nat, keys: seq<Order>, fsm: seq<Entry>, k: nat, i: nat)
    requires IsFsm(ways, keys, fsm) && k < |keys| && i < ways
    ensures 0 <= k * ways + i + 1 < |fsm| && IsOrder(ways, keys[k]) && |keys[k]| == ways && keys[k][i] < ways
    ensures var next := MoveToFront(keys[k], i);
            && Number(keys, next) < |keys| && keys[Number(keys, next)] == next && IsOrder(ways, next)
            && fsm[k * ways + i + 1] == Entry(keys[k][i], Number(keys, next) * ways)
  {
    hide Flat, Lists, AllOrders, Number, MoveToFront, IsOrder;
    FlatIsFsm(ways, keys, k, i);
    OrderAt(ways, keys[k], i);
    MoveIsOrder(ways, keys[k], i);
  }

  lemma OrderAt(n: nat, s: Order, i: nat)
    requires IsOrder(n, s) && i < n
    ensures |s| == n && s[i] < n
  {
  }
}
