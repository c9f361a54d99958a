/**
  The generator of the replacement tables: a depth-first search over recency
  orders, and the flat array it is written out as.
*/
module FsmTable {
  import opened Common
  import opened Orders
  import opened OrderNames

  datatype Next = Unset | To(order: Order)

  type Table = map<Order, seq<Next>>

  /** One entry of the emitted array. */
  datatype Entry = Entry(way: nat, next: int)

  predicate Complete(n: nat, table: Table, key: Order)
    requires key in table
  {
    && |key| == n && |table[key]| == n
    && forall i :: 0 <= i < n ==> table[key][i] == To(MoveToFront(key, i)) && MoveToFront(key, i) in table
  }

  /** Every key is an order with n slots, and complete unless it is still being
      explored. */
  predicate Explored(n: nat, table: Table, open: set<Order>) {
    forall key :: key in table ==>
      && IsOrder(n, key) && |table[key]| == n
      && (key in open || Complete(n, table, key))
  }

  predicate Grows(before: Table, after: Table, except: Order) {
    && before.Keys <= after.Keys
    && forall key :: key in before && key != except ==> after[key] == before[key]
  }

  lemma GrowsByFilling(before: Table, table: Table, state: Order, entries: seq<Next>)
    requires Grows(before, table, state)
    ensures Grows(before, table[state := entries], state)
  {
  }

  lemma GrowsByEntering(before: Table, table: Table, after: Table, state: Order, next: Order)
    requires Grows(before, table, state) && Grows(table, after, next) && next !in table
    ensures Grows(before, after, state)
    ensures forall key :: key in table ==> key in after && after[key] == table[key]
  {
  }

  /** Entering an unexplored order leaves everything else explored. */
  lemma EnterStep(n: nat, table: Table, open: set<Order>, next: Order)
    requires Explored(n, table, open) && IsOrder(n, next) && next !in table
    ensures Explored(n, table[next := seq(n, _ => Unset)], open + {next})
  {
    var table' := table[next := seq(n, _ => Unset)];
    forall key | key in table'
      ensures IsOrder(n, key) && |table'[key]| == n && (key in open + {next} || Complete(n, table', key))
    {
      if key != next && key !in open { assert Complete(n, table, key); }
    }
  }

  /** Filling one entry of an open order leaves everything else explored. */
  lemma FillStep(n: nat, table: Table, open: set<Order>, state: Order, i: nat, next: Order)
    requires Explored(n, table, open) && state in table && state in open && i < n
    ensures Explored(n, table[state := table[state][i := To(next)]], open)
  {
    var table' := table[state := table[state][i := To(next)]];
    forall key | key in table'
      ensures IsOrder(n, key) && |table'[key]| == n && (key in open || Complete(n, table', key))
    {
      if key !in open { assert Complete(n, table, key); }
    }
  }

  /** An open order with all its entries filled may be closed. */
  lemma CloseStep(n: nat, table: Table, open: set<Order>, state: Order)
    requires Explored(n, table, open + {state}) && state in table && Complete(n, table, state)
    ensures Explored(n, table, open)
  {
  }

  lemma KeyCount(before: Table, after: Table)
    requires before.Keys <= after.Keys
    ensures |before| <= |after|
  {
    SubsetCount(before.Keys, after.Keys);
  }

  lemma KeysAreFew(n: nat, table: Table, open: set<Order>)
    requires Explored(n, table, open)
    ensures |table| <= |AllOrders(n)|
  {
    forall key | key in table.Keys ensures key in AllOrders(n) {
      OrdersAreAllOrders(n, key);
    }
    SubsetCount(table.Keys, AllOrders(n));
  }

  class Generator {
    const n: nat
    var table: Table

    constructor (n: nat)
      ensures this.n == n && table == map[]
    {
      this.n := n;
      table := map[];
    }

    /** Explore everything reachable from `state`; `open` are the orders whose own
        exploration is under way.  The measure is the number of orders not yet in
        the table. */
    method Explore(state: Order, ghost open: set<Order>)
      requires state in table && state !in open && open <= table.Keys
      requires Explored(n, table, open + {state})
      modifies this
      ensures Explored(n, table, open)
      ensures Grows(old(table), table, state)
      decreases |AllOrders(n)| - |table|, 1
    {
      hide Explored, Complete, IsOrder, AllOrders, MoveToFront;
      assert Grows(table, table, state);
      assert |state| == n && |table[state]| == n by { OpenOrder(n, table, open + {state}, state); }
      var i := 0;
      while i < n
        invariant 0 <= i <= n
        invariant state in table && |table[state]| == n && Explored(n, table, open + {state})
        invariant Grows(old(table), table, state)
        invariant forall j :: 0 <= j < i ==>
          table[state][j] == To(MoveToFront(state, j)) && MoveToFront(state, j) in table
      {
        OpenOrder(n, table, open + {state}, state);
        var next := MoveToFront(state, i);
        MoveIsOrder(n, state, i);
        if next !in table {
          KeyCount(old(table), table);
          KeysAreFew(n, table, open + {state});
          ghost var before := table;
          Enter(next, open + {state});
          GrowsByEntering(old(table), before, table, state, next);
        }
        FillStep(n, table, open + {state}, state, i, next);
        GrowsByFilling(old(table), table, state, table[state][i := To(next)]);
        table := table[state := table[state][i := To(next)]];
        i := i + 1;
      }
      OpenOrder(n, table, open + {state}, state);
      assert Complete(n, table, state) by { Filled(n, table, state); }
      CloseStep(n, table, open, state);
    }

    /** Explore an order that is not in the table yet. */
    method Enter(next: Order, ghost open: set<Order>)
      requires next !in table && IsOrder(n, next) && open <= table.Keys
      requires Explored(n, table, open)
      modifies this
      ensures Explored(n, table, open)
      ensures Grows(old(table), table, next) && next in table
      decreases |AllOrders(n)| - |table|, 0
    {
      hide Explored, Complete, IsOrder, AllOrders;
      EnterStep(n, table, open, next);
      table := table[next := seq(n, _ => Unset)];
      KeysAreFew(n, table, open + {next});
      Explore(next, open);
    }

    /** The finished table: exactly the n! orders, no entry unset, each the
        move-to-front of its order. */
    method Generate()
      modifies this
      ensures table.Keys == AllOrders(n) && |table| == Factorial(n)
      ensures forall key :: key in table ==> Complete(n, table, key)
    {
      var initial := seq(n, i requires 0 <= i < n => n - 1 - i);
      table := map[initial := seq(n, _ => Unset)];
      Explore(initial, {});
      AllReached(n, table, initial);
      OrdersCount(n);
    }

    /** Write the table out flat: a header, then one block of n entries for each
        order, sorted by name, with every next state already multiplied by n. */
    method Emit() returns (fsm: seq<Entry>, keys: seq<Order>)
      requires forall key :: key in table ==> Complete(n, table, key)
      ensures Lists(keys, table.Keys) && Sorted(keys) && fsm == Flat(n, keys)
    {
      hide Complete, Block, Lists, Sorted, Blocks, MoveToFront, Number;
      keys := Sort(table.Keys);
      var number: map<Order, nat> := map[];
      var k := 0;
      while k < |keys|
        invariant 0 <= k <= |keys|
        invariant Numbers(keys, k, number)
      {
        NumberStep(keys, table.Keys, k, number);
        number := number[keys[k] := k];
        k := k + 1;
      }
      ListCount(keys, table.Keys);
      fsm := [Entry(n, |table|)];
      k := 0;
      FirstBlock(n, keys);
      while k < |keys|
        invariant 0 <= k <= |keys|
        invariant fsm == [Entry(n, |keys|)] + Blocks(n, keys, k)
      {
        var key := keys[k];
        KeyListed(keys, table.Keys, k);
        var i := 0;
        while i < n
          invariant 0 <= i <= n
          invariant fsm == [Entry(n, |keys|)] + Blocks(n, keys, k) + Block(n, keys, key)[..i]
        {
          BlockStep(n, table, keys, key, i, number);
          fsm := fsm + [Entry(key[i], number[table[key][i].order] * n)];
          i := i + 1;
        }
        NextBlock(n, keys, k);
        k := k + 1;
      }
    }
  }

  // -------------------------------------------------------- the flat array

  /** The state number of an order: its place in the sequence. */
  function Number(keys: seq<Order>, o: Order): (k: nat)
    ensures k <= |keys| && (k < |keys| ==> keys[k] == o) && (o in keys ==> k < |keys|)
  {
    if keys == [] || keys[0] == o then 0 else 1 + Number(keys[1..], o)
  }

  function Block(n: nat, keys: seq<Order>, o: Order): (b: seq<Entry>)
    ensures |b| == n
  {
    seq(n, i requires 0 <= i < n =>
      if i < |o| then Entry(o[i], Number(keys, MoveToFront(o, i)) * n) else Entry(0, 0))
  }

  function Blocks(n: nat, keys: seq<Order>, k: nat): seq<Entry>
    requires k <= |keys|
  {
    if k == 0 then [] else Blocks(n, keys, k - 1) + Block(n, keys, keys[k - 1])
  }

  function Flat(n: nat, keys: seq<Order>): seq<Entry> {
    [Entry(n, |keys|)] + Blocks(n, keys, |keys|)
  }

  lemma NumberIs(keys: seq<Order>, o: Order, k: nat)
    requires k < |keys| && keys[k] == o
    requires forall i, j :: 0 <= i < j < |keys| ==> keys[i] != keys[j]
    ensures Number(keys, o) == k
  {
  }

  /** `number` maps each of the first k orders to its place. */
  predicate Numbers(keys: seq<Order>, k: nat, number: map<Order, nat>) {
    k <= |keys| && forall j :: 0 <= j < k ==> keys[j] in number && number[keys[j]] == j
  }

  lemma NumberStep(keys: seq<Order>, s: set<Order>, k: nat, number: map<Order, nat>)
    requires Lists(keys, s) && k < |keys| && Numbers(keys, k, number)
    ensures Numbers(keys, k + 1, number[keys[k] := k])
  {
  }

  lemma KeyListed(keys: seq<Order>, s: set<Order>, k: nat)
    requires Lists(keys, s) && k < |keys|
    ensures keys[k] in s
  {
  }

  lemma FirstBlock(n: nat, keys: seq<Order>)
    ensures Blocks(n, keys, 0) == []
  {
  }

  lemma NextBlock(n: nat, keys: seq<Order>, k: nat)
    requires k < |keys|
    ensures Blocks(n, keys, k + 1) == Blocks(n, keys, k) + Block(n, keys, keys[k])[..n]
  {
  }

  lemma BlockStep(n: nat, table: Table, keys: seq<Order>, key: Order, i: nat, number: map<Order, nat>)
    requires Lists(keys, table.Keys) && key in table && Complete(n, table, key) && i < n
    requires Numbers(keys, |keys|, number)
    ensures |key| == n && |table[key]| == n && table[key][i].To? && table[key][i].order in number
    ensures Block(n, keys, key)[..i + 1] ==
            Block(n, keys, key)[..i] + [Entry(key[i], number[table[key][i].order] * n)]
  {
    var next := MoveToFront(key, i);
    assert next in keys;
    NumberIs(keys, next, Number(keys, next));
  }

  lemma {:induction false} ListCount(keys: seq<Order>, s: set<Order>)
    requires Lists(keys, s)
    ensures |s| == |keys|
  {
    if keys == [] {
      assert s == {};
    } else {
      var s' := s - {keys[0]};
      forall o ensures o in s' <==> o in keys[1..] { }
      ListCount(keys[1..], s');
    }
  }

  /** Entry i of state k sits at slot 1 + k*n + i. */
  lemma {:induction false} FlatSlot(n: nat, keys: seq<Order>, k: nat, i: nat, m: nat)
    requires k < m <= |keys| && i < n
    ensures |Blocks(n, keys, m)| == m * n
    ensures 0 <= k * n + i < m * n
    ensures Blocks(n, keys, m)[k * n + i] == Block(n, keys, keys[k])[i]
  {
    BlocksLength(n, keys, m);
    BlocksLength(n, keys, m - 1);
    assert m * n == (m - 1) * n + n;
    if k < m - 1 {
      FlatSlot(n, keys, k, i, m - 1);
    }
  }

  lemma {:induction false} BlocksLength(n: nat, keys: seq<Order>, m: nat)
    requires m <= |keys|
    ensures |Blocks(n, keys, m)| == m * n
  {
    if m > 0 {
      BlocksLength(n, keys, m - 1);
      assert m * n == (m - 1) * n + n;
    }
  }

  /** Reading the array: from state k the walk over slots k*n+1 .. k*n+n meets
      way i of order k at step i, with the state of that way moved to the front
      beside it, multiplied by n and below n * |keys|. */
  lemma FlatIsFsm(n: nat, keys: seq<Order>, k: nat, i: nat)
    requires k < |keys| && i < n && Lists(keys, AllOrders(n))
    ensures |Flat(n, keys)| == 1 + |keys| * n && 0 <= k * n && k * n + i + 1 < |Flat(n, keys)|
    ensures IsOrder(n, keys[k]) && Flat(n, keys)[0] == Entry(n, Factorial(n))
    ensures var next := MoveToFront(keys[k], i);
            && Number(keys, next) < |keys| && keys[Number(keys, next)] == next
            && Flat(n, keys)[k * n + i + 1] == Entry(keys[k][i], Number(keys, next) * n)
  {
    hide Blocks, MoveToFront, IsOrder, AllOrders, Number;
    NextIsListed(n, keys, k, i);
    ListCount(keys, AllOrders(n));
    OrdersCount(n);
    FlatSlot(n, keys, k, i, |keys|);
    MulMonotone(0, k, n);
  }

  lemma NextIsListed(n: nat, keys: seq<Order>, k: nat, i: nat)
    requires k < |keys| && i < n && Lists(keys, AllOrders(n))
    ensures IsOrder(n, keys[k]) && |keys[k]| == n
    ensures MoveToFront(keys[k], i) in keys
  {
    hide AllOrders;
    assert keys[k] in keys;
    AllOrdersAreOrders(n, keys[k]);
    MoveIsOrder(n, keys[k], i);
    OrdersAreAllOrders(n, MoveToFront(keys[k], i));
  }

  lemma MulMonotone(a: nat, b: nat, n: nat)
    requires a <= b
    ensures a * n <= b * n
  {
  }

  // -------------------------------------------------- facts for the search

  lemma OpenOrder(n: nat, table: Table, open: set<Order>, key: Order)
    requires Explored(n, table, open) && key in table
    ensures IsOrder(n, key) && |key| == n && |table[key]| == n
  {
  }

  lemma Filled(n: nat, table: Table, key: Order)
    requires key in table && |key| == n && |table[key]| == n
    requires forall i :: 0 <= i < n ==> table[key][i] == To(MoveToFront(key, i)) && MoveToFront(key, i) in table
    ensures Complete(n, table, key)
  {
  }

  lemma AllReached(n: nat, table: Table, initial: Order)
    requires Explored(n, table, {}) && initial in table
    ensures table.Keys == AllOrders(n)
    ensures forall key :: key in table ==> Complete(n, table, key)
  {
    forall p, i | p in table.Keys && 0 <= i < n
      ensures |p| == n && MoveToFront(p, i) in table.Keys
    {
      assert Complete(n, table, p);
    }
    ClosedIsAll(n, table.Keys, initial);
  }
}
