/**
  Recency orders of n ways: the permutations of 0..n-1, how many there are, and
  the fact that moving ways to the front reaches all of them from any one.
*/
module Orders {
  import opened Common

  type Order = seq<nat>

  predicate IsOrder(n: nat, s: Order) {
    && |s| == n
    && (forall i :: 0 <= i < n ==> s[i] < n)
    && forall i, j :: 0 <= i < j < n ==> s[i] != s[j]
  }

  /** The order after way s[hit] is used. */
  function MoveToFront(s: Order, hit: nat): Order
    requires hit < |s|
  {
    [s[hit]] + s[..hit] + s[hit + 1..]
  }

  function Factorial(n: nat): (f: nat)
    ensures f > 0
  {
    if n == 0 then 1 else n * Factorial(n - 1)
  }

  /** All orders of n ways, built by inserting the last way everywhere. */
  function AllOrders(n: nat): set<Order> {
    if n == 0 then {[]} else Layers(AllOrders(n - 1), n, n - 1)
  }

  /** v inserted at position i of every member of ps. */
  function Layer(ps: set<Order>, i: nat, v: nat): set<Order> {
    set p | p in ps && i <= |p| :: Insert(p, i, v)
  }

  /** v inserted at every position below k. */
  function Layers(ps: set<Order>, k: nat, v: nat): set<Order> {
    if k == 0 then {} else Layers(ps, k - 1, v) + Layer(ps, k - 1, v)
  }

  function Insert(p: Order, i: nat, v: nat): Order
    requires i <= |p|
  {
    p[..i] + [v] + p[i..]
  }

  // ------------------------------------------------------ membership

  lemma MoveIsOrder(n: nat, s: Order, hit: nat)
    requires IsOrder(n, s) && hit < n
    ensures IsOrder(n, MoveToFront(s, hit))
  {
  }

  /** Every way occurs in an order. */
  lemma OrderHasWay(n: nat, s: Order, v: nat)
    requires IsOrder(n, s) && v < n
    ensures v in s
  {
    DistinctCount(s);
    SubsetCount(Elements(s), Below(n));
    assert v in Elements(s);
  }

  lemma {:induction false} InLayers(ps: set<Order>, k: nat, v: nat, p: Order, i: nat)
    requires p in ps && i < k && i <= |p|
    ensures Insert(p, i, v) in Layers(ps, k, v)
  {
    if i < k - 1 { InLayers(ps, k - 1, v, p, i); }
  }

  lemma {:induction false} FromLayers(ps: set<Order>, k: nat, v: nat, s: Order) returns (p: Order, i: nat)
    requires s in Layers(ps, k, v)
    ensures p in ps && i < k && i <= |p| && s == Insert(p, i, v)
  {
    if s in Layers(ps, k - 1, v) {
      p, i := FromLayers(ps, k - 1, v, s);
    } else {
      i := k - 1;
      p :| p in ps && i <= |p| && s == Insert(p, i, v);
    }
  }

  lemma FromAllOrders(n: nat, s: Order)
    requires s in AllOrders(n)
    ensures if n == 0 then s == [] else s in Layers(AllOrders(n - 1), n, n - 1)
  {
  }

  lemma {:induction false} AllOrdersAreOrders(n: nat, s: Order)
    requires s in AllOrders(n)
    ensures IsOrder(n, s)
  {
    hide AllOrders, Layers, Insert;
    FromAllOrders(n, s);
    if n > 0 {
      var p, i := FromLayers(AllOrders(n - 1), n, n - 1, s);
      AllOrdersAreOrders(n - 1, p);
      InsertIsOrder(n - 1, p, i);
    }
  }

  /** Inserting the next way anywhere makes an order of one more. */
  lemma InsertIsOrder(n: nat, p: Order, i: nat)
    requires IsOrder(n, p) && i <= |p|
    ensures IsOrder(n + 1, Insert(p, i, n))
  {
  }

  lemma {:induction false} OrdersAreAllOrders(n: nat, s: Order)
    requires IsOrder(n, s)
    ensures s in AllOrders(n)
  {
    if n > 0 {
      OrderHasWay(n, s, n - 1);
      var i :| 0 <= i < |s| && s[i] == n - 1;
      var p := RemoveLastWay(n, s, i);
      OrdersAreAllOrders(n - 1, p);
      InLayers(AllOrders(n - 1), n, n - 1, p, i);
    }
  }

  lemma RemoveLastWay(n: nat, s: Order, i: nat) returns (p: Order)
    requires IsOrder(n, s) && i < n && s[i] == n - 1
    ensures IsOrder(n - 1, p) && i <= |p| && s == Insert(p, i, n - 1)
  {
    p := s[..i] + s[i + 1..];
    forall j | 0 <= j < n - 1 ensures p[j] < n - 1 {
      assert p[j] == s[if j < i then j else j + 1];
    }
  }

  // ------------------------------------------------------ counting

  lemma InsertInjective(p: Order, i: nat, q: Order, j: nat, v: nat)
    requires i <= |p| && j <= |q| && v !in p && v !in q && Insert(p, i, v) == Insert(q, j, v)
    ensures i == j && p == q
  {
    assert Insert(p, i, v)[i] == v && Insert(q, j, v)[j] == v;
    var s := Insert(p, i, v);
    assert i == j;
    assert p == s[..i] + s[i + 1..];
    assert q == s[..j] + s[j + 1..];
  }

  lemma {:induction false} LayerCount(ps: set<Order>, i: nat, v: nat)
    requires forall p :: p in ps ==> i <= |p| && v !in p
    ensures |Layer(ps, i, v)| == |ps|
    decreases |ps|
  {
    if ps == {} {
      assert Layer(ps, i, v) == {};
    } else {
      HasOrder(ps);
      var q :| q in ps;
      LayerCount(ps - {q}, i, v);
      forall p | p in ps - {q} ensures Insert(p, i, v) != Insert(q, i, v) {
        if Insert(p, i, v) == Insert(q, i, v) { InsertInjective(p, i, q, i, v); }
      }
      assert Layer(ps, i, v) == Layer(ps - {q}, i, v) + {Insert(q, i, v)};
    }
  }

  lemma HasOrder(s: set<Order>)
    ensures s != {} ==> exists p :: p in s
  {
    if !exists p :: p in s { assert s == {}; }
  }

  lemma LayersApart(ps: set<Order>, k: nat, v: nat, s: Order)
    requires s in Layers(ps, k, v) && forall p :: p in ps ==> v !in p
    ensures s !in Layer(ps, k, v)
  {
    hide Layers;
    var p, i := FromLayers(ps, k, v, s);
    assert s[i] == v;
    if s in Layer(ps, k, v) {
      var q :| q in ps && k <= |q| && s == Insert(q, k, v);
      InsertInjective(p, i, q, k, v);
    }
  }

  /** Every member has k places to insert v, and lacks it. */
  ghost predicate Room(ps: set<Order>, k: nat, v: nat) {
    forall p :: p in ps ==> k <= |p| + 1 && v !in p
  }

  lemma RoomBelow(ps: set<Order>, k: nat, v: nat)
    requires k > 0 && Room(ps, k, v)
    ensures Room(ps, k - 1, v) && forall p :: p in ps ==> k - 1 <= |p| && v !in p
  {
  }

  lemma LayersDisjoint(ps: set<Order>, k: nat, v: nat)
    requires forall p :: p in ps ==> v !in p
    ensures forall s :: s in Layers(ps, k, v) ==> s !in Layer(ps, k, v)
  {
    hide Layers, Layer;
    forall s | s in Layers(ps, k, v) ensures s !in Layer(ps, k, v) {
      LayersApart(ps, k, v, s);
    }
  }

  /** Multiplication, kept under a name. */
  function Times(a: nat, b: nat): nat {
    a * b
  }

  lemma TimesStep(k: nat, m: nat)
    requires k > 0
    ensures Times(k, m) == Times(k - 1, m) + m
  {
    assert k * m == (k - 1) * m + m;
  }

  lemma LayersStep(ps: set<Order>, k: nat, v: nat)
    ensures if k == 0 then Layers(ps, k, v) == {} && Times(k, |ps|) == 0
            else Layers(ps, k, v) == Layers(ps, k - 1, v) + Layer(ps, k - 1, v)
  {
  }

  lemma {:induction false} LayersCount(ps: set<Order>, k: nat, v: nat)
    requires Room(ps, k, v)
    ensures |Layers(ps, k, v)| == Times(k, |ps|)
  {
    hide Layer, Layers, Insert, Times, Room;
    LayersStep(ps, k, v);
    if k > 0 {
      RoomBelow(ps, k, v);
      var a, b := Layers(ps, k - 1, v), Layer(ps, k - 1, v);
      LayersCount(ps, k - 1, v);
      LayerCount(ps, k - 1, v);
      LayersDisjoint(ps, k - 1, v);
      DisjointCount(a, b);
      TimesStep(k, |ps|);
    }
  }

  lemma DisjointCount(a: set<Order>, b: set<Order>)
    requires forall s :: s in a ==> s !in b
    ensures |a + b| == |a| + |b|
  {
    assert a !! b;
  }

  lemma OrderLacksNext(n: nat, p: Order)
    requires IsOrder(n, p)
    ensures |p| == n && n !in p
  {
  }

  lemma OrdersRoom(n: nat)
    requires n > 0
    ensures Room(AllOrders(n - 1), n, n - 1)
  {
    hide IsOrder, AllOrders;
    forall p | p in AllOrders(n - 1) ensures n <= |p| + 1 && n - 1 !in p {
      AllOrdersAreOrders(n - 1, p);
      OrderLacksNext(n - 1, p);
    }
  }

  /** There are n! orders. */
  lemma {:induction false} OrdersCount(n: nat)
    ensures |AllOrders(n)| == Factorial(n)
  {
    hide Room, AllOrders, Layers, Factorial, Times;
    OneMoreWay(n);
    if n > 0 {
      OrdersCount(n - 1);
      OrdersRoom(n);
      LayersCount(AllOrders(n - 1), n, n - 1);
    }
  }

  lemma OneMoreWay(n: nat)
    ensures if n == 0 then |AllOrders(n)| == 1 && Factorial(n) == 1
            else AllOrders(n) == Layers(AllOrders(n - 1), n, n - 1) && Factorial(n) == Times(n, Factorial(n - 1))
  {
  }

  // ------------------------------------------------------ reachability

  /** Every move from a member of s stays in s. */
  ghost predicate ClosedUnderMoves(n: nat, s: set<Order>) {
    forall p, i :: p in s && 0 <= i < n ==> |p| == n && MoveToFront(p, i) in s
  }

  /** From any member of a closed set, moving the last k ways of t to the front,
      last first, gives a member that begins with them. */
  lemma {:induction false} MovesReach(n: nat, s: set<Order>, start: Order, t: Order, k: nat) returns (p: Order)
    requires ClosedUnderMoves(n, s) && start in s && k <= n && IsOrder(n, t)
    requires forall q :: q in s ==> IsOrder(n, q)
    ensures p in s && |p| == n && p[..k] == t[n - k..]
  {
    if k == 0 {
      p := start;
    } else {
      var q := MovesReach(n, s, start, t, k - 1);
      var v := t[n - k];
      OrderHasWay(n, q, v);
      var i :| 0 <= i < n && q[i] == v;
      p := MoveToFront(q, i);
      MoveExtends(n, q, i, t, k);
    }
  }

  lemma MoveExtends(n: nat, q: Order, i: nat, t: Order, k: nat)
    requires IsOrder(n, q) && IsOrder(n, t) && 0 < k <= n && i < n
    requires q[..k - 1] == t[n - k + 1..] && q[i] == t[n - k]
    ensures MoveToFront(q, i)[..k] == t[n - k..] && |MoveToFront(q, i)| == n
  {
    assert forall j :: 0 <= j < k - 1 ==> q[j] == q[..k - 1][j] == t[n - k + 1 + j];
    assert MoveToFront(q, i)[..k] == [q[i]] + q[..k - 1];
    assert t[n - k..] == [t[n - k]] + t[n - k + 1..];
  }

  /** A set of orders closed under moves that has one order has them all. */
  lemma ClosedIsAll(n: nat, s: set<Order>, start: Order)
    requires ClosedUnderMoves(n, s) && start in s
    requires forall q :: q in s ==> IsOrder(n, q)
    ensures s == AllOrders(n)
  {
    forall t ensures t in s <==> t in AllOrders(n) {
      if t in s { OrdersAreAllOrders(n, t); }
      if t in AllOrders(n) {
        AllOrdersAreOrders(n, t);
        var p := MovesReach(n, s, start, t, n);
        assert p == t;
      }
    }
  }
}
