/**
  The names the generator keys its table by: the ways of an order in decimal,
  joined by dashes.  Names identify orders, and sorting by name puts a set of
  orders into exactly one sequence.
*/
module OrderNames {
  import opened Orders

  function Digit(d: nat): (c: char)
    requires d < 10
    ensures c as int == '0' as int + d
  {
    ('0' as int + d) as char
  }

  function Decimal(n: nat): (s: string)
    ensures s != [] && '-' !in s
  {
    (if n < 10 then [] else Decimal(n / 10)) + [Digit(n % 10)]
  }

  function Name(o: Order): string {
    if o == [] then "" else if |o| == 1 then Decimal(o[0]) else Decimal(o[0]) + ("-" + Name(o[1..]))
  }

  lemma {:induction false} DecimalIsUnique(a: nat, b: nat)
    requires Decimal(a) == Decimal(b)
    ensures a == b
  {
    var s, t := Decimal(a), Decimal(b);
    var k := |s| - 1;
    assert s[k] == Digit(a % 10) && t[k] == Digit(b % 10);
    assert s[..k] == (if a < 10 then [] else Decimal(a / 10));
    assert t[..k] == (if b < 10 then [] else Decimal(b / 10));
    if a >= 10 && b >= 10 {
      DecimalIsUnique(a / 10, b / 10);
    }
  }

  /** The number a string of digits reads as. */
  function Reads(s: string): int {
    if s == [] then 0 else 10 * Reads(s[..|s| - 1]) + (s[|s| - 1] as int - '0' as int)
  }

  lemma {:induction false} DecimalReads(n: nat)
    ensures Reads(Decimal(n)) == n
    ensures n > 0 ==> Decimal(n)[0] != '0'
  {
    var s := Decimal(n);
    assert s[..|s| - 1] == if n < 10 then [] else Decimal(n / 10);
    if n >= 10 { DecimalReads(n / 10); }
  }

  /** What comes before the first dash. */
  lemma FirstField(a: string, x: string, b: string, y: string)
    requires '-' !in a && '-' !in b && a + x == b + y
    requires (x == [] || x[0] == '-') && (y == [] || y[0] == '-')
    ensures a == b && x == y
  {
    var s, t := a + x, b + y;
    assert forall k :: 0 <= k < |a| ==> s[k] == a[k];
    assert forall k :: 0 <= k < |b| ==> t[k] == b[k];
    assert |s| > |a| ==> s[|a|] == x[0];
    assert |t| > |b| ==> t[|b|] == y[0];
    assert s[..|a|] == a && t[..|b|] == b;
    assert s[|a|..] == x && t[|b|..] == y;
  }

  /** Different orders have different names. */
  lemma {:induction false} NameIsUnique(o: Order, p: Order)
    requires Name(o) == Name(p)
    ensures o == p
  {
    hide Decimal;
    if o != [] && p != [] {
      var x, y := Tail(o), Tail(p);
      FirstField(Decimal(o[0]), x, Decimal(p[0]), y);
      DecimalIsUnique(o[0], p[0]);
      if x != [] {
        assert x[1..] == Name(o[1..]) && y[1..] == Name(p[1..]);
        NameIsUnique(o[1..], p[1..]);
      }
      assert o == [o[0]] + o[1..] && p == [p[0]] + p[1..];
    }
  }

  /** A name behind its first way. */
  function Tail(o: Order): (t: string)
    requires o != []
    ensures Name(o) == Decimal(o[0]) + t
    ensures t == [] || t[0] == '-'
  {
    if |o| == 1 then "" else "-" + Name(o[1..])
  }

  // ----------------------------------------------------------------- sorting

  predicate Less(s: string, t: string) {
    t != [] && (s == [] || s[0] < t[0] || (s[0] == t[0] && Less(s[1..], t[1..])))
  }

  /** They agree on k characters; then s ends and t does not, or s has the lower. */
  predicate LowerAt(s: string, t: string, k: nat) {
    && k <= |s| && k < |t| && s[..k] == t[..k]
    && (k < |s| ==> s[k] < t[k])
  }

  /** A string comes before another if it is a proper prefix of it, or has the lower
      character where they first differ. */
  lemma {:induction false} LessMeans(s: string, t: string)
    ensures Less(s, t) <==> exists k: nat :: LowerAt(s, t, k)
  {
    if t != [] && s != [] && s[0] == t[0] {
      hide LowerAt;
      LessMeans(s[1..], t[1..]);
      if k: nat :| LowerAt(s[1..], t[1..], k) {
        LowerLater(s, t, k + 1);
      }
      if k: nat :| LowerAt(s, t, k) {
        LowerLater(s, t, k);
      }
    } else {
      LowerNow(s, t);
    }
  }

  lemma LowerLater(s: string, t: string, k: nat)
    requires s != [] && t != [] && s[0] == t[0]
    ensures !LowerAt(s, t, 0)
    ensures k > 0 ==> (LowerAt(s, t, k) <==> LowerAt(s[1..], t[1..], k - 1))
  {
    if 0 < k <= |s| && k <= |t| {
      assert s[..k] == [s[0]] + s[1..][..k - 1] && t[..k] == [t[0]] + t[1..][..k - 1];
      if s[..k] == t[..k] {
        assert s[1..][..k - 1] == s[..k][1..] && t[1..][..k - 1] == t[..k][1..];
      }
    }
  }

  lemma LowerNow(s: string, t: string)
    requires s == [] || t == [] || s[0] != t[0]
    ensures (exists k: nat :: LowerAt(s, t, k)) <==> LowerAt(s, t, 0)
    ensures LowerAt(s, t, 0) <==> t != [] && (s == [] || s[0] < t[0])
  {
    forall k: nat | LowerAt(s, t, k) ensures k == 0 {
      assert forall i :: 0 <= i < k ==> s[i] == s[..k][i] && t[i] == t[..k][i];
    }
  }

  lemma {:induction false} LessIsTotal(s: string, t: string)
    ensures s == t || Less(s, t) || Less(t, s)
    ensures !(Less(s, t) && Less(t, s)) && !Less(s, s)
  {
    if s != [] { LessIsTotal(s[1..], s[1..]); }
    if s != [] && t != [] {
      LessIsTotal(s[1..], t[1..]);
      assert s == [s[0]] + s[1..] && t == [t[0]] + t[1..];
    }
  }

  lemma {:induction false} LessIsTransitive(s: string, t: string, u: string)
    requires Less(s, t) && Less(t, u)
    ensures Less(s, u)
  {
    if s != [] && s[0] == t[0] == u[0] {
      LessIsTransitive(s[1..], t[1..], u[1..]);
    }
  }

  predicate Before(o: Order, p: Order) {
    Less(Name(o), Name(p))
  }

  predicate Sorted(keys: seq<Order>) {
    forall i, j :: 0 <= i < j < |keys| ==> Before(keys[i], keys[j])
  }

  /** keys is s in some sequence, each member once. */
  ghost predicate Lists(keys: seq<Order>, s: set<Order>) {
    && (forall o :: o in s <==> o in keys)
    && forall i, j :: 0 <= i < j < |keys| ==> keys[i] != keys[j]
  }

  /** The orders in `rest` that no other comes before. */
  predicate Least(o: Order, rest: set<Order>) {
    o in rest && forall p | p in rest :: p == o || Before(o, p)
  }

  lemma {:induction false} LeastExists(rest: set<Order>)
    requires rest != {}
    ensures exists o :: Least(o, rest)
    decreases |rest|
  {
    HasOrder(rest);
    hide Less, Name;
    var o :| o in rest;
    var others := rest - {o};
    if others == {} {
      assert rest == {o};
      assert Least(o, rest);
    } else {
      LeastExists(others);
      var p :| Least(p, others);
      LessIsTotal(Name(o), Name(p));
      if Before(o, p) {
        forall q | q in rest ensures q == o || Before(o, q) {
          if q != o && q != p {
            assert q in others;
            LessIsTransitive(Name(o), Name(p), Name(q));
          }
        }
        assert Least(o, rest);
      } else {
        if Name(o) == Name(p) { NameIsUnique(o, p); }
        assert Least(p, rest);
      }
    }
  }

  /** Sort a set of orders by name. */
  method Sort(s: set<Order>) returns (keys: seq<Order>)
    ensures Lists(keys, s) && Sorted(keys)
  {
    hide Before;
    keys := [];
    var rest := s;
    while rest != {}
      invariant rest <= s && forall o :: o in keys <==> o in s - rest
      invariant Sorted(keys) && forall i, o :: 0 <= i < |keys| && o in rest ==> Before(keys[i], o)
      invariant forall i, j :: 0 <= i < j < |keys| ==> keys[i] != keys[j]
      decreases |rest|
    {
      LeastExists(rest);
      var o :| Least(o, rest);
      assert o !in keys;
      keys := keys + [o];
      rest := rest - {o};
    }
  }

  /** There is one sorted sequence of a set of orders, so the numbers the orders
      get, and the file written, depend on the number of ways alone. */
  lemma {:induction false} SortIsUnique(keys: seq<Order>, other: seq<Order>, s: set<Order>)
    requires Lists(keys, s) && Lists(other, s) && Sorted(keys) && Sorted(other)
    ensures keys == other
  {
    assert keys != [] ==> keys[0] in s;
    assert other != [] ==> other[0] in s;
    if keys != [] {
      SameFirst(keys, other, s);
      Behind(keys, s);
      Behind(other, s);
      SortIsUnique(keys[1..], other[1..], s - {keys[0]});
      assert keys == [keys[0]] + keys[1..] && other == [other[0]] + other[1..];
    }
  }

  lemma SameFirst(keys: seq<Order>, other: seq<Order>, s: set<Order>)
    requires Lists(keys, s) && Lists(other, s) && Sorted(keys) && Sorted(other) && keys != [] && other != []
    ensures keys[0] == other[0]
  {
    hide Less, Name;
    assert keys[0] in other && other[0] in keys by {
      assert keys[0] in s && other[0] in s by { assert keys[0] in keys && other[0] in other; }
    }
    if keys[0] != other[0] {
      assert Before(other[0], keys[0]);
      assert Before(keys[0], other[0]);
      LessIsTotal(Name(keys[0]), Name(other[0]));
    }
  }

  lemma Behind(keys: seq<Order>, s: set<Order>)
    requires Lists(keys, s) && Sorted(keys) && keys != []
    ensures Lists(keys[1..], s - {keys[0]}) && Sorted(keys[1..])
  {
    hide Before;
    var rest := keys[1..];
    forall o ensures o in s - {keys[0]} <==> o in rest {
      if o in rest { assert o in keys; }
      if o in keys && o != keys[0] {
        var i :| 0 <= i < |keys| && keys[i] == o;
        assert rest[i - 1] == o;
      }
    }
  }
}
