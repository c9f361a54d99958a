/**
  What several modules use: optional values, powers of two, and sequences counted
  and summed.
*/
module Common {

  datatype Option<+T> = None | Some(value: T)

  function Pow2(n: nat): (p: nat)
    ensures p > 0
  {
    if n == 0 then 1 else 2 * Pow2(n - 1)
  }

  lemma Distribute(w: int, a: int, b: int)
    ensures w * (a + b) == w * a + w * b
  {
  }

  // --------------------------------------------------------------- remainders

  lemma Multiple(m: nat, d: int)
    ensures (d > 0 ==> m * d >= m) && (d < 0 ==> m * d <= 0 - m)
  {
  }

  /** Quotient and remainder are unique. */
  lemma RemainderIs(x: int, m: nat, q: int, r: nat)
    requires r < m && x == m * q + r
    ensures x % m == r && x / m == q
  {
    var d := x / m - q;
    assert x == m * (x / m) + x % m;
    assert m * d == r - x % m;
    Multiple(m, d);
  }

  lemma RemainderTwice(x: int, m: nat, k: nat)
    requires m > 0 && k > 0
    ensures m * k > 0 && x % (m * k) % m == x % m
  {
    Multiple(m, k);
    var q, r := x / (m * k), x % (m * k);
    assert x == m * k * q + r;
    assert r == m * (r / m) + r % m;
    assert m * k * q == m * (k * q);
    Distribute(m, k * q, r / m);
    RemainderIs(x, m, k * q + r / m, r % m);
  }

  lemma RemainderPlus(x: int, h: int, m: nat)
    requires m > 0
    ensures (x % m + h) % m == (x + h) % m
  {
    var q, r := x / m, x % m + h;
    assert x == m * q + x % m;
    assert r == m * (r / m) + r % m;
    Distribute(m, q, r / m);
    RemainderIs(x + h, m, q + r / m, r % m);
  }

  lemma ShiftedRemainder(x: int, h: int, m: nat)
    requires m > 0
    ensures ((x + h) % m - h) % m == x % m
  {
    var q, r := (x + h) / m, (x + h) % m;
    assert x + h == m * q + r;
    assert x == m * (x / m) + x % m;
    Distribute(m, x / m - q, q);
    RemainderIs(r - h, m, x / m - q, x % m);
  }

  // ------------------------------------------------------------ sets and counts

  predicate Distinct<T(==)>(s: seq<T>) {
    forall i, j :: 0 <= i < j < |s| ==> s[i] != s[j]
  }

  function Elements<T>(s: seq<T>): set<T> {
    set x | x in s
  }

  lemma {:induction false} DistinctCount<T>(s: seq<T>)
    requires Distinct(s)
    ensures |Elements(s)| == |s|
  {
    if s != [] {
      var rest := Elements(s[1..]);
      DistinctCount(s[1..]);
      assert s[0] !in rest;
      assert Elements(s) == rest + {s[0]};
    }
  }

  lemma SubsetCount<T>(a: set<T>, b: set<T>)
    requires a <= b
    ensures |a| <= |b|
    ensures |a| == |b| ==> a == b
  {
    assert b == a + (b - a);
  }

  /** The naturals below n. */
  function Below(n: nat): (s: set<nat>)
    ensures |s| == n && forall v: nat :: v in s <==> v < n
  {
    if n == 0 then {} else Below(n - 1) + {n - 1}
  }

  // --------------------------------------------------------------------- sums

  function Sum<T>(s: seq<T>, f: T -> int): int {
    if s == [] then 0 else Sum(s[..|s| - 1], f) + f(s[|s| - 1])
  }

  lemma {:induction false} SumUpdate<T>(s: seq<T>, i: nat, x: T, f: T -> int)
    requires i < |s|
    ensures Sum(s[i := x], f) == Sum(s, f) - f(s[i]) + f(x)
  {
    var n := |s| - 1;
    if i == n {
      assert s[i := x][..n] == s[..n];
    } else {
      assert s[i := x][..n] == s[..n][i := x];
      SumUpdate(s[..n], i, x, f);
    }
  }
}
