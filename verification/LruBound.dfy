/**
  LRU is competitive: on every trace an n-way row misses at most n times as often
  as any n-slot replacement schedule, plus n.  The proof is a potential argument;
  it charges each miss to the lines the row holds and the schedule does not.
*/
module LruBound {
  import opened Common
  import opened Lru

  // ---------------------------------------------------- replacement schedules

  /** What an n-slot store holds before and after each reference: the line
      referenced is brought in, nothing else is, anything may be dropped. */
  predicate IsSchedule(n: nat, xs: seq<int>, held: seq<set<int>>) {
    && |held| == |xs| + 1
    && (forall t :: 0 <= t < |held| ==> |held[t]| <= n)
    && forall t :: 0 <= t < |xs| ==> xs[t] in held[t + 1] && held[t + 1] <= held[t] + {xs[t]}
  }

  /** References to lines the schedule did not hold. */
  function ScheduleMisses(xs: seq<int>, held: seq<set<int>>): nat
    requires |held| > |xs|
  {
    if xs == [] then 0 else
    var t := |xs| - 1;
    ScheduleMisses(xs[..t], held) + if xs[t] in held[t] then 0 else 1
  }

  // --------------------------------------------------------- resident lines

  /** The lines a row holds, without its empty slots. */
  function Resident(n: nat, xs: seq<int>): seq<int> {
    var r := Recency(xs);
    if |r| <= n then r else r[..n]
  }

  function Reference(n: nat, c: seq<int>, x: int): seq<int>
    requires n > 0
  {
    if x in c || |c| < n then [x] + Without(c, x) else [x] + c[..|c| - 1]
  }

  lemma ResidentStep(n: nat, xs: seq<int>, x: int)
    requires n > 0
    ensures Resident(n, xs + [x]) == Reference(n, Resident(n, xs), x)
    ensures Distinct(Resident(n, xs)) && |Resident(n, xs)| <= n
  {
    RecencyFacts(xs);
    assert (xs + [x])[..|xs|] == xs;
    var r := Recency(xs);
    hide IndexOf;
    var i := IndexOf(r, x);
    if |r| <= n {
      KeptAll(n, r, x, i);
    } else {
      KeptSome(n, r, x, i);
    }
  }

  /** A reference when all lines ever used are resident. */
  lemma KeptAll(n: nat, r: seq<int>, x: int, i: nat)
    requires 0 < n && |r| <= n && i == IndexOf(r, x)
    ensures var t := [x] + Without(r, x);
            (if |t| <= n then t else t[..n]) == Reference(n, r, x)
  {
    hide IndexOf;
    if i == |r| {
      assert x !in r;
      if |r| == n {
        assert ([x] + r)[..n] == [x] + r[..n - 1];
      }
    }
  }

  /** A reference when some line is not. */
  lemma KeptSome(n: nat, r: seq<int>, x: int, i: nat)
    requires 0 < n < |r| && i == IndexOf(r, x)
    ensures var t := [x] + Without(r, x);
            (if |t| <= n then t else t[..n]) == Reference(n, r[..n], x)
  {
    hide IndexOf;
    var c, w := r[..n], Without(r, x);
    if i < n {
      assert c[i] == x;
      IndexIs(c, x, i);
      CutThrough(r, n, i);
      assert ([x] + w)[..n] == [x] + w[..n - 1];
    } else {
      assert x !in c;
      assert ([x] + w)[..n] == [x] + r[..n - 1];
    }
  }

  /** Cutting one element out and then cutting to length, either way round. */
  lemma CutThrough(r: seq<int>, n: nat, i: nat)
    requires i < n < |r|
    ensures (r[..i] + r[i + 1..])[..n - 1] == r[..n][..i] + r[..n][i + 1..]
  {
  }

  lemma ResidentIsHit(n: nat, xs: seq<int>, x: int)
    requires n > 0
    ensures x in Resident(n, xs) ==> x in After(Empty(n), xs)
  {
    hide After, Recency;
    RowIsRecencyWindow(n, xs);
    var r := Recency(xs);
    if |r| < n {
      assert Window(n, r) == r + Empty(n - |r|);
    }
  }

  // -------------------------------------------------------------- potential

  /** Each resident line outside s weighs w for the most recent, one less for the
      next, and so on. */
  function Potential(c: seq<int>, s: set<int>, w: nat): nat
    requires |c| <= w
  {
    if c == [] then 0 else (if c[0] in s then 0 else w) + Potential(c[1..], s, w - 1)
  }

  lemma {:induction false} PotentialConcat(a: seq<int>, b: seq<int>, s: set<int>, w: nat)
    requires |a| + |b| <= w
    ensures Potential(a + b, s, w) == Potential(a, s, w) + Potential(b, s, w - |a|)
  {
    if a == [] {
      assert a + b == b;
    } else {
      assert (a + b)[1..] == a[1..] + b;
      PotentialConcat(a[1..], b, s, w - 1);
    }
  }

  /** How many of c lie outside s. */
  function Outside(c: seq<int>, s: set<int>): nat {
    if c == [] then 0 else (if c[0] in s then 0 else 1) + Outside(c[1..], s)
  }

  /** Sliding every line back by one place costs one unit for each outside line. */
  lemma {:induction false} PotentialSlides(c: seq<int>, s: set<int>, w: nat)
    requires |c| < w
    ensures Potential(c, s, w) == Potential(c, s, w - 1) + Outside(c, s)
  {
    if c != [] {
      PotentialSlides(c[1..], s, w - 1);
    }
  }

  /** Dropping one line from s raises the potential by at most w. */
  lemma {:induction false} PotentialDrop(c: seq<int>, s: set<int>, y: int, w: nat)
    requires |c| <= w && Distinct(c)
    ensures Potential(c, s - {y}, w) <= Potential(c, s, w) + if y in c then w else 0
  {
    if c != [] {
      assert Distinct(c[1..]);
      PotentialDrop(c[1..], s, y, w - 1);
    }
  }

  lemma {:induction false} PotentialMonotone(c: seq<int>, s: set<int>, t: set<int>, w: nat)
    requires |c| <= w && s <= t
    ensures Potential(c, t, w) <= Potential(c, s, w)
  {
    if c != [] {
      PotentialMonotone(c[1..], s, t, w - 1);
    }
  }

  lemma {:induction false} OutsidePositive(c: seq<int>, s: set<int>, k: nat)
    requires k < |c| && c[k] !in s
    ensures Outside(c, s) > 0
  {
    if k > 0 { OutsidePositive(c[1..], s, k - 1); }
  }

  /** A full row that misses on a line the store holds has an outside line. */
  lemma FullRowHasOutside(n: nat, c: seq<int>, s: set<int>, x: int)
    requires |c| == n && Distinct(c) && |s| <= n && x in s && x !in c
    ensures Outside(c, s) > 0
  {
    if forall k :: 0 <= k < |c| ==> c[k] in s {
      DistinctCount(c);
      SubsetCount(Elements(c), s - {x});
      assert false;
    } else {
      var k :| 0 <= k < |c| && c[k] !in s;
      OutsidePositive(c, s, k);
    }
  }

  lemma HasMember(s: set<int>)
    ensures s != {} ==> exists y :: y in s
  {
    if !exists y :: y in s { assert s == {}; }
  }

  lemma HitCostsNothing(n: nat, c: seq<int>, s: set<int>, x: int)
    requires |c| <= n && Distinct(c) && x in s && x in c
    ensures |[x] + Without(c, x)| == |c|
    ensures Potential([x] + Without(c, x), s, n) <= Potential(c, s, n)
  {
    hide IndexOf, Distinct, Potential;
    var i := IndexOf(c, x);
    var a, b := c[..i], c[i + 1..];
    assert Without(c, x) == a + b;
    assert c == a + ([x] + b);
    MoveUpCostsNothing(n, a, b, s, x);
  }

  lemma MoveUpCostsNothing(n: nat, a: seq<int>, b: seq<int>, s: set<int>, x: int)
    requires |a| + |b| + 1 <= n && x in s
    ensures Potential([x] + (a + b), s, n) <= Potential(a + ([x] + b), s, n)
  {
    assert ([x] + (a + b))[1..] == a + b;
    assert ([x] + b)[1..] == b;
    PotentialConcat(a, [x] + b, s, n);
    PotentialConcat(a, b, s, n - 1);
    PotentialSlides(a, s, n);
  }

  lemma FullMissIsPaid(n: nat, c: seq<int>, s: set<int>, x: int)
    requires n > 0 && |c| == n && Distinct(c) && |s| <= n && x in s && x !in c
    ensures 1 + Potential([x] + c[..n - 1], s, n) <= Potential(c, s, n)
  {
    hide Distinct;
    var a, z := c[..n - 1], c[n - 1];
    assert c == a + [z];
    assert ([x] + a)[1..] == a;
    PotentialConcat(a, [z], s, n);
    PotentialSlides(a, s, n);
    FullRowHasOutside(n, c, s, x);
    OutsideConcat(a, [z], s);
  }

  /** One reference to a line of s: a miss is paid for by the potential, or by the
      row growing. */
  lemma ReferencePays(n: nat, c: seq<int>, s: set<int>, x: int)
    requires n > 0 && |c| <= n && Distinct(c) && |s| <= n && x in s
    ensures |Reference(n, c, x)| <= n
    ensures (if x in c then 0 else 1) + Potential(Reference(n, c, x), s, n) + |c|
            <= Potential(c, s, n) + |Reference(n, c, x)|
  {
    hide IndexOf, Distinct;
    if x in c {
      HitCostsNothing(n, c, s, x);
    } else if |c| < n {
      assert Without(c, x) == c;
      assert ([x] + c)[1..] == c;
      PotentialSlides(c, s, n);
    } else {
      FullMissIsPaid(n, c, s, x);
    }
  }

  lemma {:induction false} OutsideConcat(a: seq<int>, b: seq<int>, s: set<int>)
    ensures Outside(a + b, s) == Outside(a, s) + Outside(b, s)
  {
    if a == [] {
      assert a + b == b;
    } else {
      assert (a + b)[1..] == a[1..] + b;
      OutsideConcat(a[1..], b, s);
    }
  }

  /** A store that fetches only on demand and drops only when full can shadow any
      schedule: from s, which includes what the schedule holds, one reference
      leads to a store that still does. */
  lemma LazyStep(n: nat, c: seq<int>, s: set<int>, held: set<int>, held': set<int>, x: int) returns (s': set<int>)
    requires n > 0 && |c| <= n && Distinct(c) && |s| <= n && held <= s && |held'| <= n
    requires x in held' && held' <= held + {x}
    ensures held' <= s' && x in s' && |s'| <= n
    ensures Potential(c, s', n) <= Potential(c, s, n) + if x in held then 0 else n
  {
    if x in s {
      s' := s;
    } else if |s| < n {
      s' := s + {x};
      PotentialMonotone(c, s, s', n);
    } else {
      SubsetCount(s * held', held' - {x});
      assert |s| == |s - held'| + |s * held'|;
      var spare := s - held';
      assert |spare| > 0;
      HasMember(spare);
      var y :| y in spare;
      s' := s - {y} + {x};
      PotentialDrop(c, s, y, n);
      PotentialMonotone(c, s - {y}, s', n);
    }
  }

  /** The running account: misses so far and potential, against the schedule's
      misses and the slots filled. */
  predicate Paid(n: nat, xs: seq<int>, held: seq<set<int>>, s: set<int>)
    requires n > 0 && |held| > |xs|
  {
    && held[|xs|] <= s && |s| <= n && |Resident(n, xs)| <= n
    && Misses(n, xs) + Potential(Resident(n, xs), s, n) <= n * ScheduleMisses(xs, held) + |Resident(n, xs)|
  }

  lemma PaidStep(n: nat, xs: seq<int>, x: int, held: seq<set<int>>, s: set<int>) returns (s': set<int>)
    requires n > 0 && |held| > |xs| + 1 && Paid(n, xs, held, s)
    requires |held[|xs| + 1]| <= n && x in held[|xs| + 1] && held[|xs| + 1] <= held[|xs|] + {x}
    ensures Paid(n, xs + [x], held, s')
  {
    hide Recency, IndexOf, After, Resident, Reference, Potential, Distinct;
    assert (xs + [x])[..|xs|] == xs;
    ResidentStep(n, xs, x);
    var c := Resident(n, xs);
    s' := LazyStep(n, c, s, held[|xs|], held[|xs| + 1], x);
    ReferencePays(n, c, s', x);
    ResidentIsHit(n, xs, x);
    assert n * (ScheduleMisses(xs, held) + 1) == n * ScheduleMisses(xs, held) + n;
  }

  lemma {:induction false} MissesArePaid(n: nat, xs: seq<int>, held: seq<set<int>>) returns (s: set<int>)
    requires n > 0
    requires |held| > |xs| && IsSchedule(n, xs, held[..|xs| + 1])
    ensures Paid(n, xs, held, s)
  {
    hide Paid, Resident, Misses, ScheduleMisses;
    if xs == [] {
      s := held[0];
      PaidAtFirst(n, held);
    } else {
      var init, x := xs[..|xs| - 1], xs[|xs| - 1];
      assert xs == init + [x];
      var prefix := held[..|xs| + 1];
      assert prefix[|init|] == held[|init|] && prefix[|xs|] == held[|xs|];
      var s0 := MissesArePaid(n, init, held);
      s := PaidStep(n, init, x, held, s0);
    }
  }

  lemma PaidAtFirst(n: nat, held: seq<set<int>>)
    requires n > 0 && |held| > 0 && |held[0]| <= n
    ensures Paid(n, [], held, held[0])
  {
    assert Recency([]) == [];
  }

  /** For every trace and every schedule over n slots, whatever
      the schedule holds at first, LRU misses at most n times as often plus n. */
  lemma LruIsCompetitive(n: nat, xs: seq<int>, held: seq<set<int>>)
    requires n > 0 && IsSchedule(n, xs, held)
    ensures Misses(n, xs) <= n * ScheduleMisses(xs, held) + n
  {
    hide ScheduleMisses, Misses, Potential;
    assert held[..|xs| + 1] == held;
    var s := MissesArePaid(n, xs, held);
    assert Paid(n, xs, held, s);
  }

  // ------------------------------------------------- LRU is one of the schedules

  /** What an LRU row holds along a trace. */
  function LruHeld(n: nat, xs: seq<int>): (held: seq<set<int>>)
    ensures |held| == |xs| + 1
  {
    seq(|xs| + 1, t requires 0 <= t <= |xs| => Elements(Resident(n, xs[..t])))
  }

  lemma ReferenceHolds(n: nat, c: seq<int>, x: int)
    requires n > 0
    ensures x in Elements(Reference(n, c, x)) && Elements(Reference(n, c, x)) <= Elements(c) + {x}
  {
    var r := Reference(n, c, x);
    assert r[0] == x;
    forall y | y in r ensures y in c || y == x {
      var j :| 0 <= j < |r| && r[j] == y;
    }
  }

  lemma ResidentIffHit(n: nat, xs: seq<int>, x: int)
    requires n > 0
    ensures x in Resident(n, xs) ==> x in After(Empty(n), xs)
    ensures x != 0 ==> (x in Resident(n, xs) <==> x in After(Empty(n), xs))
  {
    hide After, Recency;
    RowIsRecencyWindow(n, xs);
    var r := Recency(xs);
    if |r| < n {
      assert Window(n, r) == r + Empty(n - |r|);
    }
  }

  /** LRU is itself a schedule, with the misses the row counts; line 0 apart, which
      may find an empty slot where the schedule would have to fetch it. */
  lemma {:induction false} LruIsASchedule(n: nat, xs: seq<int>)
    requires n > 0
    ensures IsSchedule(n, xs, LruHeld(n, xs))
    ensures Misses(n, xs) <= ScheduleMisses(xs, LruHeld(n, xs))
    ensures 0 !in xs ==> Misses(n, xs) == ScheduleMisses(xs, LruHeld(n, xs))
  {
    hide Resident, Reference, After;
    var held := LruHeld(n, xs);
    forall t | 0 <= t <= |xs| ensures |held[t]| <= n {
      ResidentStep(n, xs[..t], 0);
      DistinctCount(Resident(n, xs[..t]));
    }
    forall t | 0 <= t < |xs| ensures xs[t] in held[t + 1] && held[t + 1] <= held[t] + {xs[t]} {
      assert xs[..t + 1] == xs[..t] + [xs[t]];
      ResidentStep(n, xs[..t], xs[t]);
      ReferenceHolds(n, Resident(n, xs[..t]), xs[t]);
    }
    LruMisses(n, xs, xs);
  }

  lemma {:induction false} LruMisses(n: nat, xs: seq<int>, all: seq<int>)
    requires n > 0 && xs <= all
    ensures Misses(n, xs) <= ScheduleMisses(xs, LruHeld(n, all))
    ensures 0 !in xs ==> Misses(n, xs) == ScheduleMisses(xs, LruHeld(n, all))
  {
    hide Resident, After;
    if xs != [] {
      var init, x := xs[..|xs| - 1], xs[|xs| - 1];
      assert all[..|init|] == init && x in xs;
      LruMisses(n, init, all);
      ResidentIffHit(n, init, x);
    }
  }
}
