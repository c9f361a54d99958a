/**
  Least-recently-used replacement on one row of lines, most recent first, and
  the classic facts about it.
*/
module Lru {
  import opened Common

  /** First position of x in s, or |s|. */
  function IndexOf(s: seq<int>, x: int): (i: nat)
    ensures i <= |s| && (i < |s| ==> s[i] == x) && forall j :: 0 <= j < i ==> s[j] != x
  {
    if s == [] || s[0] == x then 0 else 1 + IndexOf(s[1..], x)
  }

  lemma IndexIs(s: seq<int>, x: int, i: nat)
    requires i < |s| && s[i] == x && forall j :: 0 <= j < i ==> s[j] != x
    ensures IndexOf(s, x) == i
  {
  }

  /** One reference to line x: move it to the front, or put it there and drop the
      last line. */
  function Touch(row: seq<int>, x: int): (r: seq<int>)
    requires row != []
    ensures |r| == |row|
  {
    var i := IndexOf(row, x);
    if i < |row| then [x] + row[..i] + row[i + 1..] else [x] + row[..|row| - 1]
  }

  /** The row after a trace of references. */
  function After(row: seq<int>, xs: seq<int>): (r: seq<int>)
    requires row != []
    ensures |r| == |row|
  {
    if xs == [] then row else Touch(After(row, xs[..|xs| - 1]), xs[|xs| - 1])
  }

  /** n empty slots: an empty slot reads as line 0. */
  function Empty(n: nat): (r: seq<int>)
    ensures |r| == n
  {
    seq(n, _ => 0)
  }

  /** Misses of an n-slot row over a trace, from empty. */
  function Misses(n: nat, xs: seq<int>): nat
    requires n > 0
  {
    if xs == [] then 0 else
    Misses(n, xs[..|xs| - 1]) + if xs[|xs| - 1] in After(Empty(n), xs[..|xs| - 1]) then 0 else 1
  }

  // ------------------------------------------------- recency, independently

  function Without(s: seq<int>, x: int): seq<int> {
    var i := IndexOf(s, x);
    if i < |s| then s[..i] + s[i + 1..] else s
  }

  /** The distinct lines of a trace, last referenced first. */
  function Recency(xs: seq<int>): seq<int> {
    if xs == [] then [] else [xs[|xs| - 1]] + Without(Recency(xs[..|xs| - 1]), xs[|xs| - 1])
  }

  /** The first n of s, padded with empty slots. */
  function Window(n: nat, s: seq<int>): (r: seq<int>)
    ensures |r| == n
  {
    if |s| >= n then s[..n] else s + Empty(n - |s|)
  }

  /** The distinct lines referenced since x last was. */
  function Since(xs: seq<int>, x: int): set<int> {
    if xs == [] || xs[|xs| - 1] == x then {} else Since(xs[..|xs| - 1], x) + {xs[|xs| - 1]}
  }

  lemma {:induction false} RecencyFacts(xs: seq<int>)
    ensures Distinct(Recency(xs))
    ensures forall x :: x in Recency(xs) <==> x in xs
  {
    hide Without, IndexOf;
    if xs != [] {
      var init, last := xs[..|xs| - 1], xs[|xs| - 1];
      RecencyFacts(init);
      WithoutFacts(Recency(init), last);
      assert xs == init + [last];
      FrontFacts(Recency(init), Without(Recency(init), last), last, init);
    }
  }

  /** Putting x in front of the rest of s. */
  lemma FrontFacts(s: seq<int>, w: seq<int>, x: int, xs: seq<int>)
    requires Distinct(w) && (forall y :: y in w <==> y in s && y != x) && (forall y :: y in s <==> y in xs)
    ensures Distinct([x] + w)
    ensures forall y :: y in [x] + w <==> y in xs + [x]
  {
    forall y ensures y in [x] + w <==> y in xs + [x] {
      assert y in [x] + w <==> y == x || y in w;
      assert y in xs + [x] <==> y in xs || y == x;
    }
    assert x !in w;
    forall i, j | 0 <= i < j < |[x] + w| ensures ([x] + w)[i] != ([x] + w)[j] {
      if i == 0 { assert w[j - 1] in w; }
    }
  }

  lemma WithoutFacts(s: seq<int>, x: int)
    requires Distinct(s)
    ensures Distinct(Without(s, x))
    ensures forall y :: y in Without(s, x) <==> y in s && y != x
  {
    var i, t := IndexOf(s, x), Without(s, x);
    if i < |s| {
      forall y ensures y in t <==> y in s && y != x {
        if y in s && y != x {
          var j :| 0 <= j < |s| && s[j] == y;
          assert t[if j < i then j else j - 1] == y;
        }
      }
    }
  }

  /** Touching a padded recency list is the padded recency list with x moved up. */
  lemma TouchWindow(n: nat, s: seq<int>, x: int)
    requires n > 0
    ensures Touch(Window(n, s), x) == Window(n, [x] + Without(s, x))
  {
    hide Window, IndexOf;
    var w, i, t := Window(n, s), IndexOf(s, x), [x] + Without(s, x);
    if i < |s| && i < n {
      WindowHit(n, s, x, i);
      IndexIs(w, x, i);
    } else if x == 0 && |s| < n {
      WindowFill(n, s);
      IndexIs(w, 0, |s|);
    } else {
      WindowMiss(n, s, x, i);
      assert IndexOf(w, x) == n;
    }
  }

  /** Line 0, not among the lines used, takes the first empty slot for itself. */
  lemma WindowFill(n: nat, s: seq<int>)
    requires |s| < n
    ensures var w := Window(n, s);
            w[|s|] == 0 && (forall j :: 0 <= j < |s| ==> w[j] == s[j])
            && [0] + w[..|s|] + w[|s| + 1..] == Window(n, [0] + s)
  {
    var w := Window(n, s);
    assert w[..|s|] == s && w[|s| + 1..] == Empty(n - |s| - 1);
  }

  lemma WindowHit(n: nat, s: seq<int>, x: int, i: nat)
    requires i < n && i < |s| && s[i] == x && forall j :: 0 <= j < i ==> s[j] != x
    ensures var w := Window(n, s);
            && w[i] == x && (forall j :: 0 <= j < i ==> w[j] != x)
            && [x] + w[..i] + w[i + 1..] == Window(n, [x] + (s[..i] + s[i + 1..]))
  {
    var w, t := Window(n, s), [x] + (s[..i] + s[i + 1..]);
    assert w[..i] == s[..i];
    assert forall j :: 0 <= j <= i ==> w[j] == s[j];
    if |s| >= n {
      assert s[..i] + s[i + 1..] == (s[..i] + s[i + 1..n]) + s[n..];
      assert t[..n] == [x] + (s[..i] + s[i + 1..n]);
      assert w[i + 1..] == s[i + 1..n];
    } else {
      assert w[i + 1..] == s[i + 1..] + Empty(n - |s|);
    }
  }

  lemma WindowMiss(n: nat, s: seq<int>, x: int, i: nat)
    requires n > 0 && (x != 0 || |s| >= n) && i <= |s| && (i < |s| ==> i >= n && s[i] == x)
    requires forall j :: 0 <= j < i ==> s[j] != x
    ensures var w, t := Window(n, s), if i < |s| then s[..i] + s[i + 1..] else s;
            x !in w && [x] + w[..n - 1] == Window(n, [x] + t)
  {
    var w, t := Window(n, s), if i < |s| then s[..i] + s[i + 1..] else s;
    if i < |s| || |s| >= n {
      assert ([x] + t)[..n] == [x] + s[..n - 1];
      assert w[..n - 1] == s[..n - 1];
    } else {
      assert w[..n - 1] == s + Empty(n - 1 - |s|);
    }
  }

  /** After any trace the row holds exactly its n most recently used distinct
      lines, in recency order, then empty slots. */
  lemma {:induction false} RowIsRecencyWindow(n: nat, xs: seq<int>)
    requires n > 0
    ensures After(Empty(n), xs) == Window(n, Recency(xs))
  {
    if xs == [] {
      assert Window(n, []) == Empty(n);
    } else {
      var init, last := xs[..|xs| - 1], xs[|xs| - 1];
      RowIsRecencyWindow(n, init);
      TouchWindow(n, Recency(init), last);
    }
  }

  /** Moving y to the front leaves x where it was if y was ahead of it, and
      pushes it back by one otherwise. */
  lemma IndexAfterMove(r: seq<int>, y: int, x: int)
    requires Distinct(r) && x in r && y != x
    ensures IndexOf([y] + Without(r, y), x) ==
            if IndexOf(r, y) < IndexOf(r, x) then IndexOf(r, x) else IndexOf(r, x) + 1
  {
    hide IndexOf;
    var i, k := IndexOf(r, y), IndexOf(r, x);
    IndexIs([y] + Without(r, y), x, if i < k then k else k + 1);
  }

  /** Moving another line to the front adds it to those ahead of x. */
  lemma AheadOf(r: seq<int>, y: int, x: int)
    requires Distinct(r) && x in r && y != x
    ensures var t := [y] + Without(r, y);
            Elements(t[..IndexOf(t, x)]) == Elements(r[..IndexOf(r, x)]) + {y}
  {
    hide IndexOf, Distinct, Elements;
    var t, i, k := [y] + Without(r, y), IndexOf(r, y), IndexOf(r, x);
    IndexAfterMove(r, y, x);
    if i < k {
      MoveUpElements(r, i, k);
      ElementHas(r[..k], i);
    } else {
      assert t[..k + 1] == [y] + r[..k];
      ElementsCons(y, r[..k]);
    }
  }

  lemma ElementHas(s: seq<int>, i: nat)
    requires i < |s|
    ensures Elements(s) + {s[i]} == Elements(s)
  {
  }

  lemma ElementsCons(y: int, s: seq<int>)
    ensures Elements([y] + s) == Elements(s) + {y}
  {
  }

  lemma MoveUpElements(r: seq<int>, i: nat, k: nat)
    requires i < k <= |r|
    ensures Elements(([r[i]] + (r[..i] + r[i + 1..]))[..k]) == Elements(r[..k])
  {
    assert ([r[i]] + (r[..i] + r[i + 1..]))[..k] == [r[i]] + r[..i] + r[i + 1..k];
    assert r[..k] == r[..i] + [r[i]] + r[i + 1..k];
  }

  /** The lines ahead of x in recency order are those referenced since. */
  lemma {:induction false} AheadIsSince(xs: seq<int>, x: int)
    requires x in xs
    ensures Elements(Recency(xs)[..IndexOf(Recency(xs), x)]) == Since(xs, x)
  {
    hide IndexOf;
    var init, last := xs[..|xs| - 1], xs[|xs| - 1];
    assert xs == init + [last];
    if last == x {
      IndexIs(Recency(xs), x, 0);
    } else {
      AheadIsSince(init, x);
      RecencyFacts(init);
      AheadOf(Recency(init), last, x);
    }
  }

  /** A line's position in recency order is the number of distinct lines
      referenced since. */
  lemma RankIsSince(xs: seq<int>, x: int)
    requires x in xs
    ensures IndexOf(Recency(xs), x) == |Since(xs, x)|
  {
    hide IndexOf, Recency, Since;
    RecencyFacts(xs);
    AheadIsSince(xs, x);
    DistinctCount(Recency(xs)[..IndexOf(Recency(xs), x)]);
  }

  /** A reference hits iff its line was referenced before and fewer than n distinct
      other lines were referenced since; or it is to line 0, which an empty slot
      reads as, and fewer than n lines were ever used. */
  lemma HitIff(n: nat, xs: seq<int>, x: int)
    requires n > 0
    ensures x in After(Empty(n), xs) <==> (x in xs && |Since(xs, x)| < n) || (x == 0 && |Recency(xs)| < n)
  {
    hide IndexOf, Recency, Since, After, Distinct;
    RowIsRecencyWindow(n, xs);
    RecencyFacts(xs);
    var r := Recency(xs);
    if x in xs { RankIsSince(xs, x); }
    InWindow(n, r, x);
  }

  lemma InWindow(n: nat, r: seq<int>, x: int)
    ensures x in Window(n, r) <==> (x in r && IndexOf(r, x) < n) || (x == 0 && |r| < n)
  {
    hide IndexOf;
    var w := Window(n, r);
    if x in r && IndexOf(r, x) < n { assert w[IndexOf(r, x)] == x; }
    if x == 0 && |r| < n { assert w[|r|] == 0; }
  }

  // ------------------------------------------------------ the stack property

  /** A row with one more slot keeps the smaller row as its prefix, whatever is
      referenced; so its hits include the smaller row's. */
  lemma TouchKeepsPrefix(small: seq<int>, big: seq<int>, x: int)
    requires small != [] && |big| == |small| + 1 && small == big[..|small|]
    ensures Touch(small, x) == Touch(big, x)[..|small|]
    ensures x in small ==> x in big
  {
    hide IndexOf;
    var n, i := |small|, IndexOf(small, x);
    assert big == small + [big[n]];
    if i < n {
      IndexIs(big, x, i);
      assert ([x] + big[..i] + big[i + 1..])[..n] == [x] + small[..i] + small[i + 1..];
    } else {
      assert x !in small;
      if big[n] == x {
        IndexIs(big, x, n);
      } else {
        assert x !in big;
      }
      assert ([x] + big[..n])[..n] == [x] + small[..n - 1];
    }
  }

  /** Misses never rise with associativity. */
  lemma {:induction false} MoreWaysNoMoreMisses(n: nat, xs: seq<int>)
    requires n > 0
    ensures After(Empty(n), xs) == After(Empty(n + 1), xs)[..n]
    ensures Misses(n + 1, xs) <= Misses(n, xs)
  {
    if xs == [] {
    } else {
      var init, last := xs[..|xs| - 1], xs[|xs| - 1];
      MoreWaysNoMoreMisses(n, init);
      TouchKeepsPrefix(After(Empty(n), init), After(Empty(n + 1), init), last);
    }
  }
}
