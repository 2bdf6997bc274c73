/** Counting over consecutive pairs of a sequence, and over the edges of a closed polygon.

    Every loop over polygon edges in the repository starts with the edge from the last vertex to the
    first, and then walks the list; CountCyclic counts in that order. */
module Paths {

  function CountPairs<T>(s: seq<T>, f: (T, T) -> bool): nat {
    if |s| < 2 then 0 else (if f(s[0], s[1]) then 1 else 0) + CountPairs(s[1..], f)
  }

  /** The vertex list with its last vertex put in front: consecutive pairs are the polygon's edges. */
  function Closed<T>(s: seq<T>): seq<T>
    requires s != []
  {
    [s[|s| - 1]] + s
  }

  function CountCyclic<T>(s: seq<T>, f: (T, T) -> bool): nat {
    if s == [] then 0 else CountPairs(Closed(s), f)
  }

  function Reversed<T>(s: seq<T>): (r: seq<T>)
    ensures |r| == |s|
    ensures forall k :: 0 <= k < |s| ==> r[k] == s[|s| - 1 - k]
  {
    if s == [] then [] else Reversed(s[1..]) + [s[0]]
  }

  /** Cutting a path at one of its points splits the count. */
  lemma {:induction false} CountSplit<T>(s: seq<T>, k: nat, f: (T, T) -> bool)
    requires k < |s|
    ensures CountPairs(s, f) == CountPairs(s[..k + 1], f) + CountPairs(s[k..], f)
  {
    if k > 0 {
      CountSplit(s[1..], k - 1, f);
      assert s[1..][..k] == s[..k + 1][1..];
      assert s[1..][k - 1..] == s[k..];
    }
  }

  lemma CountSnoc<T>(s: seq<T>, k: nat, f: (T, T) -> bool)
    requires k + 1 < |s|
    ensures CountPairs(s[..k + 2], f) == CountPairs(s[..k + 1], f) + if f(s[k], s[k + 1]) then 1 else 0
  {
    var t := s[..k + 2];
    CountSplit(t, k, f);
    assert t[..k + 1] == s[..k + 1];
    assert t[k..] == [s[k], s[k + 1]];
    assert t[k..][1..] == [s[k + 1]];
  }

  /** Whether an odd number of the polygon's first n edges is met: what a toggling loop holds. */
  predicate OddSoFar<T>(s: seq<T>, n: nat, f: (T, T) -> bool)
    requires n <= |s|
  {
    s != [] && CountPairs(Closed(s)[..n + 1], f) % 2 == 1
  }

  lemma OddStep<T>(s: seq<T>, n: nat, f: (T, T) -> bool)
    requires n < |s|
    ensures OddSoFar(s, n + 1, f) == (OddSoFar(s, n, f) != f(s[if n == 0 then |s| - 1 else n - 1], s[n]))
  {
    CountSnoc(Closed(s), n, f);
  }

  lemma OddAtEnd<T>(s: seq<T>, f: (T, T) -> bool)
    ensures OddSoFar(s, |s|, f) == (CountCyclic(s, f) % 2 == 1)
  {
    if s != [] {
      assert Closed(s)[..|s| + 1] == Closed(s);
    }
  }

  /** The edges of a closed polygon do not depend on the vertex the list starts with. */
  lemma CountRotate<T>(s: seq<T>, k: nat, f: (T, T) -> bool)
    requires k <= |s|
    ensures CountCyclic(s[k..] + s[..k], f) == CountCyclic(s, f)
  {
    var r := s[k..] + s[..k];
    if k == 0 || k == |s| {
      assert r == s;
    } else {
      var n := |s|;
      var c, d := Closed(s), Closed(r);
      CountSplit(c, k, f);
      CountSplit(d, n - k, f);
      assert c[..k + 1] == d[n - k..];
      assert c[k..] == d[..n - k + 1];
    }
  }

  lemma {:induction false} CountPairsReversed<T(!new)>(s: seq<T>, f: (T, T) -> bool, g: (T, T) -> bool)
    requires forall a, b :: f(a, b) == g(b, a)
    ensures CountPairs(Reversed(s), f) == CountPairs(s, g)
  {
    if |s| >= 2 {
      var r := Reversed(s);
      CountPairsReversed(s[1..], f, g);
      CountSnoc(r, |s| - 2, f);
      assert r[..|s|] == r;
      assert r[..|s| - 1] == Reversed(s[1..]);
    }
  }

  /** Walking the polygon the other way meets the same edges, each turned round. */
  lemma CountReversed<T(!new)>(s: seq<T>, f: (T, T) -> bool, g: (T, T) -> bool)
    requires forall a, b :: f(a, b) == g(b, a)
    ensures CountCyclic(Reversed(s), f) == CountCyclic(s, g)
  {
    if s != [] {
      var n, r := |s|, Reversed(s);
      CountPairsReversed(Closed(s), f, g);
      assert Reversed(Closed(s)) == r + [s[n - 1]];
      var c, d := Closed(r), r + [s[n - 1]];
      CountSplit(c, 1, f);
      CountSplit(d, n - 1, f);
      assert c[1..] == r && d[..n] == r;
      assert c[..2] == [s[0], s[n - 1]] == d[n - 1..];
    }
  }

  lemma {:induction false} CountPairsMapped<T, U>(s: seq<T>, t: seq<U>, f: (T, T) -> bool, g: (U, U) -> bool)
    requires |s| == |t|
    requires forall k :: 0 <= k < |s| - 1 ==> f(s[k], s[k + 1]) == g(t[k], t[k + 1])
    ensures CountPairs(s, f) == CountPairs(t, g)
  {
    if |s| >= 2 {
      assert f(s[0], s[0 + 1]) == g(t[0], t[0 + 1]);
      forall k | 0 <= k < |s[1..]| - 1 ensures f(s[1..][k], s[1..][k + 1]) == g(t[1..][k], t[1..][k + 1]) {
        assert f(s[k + 1], s[k + 1 + 1]) == g(t[k + 1], t[k + 1 + 1]);
      }
      CountPairsMapped(s[1..], t[1..], f, g);
    }
  }

  /** Edge k of a polygon leads from its k-th vertex to the next one. */
  function Next(k: nat, n: nat): nat
    requires k < n
  {
    if k + 1 == n then 0 else k + 1
  }

  /** An edge that is met gives an edge of the polygon, by index. */
  lemma {:induction false} CountWitness<T>(s: seq<T>, f: (T, T) -> bool) returns (k: nat)
    requires CountPairs(s, f) > 0
    ensures k + 1 < |s| && f(s[k], s[k + 1])
  {
    if f(s[0], s[1]) {
      k := 0;
    } else {
      var j := CountWitness(s[1..], f);
      k := j + 1;
    }
  }

  lemma EdgeWitness<T>(s: seq<T>, f: (T, T) -> bool) returns (k: nat)
    requires CountCyclic(s, f) > 0
    ensures k < |s| && f(s[k], s[Next(k, |s|)])
  {
    var j := CountWitness(Closed(s), f);
    k := if j == 0 then |s| - 1 else j - 1;
  }

  /** When no two different edges are met, at most one is. */
  lemma {:induction false} CountAtMostOne<T>(s: seq<T>, f: (T, T) -> bool)
    requires forall i, k :: 0 <= i < k < |s| - 1 ==> !(f(s[i], s[i + 1]) && f(s[k], s[k + 1]))
    ensures CountPairs(s, f) <= 1
  {
    if |s| >= 2 {
      var t := s[1..];
      forall i, k | 0 <= i < k < |t| - 1 ensures !(f(t[i], t[i + 1]) && f(t[k], t[k + 1])) {
        assert !(f(s[i + 1], s[i + 1 + 1]) && f(s[k + 1], s[k + 1 + 1]));
      }
      CountAtMostOne(t, f);
      if f(s[0], s[1]) && CountPairs(t, f) > 0 {
        var j := CountWitness(t, f);
        assert false;
      }
    }
  }

  lemma EdgeAtMostOne<T>(s: seq<T>, f: (T, T) -> bool)
    requires forall i, k :: 0 <= i < |s| && 0 <= k < |s| && i != k
                            ==> !(f(s[i], s[Next(i, |s|)]) && f(s[k], s[Next(k, |s|)]))
    ensures CountCyclic(s, f) <= 1
  {
    if s != [] {
      var c, n := Closed(s), |s|;
      forall i, k | 0 <= i < k < |c| - 1 ensures !(f(c[i], c[i + 1]) && f(c[k], c[k + 1])) {
        var i', k' := if i == 0 then n - 1 else i - 1, k - 1;
        if i' != k' {
          assert !(f(s[i'], s[Next(i', n)]) && f(s[k'], s[Next(k', n)]));
        }
      }
      CountAtMostOne(c, f);
    }
  }

  /** A count over a disjoint union of edge properties is the sum of the counts. */
  lemma {:induction false} CountSum<T(!new)>(s: seq<T>, f: (T, T) -> bool, g: (T, T) -> bool, h: (T, T) -> bool)
    requires forall a, b :: f(a, b) == (g(a, b) || h(a, b)) && !(g(a, b) && h(a, b))
    ensures CountPairs(s, f) == CountPairs(s, g) + CountPairs(s, h)
  {
    if |s| >= 2 {
      CountSum(s[1..], f, g, h);
    }
  }

  /** Edges that go up and edges that go down differ in number by the difference of the ends. */
  lemma {:induction false} UpMinusDown<T(!new)>(s: seq<T>, high: T -> bool, up: (T, T) -> bool, down: (T, T) -> bool)
    requires s != []
    requires forall a, b :: up(a, b) == (!high(a) && high(b))
    requires forall a, b :: down(a, b) == (high(a) && !high(b))
    ensures CountPairs(s, up) - CountPairs(s, down)
         == (if high(s[|s| - 1]) then 1 else 0) - (if high(s[0]) then 1 else 0)
  {
    if |s| >= 2 {
      UpMinusDown(s[1..], high, up, down);
    }
  }

  /** A closed polygon goes up as often as it goes down. */
  lemma UpEqualsDown<T(!new)>(s: seq<T>, high: T -> bool, up: (T, T) -> bool, down: (T, T) -> bool)
    requires forall a, b :: up(a, b) == (!high(a) && high(b))
    requires forall a, b :: down(a, b) == (high(a) && !high(b))
    ensures CountCyclic(s, up) == CountCyclic(s, down)
  {
    if s != [] {
      UpMinusDown(Closed(s), high, up, down);
    }
  }

  /** Without an upward edge no vertex can differ from the first. */
  lemma {:induction false} NoChange<T(!new)>(s: seq<T>, high: T -> bool, up: (T, T) -> bool, down: (T, T) -> bool, k: nat)
    requires k < |s|
    requires forall a, b :: up(a, b) == (!high(a) && high(b))
    requires forall a, b :: down(a, b) == (high(a) && !high(b))
    requires CountPairs(s, up) == 0 && CountPairs(s, down) == 0
    ensures high(s[k]) == high(s[0])
  {
    if k > 0 {
      NoChange(s[1..], high, up, down, k - 1);
    }
  }
}
