/** Counting the members of a list that satisfy a condition. */
module Counting {

  function CountIf<T>(s: seq<T>, f: T -> bool): nat {
    if s == [] then 0 else CountIf(s[..|s| - 1], f) + if f(s[|s| - 1]) then 1 else 0
  }

  lemma CountIfSnoc<T>(s: seq<T>, n: nat, f: T -> bool)
    requires n < |s|
    ensures CountIf(s[..n + 1], f) == CountIf(s[..n], f) + if f(s[n]) then 1 else 0
  {
    assert s[..n + 1][..n] == s[..n];
  }

  lemma {:induction false} CountIfRemove<T>(s: seq<T>, k: nat, f: T -> bool)
    requires k < |s|
    ensures CountIf(s, f) == CountIf(s[..k] + s[k + 1..], f) + if f(s[k]) then 1 else 0
  {
    var n, t := |s|, s[..k] + s[k + 1..];
    if k == n - 1 {
      assert t == s[..n - 1];
    } else {
      CountIfRemove(s[..n - 1], k, f);
      assert s[..n - 1][..k] + s[..n - 1][k + 1..] == t[..n - 2];
      assert t[n - 2] == s[n - 1];
    }
  }

  lemma RemoveOne<T>(s: seq<T>, k: nat)
    requires k < |s|
    ensures multiset(s[..k] + s[k + 1..]) == multiset(s) - multiset{s[k]}
  {
    assert s == s[..k] + [s[k]] + s[k + 1..];
  }

  lemma RemoveThenSnoc<T>(s: seq<T>, k: nat)
    requires k < |s| - 1
    ensures var r := s[..|s| - 1];
      s[..k] + s[k + 1..] == (r[..k] + r[k + 1..]) + [s[|s| - 1]] && r[k] == s[k]
  {
    var n := |s| - 1;
    assert s[k + 1..] == s[..n][k + 1..] + [s[n]];
    assert s[..k] == s[..n][..k];
  }

  /** The count depends on the members only, and grows with them. */
  lemma {:induction false} CountIfMonotone<T>(s: seq<T>, t: seq<T>, f: T -> bool)
    requires multiset(s) <= multiset(t)
    ensures CountIf(s, f) <= CountIf(t, f)
  {
    if s != [] {
      var n, x := |s| - 1, s[|s| - 1];
      assert s == s[..n] + [x];
      assert x in multiset(s);
      assert x in t;
      var k :| 0 <= k < |t| && t[k] == x;
      CountIfRemove(t, k, f);
      RemoveOne(t, k);
      assert multiset(s[..n]) == multiset(s) - multiset{x};
      CountIfMonotone(s[..n], t[..k] + t[k + 1..], f);
    }
  }

  lemma {:induction false} CountIfMapped<T, U>(s: seq<T>, t: seq<U>, f: T -> bool, g: U -> bool)
    requires |s| == |t|
    requires forall k :: 0 <= k < |s| ==> f(s[k]) == g(t[k])
    ensures CountIf(s, f) == CountIf(t, g)
  {
    if s != [] {
      CountIfMapped(s[..|s| - 1], t[..|t| - 1], f, g);
    }
  }
}
