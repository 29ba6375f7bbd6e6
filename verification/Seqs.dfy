/** One element more or less in a sequence, and ascending sequences of positions. */
module Seqs {
  function With<T>(s: seq<T>, at: nat, x: T): (r: seq<T>)
    requires at <= |s|
    ensures |r| == |s| + 1 && forall i :: 0 <= i < |r| ==> r[i] == if i < at then s[i] else if i == at then x else s[i - 1]
  {
    s[..at] + [x] + s[at..]
  }

  function Without<T>(s: seq<T>, at: nat): seq<T>
    requires at < |s|
  {
    s[..at] + s[at + 1..]
  }

  /** Taking out what was put in. */
  lemma WithoutWith<T>(s: seq<T>, at: nat, x: T)
    requires at <= |s|
    ensures Without(With(s, at, x), at) == s
  {}

  predicate Ascending(p: seq<nat>) {
    forall i, j :: 0 <= i < j < |p| ==> p[i] < p[j]
  }

  lemma LastIsGreatest(p: seq<nat>, k: nat)
    requires Ascending(p) && k in p
    ensures p != [] && k <= p[|p| - 1]
  {}

  lemma FrontOf(p: seq<nat>, k: nat)
    requires Ascending(p) && p != []
    ensures Ascending(p[..|p| - 1]) && (k in p[..|p| - 1] <==> k in p && k != p[|p| - 1])
  {
    var n := |p| - 1;
    assert p == p[..n] + [p[n]];
  }

  /** There is one ascending list of given places. */
  lemma {:induction false} OneList(p: seq<nat>, q: seq<nat>)
    requires Ascending(p) && Ascending(q) && forall k: nat :: k in p <==> k in q
    ensures p == q
  {
    hide Ascending;
    if q != [] { assert q[0] in q; }
    if p != [] {
      assert p[|p| - 1] in p && p[|p| - 1] in q;
      LastIsGreatest(q, p[|p| - 1]);
      assert q[|q| - 1] in q;
      LastIsGreatest(p, q[|q| - 1]);
      var front, others := p[..|p| - 1], q[..|q| - 1];
      forall k: nat ensures k in front <==> k in others {
        FrontOf(p, k);
        FrontOf(q, k);
      }
      FrontOf(p, 0);
      FrontOf(q, 0);
      OneList(front, others);
      assert p == p[..|p| - 1] + [p[|p| - 1]] && q == q[..|q| - 1] + [q[|q| - 1]];
    }
  }
}
