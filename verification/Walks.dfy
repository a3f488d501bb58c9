/**
 * Walks over a transition map, and the order a breadth-first search meets them in: shorter ones
 * first, and among those of one length the one that takes the earlier-listed successor where they
 * first differ (packages/shared/src/assayer-lifecycle.ts).
 */
module Walks {

  function Successors<S(==)>(g: map<S, seq<S>>, s: S): seq<S>
  {
    if s in g then g[s] else []
  }

  /** Where a walk stands after k moves. */
  ghost function Stop<S>(from: S, route: seq<S>, k: nat): S
    requires k <= |route|
  {
    if k == 0 then from else route[k - 1]
  }

  ghost function End<S>(from: S, route: seq<S>): S { Stop(from, route, |route|) }

  /** Move k of the walk is a legal transition. */
  ghost predicate Legal<S>(g: map<S, seq<S>>, from: S, route: seq<S>, k: nat)
    requires k < |route|
  {
    route[k] in Successors(g, Stop(from, route, k))
  }

  /** Every move along the walk is a legal transition. */
  ghost predicate IsChain<S>(g: map<S, seq<S>>, from: S, route: seq<S>)
  {
    forall k: nat :: k < |route| ==> Legal(g, from, route, k)
  }

  /** A chain of legal transitions from `from` to `to` with no barred state strictly inside. */
  ghost predicate IsRoute<S>(g: map<S, seq<S>>, barred: set<S>, from: S, to: S, route: seq<S>)
  {
    && route != [] && route[|route| - 1] == to
    && IsChain(g, from, route)
    && forall k :: 0 <= k < |route| - 1 ==> route[k] !in barred
  }

  // ---- The order of walks ----

  /** Where a state stands in a list: at its first place, or after the end. */
  ghost function Rank<S>(list: seq<S>, s: S): nat
  {
    if list == [] || list[0] == s then 0 else 1 + Rank(list[1..], s)
  }

  lemma {:induction false} RankTells<S>(list: seq<S>, s: S, t: S)
    requires s in list && t in list && Rank(list, s) == Rank(list, t)
    ensures s == t
  {
    if list[0] != s && list[0] != t {
      RankTells(list[1..], s, t);
    }
  }

  /** A state that appears nowhere before place j stands there. */
  lemma {:induction false} RankAt<S>(list: seq<S>, j: nat)
    requires j < |list| && forall i :: 0 <= i < j ==> list[i] != list[j]
    ensures Rank(list, list[j]) == j
  {
    if j > 0 {
      RankAt(list[1..], j - 1);
    }
  }

  function Parent<S>(path: seq<S>): seq<S>
    requires path != []
  {
    path[..|path| - 1]
  }

  /** Of two walks of one length, a takes the earlier successor where they first differ. */
  ghost predicate Earlier<S>(g: map<S, seq<S>>, from: S, a: seq<S>, b: seq<S>)
    requires |a| == |b|
  {
    a != [] &&
    var next := Successors(g, End(from, Parent(a)));
    || Earlier(g, from, Parent(a), Parent(b))
    || (Parent(a) == Parent(b) && Rank(next, a[|a| - 1]) < Rank(next, b[|b| - 1]))
  }

  /** a is shorter, or of one length and earlier. */
  ghost predicate Before<S>(g: map<S, seq<S>>, from: S, a: seq<S>, b: seq<S>)
  {
    |a| < |b| || (|a| == |b| && Earlier(g, from, a, b))
  }

  ghost predicate NotAfter<S>(g: map<S, seq<S>>, from: S, a: seq<S>, b: seq<S>)
  {
    a == b || Before(g, from, a, b)
  }

  lemma {:induction false} EarlierTransitive<S>(g: map<S, seq<S>>, from: S, a: seq<S>, b: seq<S>, c: seq<S>)
    requires |a| == |b| == |c| && Earlier(g, from, a, b) && Earlier(g, from, b, c)
    ensures Earlier(g, from, a, c)
  {
    if Earlier(g, from, Parent(a), Parent(b)) && Earlier(g, from, Parent(b), Parent(c)) {
      EarlierTransitive(g, from, Parent(a), Parent(b), Parent(c));
    }
  }

  lemma BeforeTransitive<S>(g: map<S, seq<S>>, from: S, a: seq<S>, b: seq<S>, c: seq<S>)
    requires NotAfter(g, from, a, b) && Before(g, from, b, c)
    ensures Before(g, from, a, c)
  {
    if |a| == |b| == |c| && a != b {
      EarlierTransitive(g, from, a, b, c);
    }
  }

  lemma NotAfterTransitive<S>(g: map<S, seq<S>>, from: S, a: seq<S>, b: seq<S>, c: seq<S>)
    requires NotAfter(g, from, a, b) && NotAfter(g, from, b, c)
    ensures NotAfter(g, from, a, c)
  {
    if b != c {
      BeforeTransitive(g, from, a, b, c);
    }
  }

  lemma {:induction false} NotEarlierThanItself<S>(g: map<S, seq<S>>, from: S, a: seq<S>)
    ensures !Earlier(g, from, a, a)
  {
    if a != [] {
      NotEarlierThanItself(g, from, Parent(a));
    }
  }

  lemma NotBoth<S>(g: map<S, seq<S>>, from: S, a: seq<S>, b: seq<S>)
    requires Before(g, from, a, b)
    ensures !Before(g, from, b, a)
  {
    if Before(g, from, b, a) {
      BeforeTransitive(g, from, a, b, a);
      NotEarlierThanItself(g, from, a);
    }
  }

  lemma ParentIsChain<S>(g: map<S, seq<S>>, from: S, a: seq<S>)
    requires IsChain(g, from, a) && a != []
    ensures IsChain(g, from, Parent(a)) && a[|a| - 1] in Successors(g, End(from, Parent(a)))
  {
    assert Legal(g, from, a, |a| - 1);
    forall k: nat | k < |a| - 1 ensures Legal(g, from, Parent(a), k) {
      assert Legal(g, from, a, k);
    }
  }

  /** Of two chains of one length one is earlier, unless they are the same. */
  lemma {:induction false} EarlierIsTotal<S>(g: map<S, seq<S>>, from: S, a: seq<S>, b: seq<S>)
    requires |a| == |b| && IsChain(g, from, a) && IsChain(g, from, b)
    ensures a == b || Earlier(g, from, a, b) || Earlier(g, from, b, a)
  {
    if a != [] {
      ParentIsChain(g, from, a);
      ParentIsChain(g, from, b);
      EarlierIsTotal(g, from, Parent(a), Parent(b));
      if Parent(a) == Parent(b) && a != b {
        var next := Successors(g, End(from, Parent(a)));
        assert a == Parent(a) + [a[|a| - 1]] && b == Parent(b) + [b[|b| - 1]];
        if Rank(next, a[|a| - 1]) == Rank(next, b[|b| - 1]) {
          RankTells(next, a[|a| - 1], b[|b| - 1]);
        }
      }
    }
  }

  lemma BeforeIsTotal<S>(g: map<S, seq<S>>, from: S, a: seq<S>, b: seq<S>)
    requires IsChain(g, from, a) && IsChain(g, from, b)
    ensures NotAfter(g, from, a, b) || Before(g, from, b, a)
  {
    if |a| == |b| {
      EarlierIsTotal(g, from, a, b);
    }
  }

  /** One more move each keeps two walks in order. */
  lemma ExtendBefore<S>(g: map<S, seq<S>>, from: S, a: seq<S>, b: seq<S>, x: S, y: S)
    requires Before(g, from, a, b)
    ensures Before(g, from, a + [x], b + [y])
  {
    assert Parent(a + [x]) == a && Parent(b + [y]) == b;
  }

  lemma ExtendNotAfter<S>(g: map<S, seq<S>>, from: S, a: seq<S>, b: seq<S>, x: S)
    requires NotAfter(g, from, a, b)
    ensures NotAfter(g, from, a + [x], b + [x])
  {
    if a != b {
      ExtendBefore(g, from, a, b, x, x);
    }
  }

  /** From one walk, the earlier successor makes the earlier walk. */
  lemma BranchBefore<S>(g: map<S, seq<S>>, from: S, a: seq<S>, x: S, y: S)
    requires var next := Successors(g, End(from, a)); Rank(next, x) < Rank(next, y)
    ensures Before(g, from, a + [x], a + [y])
  {
    assert Parent(a + [x]) == a && Parent(a + [y]) == a;
  }

  /** A route that is not after any other: a shortest one, and the first of the shortest. */
  ghost predicate IsFirstRoute<S(!new)>(g: map<S, seq<S>>, barred: set<S>, from: S, to: S, route: seq<S>)
  {
    && IsRoute(g, barred, from, to, route)
    && forall other :: IsRoute(g, barred, from, to, other) ==> NotAfter(g, from, route, other)
  }

  /** There is no second one. */
  lemma OneFirstRoute<S(!new)>(g: map<S, seq<S>>, barred: set<S>, from: S, to: S, a: seq<S>, b: seq<S>)
    requires IsFirstRoute(g, barred, from, to, a) && IsFirstRoute(g, barred, from, to, b)
    ensures a == b
  {
    if a != b {
      NotBoth(g, from, a, b);
    }
  }

  /** No route is shorter. */
  lemma FirstIsShortest<S(!new)>(g: map<S, seq<S>>, barred: set<S>, from: S, to: S, route: seq<S>, other: seq<S>)
    requires IsFirstRoute(g, barred, from, to, route) && IsRoute(g, barred, from, to, other)
    ensures |route| <= |other|
  {
    assert NotAfter(g, from, route, other);
  }
}
