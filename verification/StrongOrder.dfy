/**
 * An order of the words that is graded STRONG (packages/shared/src/name-match.ts). The last record
 * word to be searched from takes the first document word it agrees with, whoever holds it, as long
 * as everybody can still be paired; so a written-out pair is found if its words are put there.
 */
module StrongOrder {
  import opened Pairing
  import opened NameMatch
  import opened WordSorting

  // ---- The search, once enough is known about the order ----

  /** The set is that of the first n indices. */
  ghost predicate IsFirst(s: set<nat>, n: nat)
  {
    forall i: nat :: i in s <==> i < n
  }

  lemma FirstSize(s: set<nat>, n: nat)
    requires IsFirst(s, n)
    ensures |s| == n
  {
    assert s == Below(n);
  }

  lemma OneMore(g: Sides, p: map<nat, nat>, s: set<nat>, n: nat)
    requires g.IsPairing(p) && IsFirst(s, n) && forall i: nat :: i <= n ==> i in p.Values
    ensures IsFirst(s + {n}, n + 1) && Coverable(g, s + {n})
  {
    assert s + {n} <= p.Values;
  }

  /** As long as the first n record words can all be paired at once, they all are. */
  lemma {:induction false} KeepsThemAll(g: Sides, p: map<nat, nat>, n: nat)
    requires g.IsPairing(p) && forall i: nat :: i < n ==> i in p.Values
    ensures IsFirst(Kept(g, n), n)
  {
    if n > 0 {
      KeepsThemAll(g, p, n - 1);
      OneMore(g, p, Kept(g, n - 1), n - 1);
    }
  }

  lemma KuhnHoldsFirst(g: Sides, p: map<nat, nat>, n: nat) returns (m: map<nat, nat>)
    requires g.IsPairing(p) && n <= |g.record| && forall i: nat :: i < n ==> i in p.Values
    ensures m == Kuhn(g, n) && g.IsPairing(m) && IsFirst(m.Values, n)
  {
    m := Kuhn(g, n);
    KeepsThemAll(g, p, n);
    var z := KuhnKeeps(g, n);
  }

  /** A pairing that holds exactly the first n words has n pairs. */
  lemma SizeOfFirst(p: map<nat, nat>, n: nat)
    requires Injective(p, {}) && IsFirst(p.Values, n)
    ensures |p| == n
  {
    HeldSize(p, {});
    HeldIsValues(p);
    FirstSize(p.Values, n);
    assert p.Keys - {} == p.Keys && |p.Keys| == |p|;
  }

  /** Once the pairing is full, no later root changes it. */
  lemma {:induction false} FullUnmoved(g: Sides, m: map<nat, nat>, r: nat)
    requires g.IsPairing(m) && |m| == Shorter(g) && r < |g.record| && r !in m.Values
    ensures Find(g, m, {}, r, 0).pairedTo == m
  {
    var f := Find(g, m, {}, r, 0);
    HeldIsValues(m);
    FindKeeps(g, m, {}, {}, r, 0, {});
    if f.ok {
      GrownSize(m, f.pairedTo, r);
      AtMostShorter(g, f.pairedTo);
    }
  }

  lemma GrownSize(m: map<nat, nat>, m': map<nat, nat>, r: nat)
    requires Injective(m, {}) && r !in m.Values && Grown(m, m', {}, r)
    ensures |m'| == |m| + 1
  {
    HeldIsValues(m);
    HeldIsValues(m');
    HeldSize(m, {});
    HeldSize(m', {});
    assert m.Keys - {} == m.Keys && m'.Keys - {} == m'.Keys;
    assert |m.Keys| == |m| && |m'.Keys| == |m'|;
  }

  lemma NextUnmoved(g: Sides, n: nat, m: map<nat, nat>)
    requires n < |g.record| && m == Kuhn(g, n) && |m| == Shorter(g)
    ensures m == Kuhn(g, n + 1)
  {
    Unheld(g, n);
    HeldIsValues(m);
    FullUnmoved(g, m, n);
  }

  lemma {:induction false} FullStays(g: Sides, n: nat, n': nat, m: map<nat, nat>)
    requires n <= n' <= |g.record| && m == Kuhn(g, n) && |m| == Shorter(g)
    ensures m == Kuhn(g, n')
    decreases n'
  {
    if n < n' {
      FullStays(g, n, n' - 1, m);
      NextUnmoved(g, n' - 1, m);
    }
  }

  /** What the first n words are paired with is what the whole search ends with, when that is full. */
  lemma {:induction false} FirstDecide(g: Sides, p: map<nat, nat>)
    requires IsFull(g, p) && |p| <= |g.record| && IsFirst(p.Values, |p|)
    ensures Kuhn(g, |g.record|) == Kuhn(g, |p|) && |Kuhn(g, |p|)| == Shorter(g)
  {
    var n := |p|;
    var m := KuhnHoldsFirst(g, p, n);
    SizeOfFirst(m, n);
    FullStays(g, n, |g.record|, m);
  }

  // ---- An order graded STRONG ----

  /** Word r comes last of the first n, and p pairs it with the first document word. */
  ghost predicate LastMeetsFirst(g: Sides, p: map<nat, nat>, r: nat)
  {
    && g.IsPairing(p) && IsFirst(p.Values, r + 1) && r < |g.record|
    && 0 in p && p[0] == r
  }

  /** The holders of a stuck set leave no room in it for p, which gives its first word to r. */
  lemma FirstIsNotStuck(g: Sides, p: map<nat, nat>, r: nat, m: map<nat, nat>, z: set<nat>)
    requires LastMeetsFirst(g, p, r) && g.IsPairing(m) && IsFirst(m.Values, r)
    ensures !(0 in z && g.Stuck(m, z))
  {
    if 0 in z && g.Stuck(m, z) {
      var holders := set d | d in z :: m[d];
      ImageSize(m, z);
      assert holders <= m.Values;
      forall d | d in p && p[d] in holders ensures d in z - {0} {
        assert g.Edge(p[d], d);
      }
      HoldersSize(p, holders, z - {0});
    }
  }

  /** A search for another word for the holder of d that failed leaves a stuck set. */
  lemma ExploredIsStuck(g: Sides, m: map<nat, nat>, d: nat, seen: set<nat>)
    requires d in m && g.Explored(m, {d}, seen) && g.NeighboursIn(m[d], seen)
    ensures g.Stuck(m, seen)
  {
  }

  /** The holder of the first document word can always be moved away from it. */
  lemma {:induction false} HolderMoves(g: Sides, p: map<nat, nat>, r: nat, m: map<nat, nat>)
    requires LastMeetsFirst(g, p, r) && g.IsPairing(m) && IsFirst(m.Values, r) && 0 in m && 0 < |g.document|
    ensures Find(g, m, {0}, m[0], 0).ok
  {
    var f := Find(g, m, {0}, m[0], 0);
    FindKeeps(g, m, {0}, {0}, m[0], 0, {});
    if !f.ok {
      ExploredIsStuck(g, m, 0, f.seen);
      FirstIsNotStuck(g, p, r, m, f.seen);
    }
  }

  /** So the last of the first words takes the first document word. */
  lemma {:induction false} LastTakesFirst(g: Sides, p: map<nat, nat>, r: nat)
    requires LastMeetsFirst(g, p, r)
    ensures 0 in Kuhn(g, r + 1) && Kuhn(g, r + 1)[0] == r
  {
    assert g.Edge(p[0], 0);
    var m := KuhnHoldsFirst(g, p, r);
    if 0 in m {
      HolderMoves(g, p, r, m);
      assert {} + {0} == {0};
    }
  }

  /** The words up to the rank of r are those the pairing holds, and r alone is of its rank. */
  ghost predicate LastOfPaired(n: nat, m: map<nat, nat>, rank: nat -> nat, r: nat)
  {
    && r < n && r in m.Values
    && (forall j: nat :: j < n && j in m.Values && j != r ==> rank(j) < rank(r))
    && (forall j: nat :: j < n && j !in m.Values ==> rank(r) < rank(j))
  }

  /** Sorting the paired words first, r last of them, makes them the first words. */
  lemma PairedFirst(qr: seq<nat>, qd: seq<nat>, back: seq<nat>, m: map<nat, nat>, m': map<nat, nat>,
                    rank: nat -> nat, c: nat, r: nat)
    requires Follows(qr, qd, m, m') && Inverse(qr, back) && Ranked(qr, rank, c) && LastOfPaired(|qr|, m, rank, r)
    ensures IsFirst(m'.Values, qr[r] + 1)
  {
    forall i: nat | i in m'.Values ensures i <= qr[r] {
      var j := HeldCame(qr, qd, m, m', i);
      if j != r { RankedAt(qr, rank, c, j, r); }
    }
    forall i: nat | i <= qr[r] ensures i in m'.Values {
      var j := back[i];
      assert qr[j] == i;
      if j !in m.Values { RankedAt(qr, rank, c, r, j); }
      HeldGoes(qr, qd, m, m', j);
    }
  }

  /** Whatever is alone of rank 0 comes first of all. */
  lemma AloneIsFirst(q: seq<nat>, back: seq<nat>, rank: nat -> nat, c: nat, d: nat)
    requires Inverse(q, back) && Ranked(q, rank, c) && d < |q| && rank(d) == 0
    requires forall i :: 0 <= i < |q| && i != d ==> rank(i) > 0
    ensures q[d] == 0
  {
    assert q[back[0]] == 0;
  }

  /** With a written-out pair at document word 0 of the full pairing found, the grade is STRONG. */
  lemma FoundStrong(g: Sides, p: map<nat, nat>, r: nat)
    requires LastMeetsFirst(g, p, r) && IsFull(g, p) && multiset(g.record) != multiset(g.document)
    requires IsRealPair(g, r, 0)
    ensures GradeOf(g) == Strong
  {
    SizeOfFirst(p, r + 1);
    LastTakesFirst(g, p, r);
    FirstDecide(g, p);
    var m := Kuhn(g, |g.record|);
    assert IsRealPair(g, m[0], 0);
    assert RestsOnARealWord(g, m);
  }

  /** The record words that p pairs, but r after the others, and then the rest. */
  function PairedThen(paired: set<nat>, r: nat): nat -> nat
  {
    (i: nat) => if i == r then 1 else if i in paired then 0 else 2
  }

  function OneFirst(d: nat): nat -> nat
  {
    (i: nat) => if i == d then 0 else 1
  }

  lemma PairedThenRanks(n: nat, p: map<nat, nat>, r: nat)
    requires r < n && r in p.Values
    ensures LastOfPaired(n, p, PairedThen(p.Values, r), r)
  {
  }

  lemma OneFirstPlaces(q: seq<nat>, back: seq<nat>, c: nat, d: nat)
    requires Inverse(q, back) && Ranked(q, OneFirst(d), c) && d < |q|
    ensures q[d] == 0
  {
    AloneIsFirst(q, back, OneFirst(d), c, d);
  }

  lemma LastMeetsFirstArranged(g: Sides, p: map<nat, nat>, d: nat, a: Arrangement)
    requires d in p && Arranged(g, p, PairedThen(p.Values, p[d]), OneFirst(d), a)
    ensures p[d] < |a.qr| && LastMeetsFirst(a.g, a.p, a.qr[p[d]])
  {
    PairFollows(g, p, a.g, a.p, a.qr, a.qd, d);
    PairedThenRanks(|a.qr|, p, p[d]);
    PairedFirst(a.qr, a.qd, a.br, p, a.p, PairedThen(p.Values, p[d]), a.cr, p[d]);
    OneFirstPlaces(a.qd, a.bd, a.cd, d);
  }

  lemma StrongArranged(g: Sides, p: map<nat, nat>, d: nat, a: Arrangement)
    requires IsFull(g, p) && d in p && IsRealPair(g, p[d], d) && multiset(g.record) != multiset(g.document)
    requires Arranged(g, p, PairedThen(p.Values, p[d]), OneFirst(d), a)
    ensures GradeOf(a.g) == Strong
  {
    SameLengths(g, a.g);
    PairFollows(g, p, a.g, a.p, a.qr, a.qd, d);
    OneFirstPlaces(a.qd, a.bd, a.cd, d);
    LastMeetsFirstArranged(g, p, d, a);
    FoundStrong(a.g, a.p, a.qr[p[d]]);
  }

  /** Any full pairing that rests on a written-out word has an order of the words that is graded STRONG. */
  lemma StrongOrderExists(g: Sides, p: map<nat, nat>) returns (g': Sides)
    requires IsFull(g, p) && RestsOnARealWord(g, p) && multiset(g.record) != multiset(g.document)
    ensures Reorders(g, g') && GradeOf(g') == Strong
  {
    var d :| d in p && IsRealPair(g, p[d], d);
    var a := Arrange(g, p, PairedThen(p.Values, p[d]), OneFirst(d));
    g' := a.g;
    StrongArranged(g, p, d, a);
  }
}
