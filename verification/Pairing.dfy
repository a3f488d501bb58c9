/**
 * The largest pairing of record words with document words (packages/shared/src/name-match.ts,
 * `maximumPairing`): Kuhn's augmenting-path search, with the pairing and the visited set updated
 * in place and shared by every level of the recursion.
 */
module Pairing {

  /** The indices below n. */
  ghost function Below(n: nat): (s: set<nat>)
    ensures forall i: nat :: i in s <==> i < n
    ensures |s| == n
  {
    if n == 0 then {} else Below(n - 1) + {n - 1}
  }

  /** The words on each side and which of them could be the same name. */
  datatype Sides = Sides(record: seq<string>, document: seq<string>, agree: (string, string) -> bool) {

    ghost predicate Edge(r: nat, d: nat)
    {
      r < |record| && d < |document| && agree(record[r], document[d])
    }

    ghost function Documents(): set<nat>
    {
      Below(|document|)
    }

    /** Every document word that agrees with record word r is in s. */
    ghost predicate NeighboursIn(r: nat, s: set<nat>)
    {
      forall d :: Edge(r, d) ==> d in s
    }

    /** Only agreeing words are paired. */
    ghost predicate Agrees(m: map<nat, nat>)
    {
      forall d <- m :: Edge(m[d], d)
    }

    /** A pairing: document index to record index, only agreeing words, no word used twice. */
    ghost predicate IsPairing(m: map<nat, nat>)
    {
      Agrees(m) && Injective(m, {})
    }

    ghost predicate IsMaximum(m: map<nat, nat>)
    {
      IsPairing(m) && forall other :: IsPairing(other) ==> |other| <= |m|
    }

    /** Every document word in z is paired, and its holder agrees with nothing outside z. */
    ghost predicate Stuck(m: map<nat, nat>, z: set<nat>)
    {
      forall d <- z :: d in m && NeighboursIn(m[d], z)
    }

    /** Every document word in `after` but not in `before` is paired and its holder explored. */
    ghost predicate Explored(m: map<nat, nat>, before: set<nat>, after: set<nat>)
    {
      forall d <- after :: d in before || (d in m && NeighboursIn(m[d], after))
    }
  }

  /** Outside s no record word is used twice. */
  ghost predicate Injective(m: map<nat, nat>, s: set<nat>)
  {
    forall d, e :: d in m && e in m && d !in s && e !in s && m[d] == m[e] ==> d == e
  }

  /** The record words held by document words outside s. */
  ghost function Held(m: map<nat, nat>, s: set<nat>): set<nat>
  {
    set d | d in m && d !in s :: m[d]
  }

  /**
   * What one successful search makes of the pairing: inside s nothing moved, and outside s the
   * words held are those held before plus r, still each held once.
   */
  ghost predicate Grown(m: map<nat, nat>, m': map<nat, nat>, s: set<nat>, r: nat)
  {
    && m.Keys <= m'.Keys
    && (forall d <- s :: d in m' <==> d in m)
    && (forall d <- s :: d in m ==> m'[d] == m[d])
    && Injective(m', s)
    && Held(m', s) == Held(m, s) + {r}
  }

  /** Every document word in z is still paired as it was. */
  ghost predicate Untouched(m: map<nat, nat>, m': map<nat, nat>, z: set<nat>)
  {
    forall d <- z :: d in m && d in m' && m'[d] == m[d]
  }

  /** Taking a free document word. */
  lemma TakeFree(m: map<nat, nat>, s: set<nat>, d: nat, r: nat)
    requires Injective(m, {}) && d !in m && d !in s && r !in Held(m, s)
    ensures Grown(m, m[d := r], s, r)
  {
    var m' := m[d := r];
    forall x | x in Held(m, s) + {r} ensures x in Held(m', s) {
      if x == r {
        assert m'[d] == r;
      } else {
        var e :| e in m && e !in s && m[e] == x;
        assert m'[e] == x;
      }
    }
    forall e, f | e in m' && f in m' && e !in s && f !in s && m'[e] == m'[f] ensures e == f {
      assert e != d ==> m'[e] in Held(m, s);
      assert f != d ==> m'[f] in Held(m, s);
    }
  }

  /**
   * Document word d is to be taken by r from its holder, whom a search that had already seen s1
   * (d among them) has paired elsewhere.
   */
  ghost predicate Vacated(m: map<nat, nat>, m1: map<nat, nat>, s: set<nat>, s1: set<nat>, d: nat, r: nat)
  {
    && Injective(m, {}) && d in m && d !in s && r !in Held(m, s)
    && s <= s1 && d in s1
    && Grown(m, m1, s1, m[d])
  }

  lemma VacatedHeldBefore(m: map<nat, nat>, m1: map<nat, nat>, s: set<nat>, s1: set<nat>, d: nat, r: nat, e: nat)
    requires Vacated(m, m1, s, s1, d, r)
    requires e in m1 && e !in s && e != d
    ensures m1[e] in Held(m, s)
  {
    if e !in s1 {
      assert m1[e] in Held(m1, s1);
      if m1[e] != m[d] {
        var f :| f in m && f !in s1 && m[f] == m1[e];
      }
    }
  }

  lemma VacatedHeldAfter(m: map<nat, nat>, m1: map<nat, nat>, s: set<nat>, s1: set<nat>, d: nat, r: nat, e: nat)
    requires Vacated(m, m1, s, s1, d, r)
    requires e in m && e !in s
    ensures m[e] in Held(m1[d := r], s)
  {
    var m' := m1[d := r];
    if e == d || e !in s1 {
      assert e !in s1 ==> m[e] in Held(m, s1);
      var f :| f in m1 && f !in s1 && m1[f] == m[e];
      assert m'[f] == m[e];
    } else {
      assert m'[e] == m[e];
    }
  }

  lemma VacatedOnce(m: map<nat, nat>, m1: map<nat, nat>, s: set<nat>, s1: set<nat>, d: nat, r: nat, e: nat, f: nat)
    requires Vacated(m, m1, s, s1, d, r)
    requires e in m1 && f in m1 && e !in s && f !in s && e != d && f != d && m1[e] == m1[f]
    ensures e == f
  {
    assert e !in s1 ==> m1[e] in Held(m1, s1);
    assert f !in s1 ==> m1[f] in Held(m1, s1);
  }

  /** Taking a document word its holder has vacated. */
  lemma TakeVacated(m: map<nat, nat>, m1: map<nat, nat>, s: set<nat>, s1: set<nat>, d: nat, r: nat)
    requires Vacated(m, m1, s, s1, d, r)
    ensures Grown(m, m1[d := r], s, r)
  {
    var m' := m1[d := r];
    forall e, f | e in m' && f in m' && e !in s && f !in s && m'[e] == m'[f] ensures e == f {
      if e != d { VacatedHeldBefore(m, m1, s, s1, d, r, e); }
      if f != d { VacatedHeldBefore(m, m1, s, s1, d, r, f); }
      if e != d && f != d { VacatedOnce(m, m1, s, s1, d, r, e, f); }
    }
    forall x | x in Held(m', s) ensures x in Held(m, s) + {r} {
      var e :| e in m' && e !in s && m'[e] == x;
      if e != d { VacatedHeldBefore(m, m1, s, s1, d, r, e); }
    }
    forall x | x in Held(m, s) ensures x in Held(m', s) {
      var e :| e in m && e !in s && m[e] == x;
      VacatedHeldAfter(m, m1, s, s1, d, r, e);
    }
    assert m'[d] == r;
  }

  // ---- The upper bound ----

  lemma {:induction false} ImageSize(m: map<nat, nat>, keys: set<nat>)
    requires keys <= m.Keys
    requires forall d, e :: d in keys && e in keys && m[d] == m[e] ==> d == e
    ensures |set d | d in keys :: m[d]| == |keys|
  {
    if keys != {} {
      var k :| k in keys;
      var rest := keys - {k};
      ImageSize(m, rest);
      assert (set d | d in keys :: m[d]) == (set d | d in rest :: m[d]) + {m[k]};
    }
  }

  lemma SubsetSize(a: set<nat>, b: set<nat>)
    requires a <= b
    ensures |a| <= |b|
  {
    assert b == a + (b - a);
  }

  lemma HeldSize(m: map<nat, nat>, s: set<nat>)
    requires Injective(m, s)
    ensures |Held(m, s)| == |m.Keys - s|
  {
    ImageSize(m, m.Keys - s);
    assert Held(m, s) == set d | d in m.Keys - s :: m[d];
  }

  /** The set-size half of the bound: no more words held outside z means no more words at all. */
  lemma NoMoreHeld(m: map<nat, nat>, z: set<nat>, other: map<nat, nat>)
    requires Injective(m, z) && Injective(other, z)
    requires z <= m.Keys && Held(other, z) <= Held(m, z)
    ensures |other.Keys| <= |m.Keys|
  {
    HeldSize(m, z);
    HeldSize(other, z);
    SubsetSize(Held(other, z), Held(m, z));
    SubsetSize(other.Keys * z, z);
    assert other.Keys == (other.Keys * z) + (other.Keys - z);
    assert m.Keys == z + (m.Keys - z);
  }

  /** In another pairing, a document word outside z is held by a word that `m` holds outside z. */
  lemma HolderOutside(g: Sides, m: map<nat, nat>, z: set<nat>, r: nat, d: nat)
    requires g.Stuck(m, z) && g.Edge(r, d) && d !in z
    requires r in m.Values || g.NeighboursIn(r, z)
    ensures r in Held(m, z)
  {
    assert r in m.Values;
    var e :| e in m && m[e] == r;
  }

  /**
   * The deficiency bound: when every unpaired record word agrees only with words in a stuck set,
   * no pairing is larger.
   */
  lemma StuckMeansMaximum(g: Sides, m: map<nat, nat>, z: set<nat>, other: map<nat, nat>)
    requires g.IsPairing(m) && g.Stuck(m, z) && g.IsPairing(other)
    requires forall r: nat :: r < |g.record| ==> r in m.Values || g.NeighboursIn(r, z)
    ensures |other| <= |m|
  {
    forall r | r in Held(other, z) ensures r in Held(m, z) {
      var d :| d in other && d !in z && other[d] == r;
      HolderOutside(g, m, z, r, d);
    }
    NoMoreHeld(m, z, other);
    assert |other.Keys| == |other| && |m.Keys| == |m|;
  }

  /** A failed visit of d explores d and everything its holder's search saw. */
  lemma ExploredFurther(g: Sides, m: map<nat, nat>, s: set<nat>, s1: set<nat>, d: nat, s2: set<nat>)
    requires g.Explored(m, s, s1) && d in m
    requires s1 + {d} <= s2 && g.Explored(m, s1 + {d}, s2) && g.NeighboursIn(m[d], s2)
    ensures g.Explored(m, s, s2)
  {
  }

  // ---- The search, as a function of what it starts from ----

  /** What a search leaves behind: whether it succeeded, the pairing, and the words it visited. */
  datatype Search = Search(ok: bool, pairedTo: map<nat, nat>, seen: set<nat>)

  /** The search from record word r, trying the document words from index d on. */
  function Find(g: Sides, m: map<nat, nat>, seen: set<nat>, r: nat, d: nat): (f: Search)
    requires r < |g.record| && d <= |g.document| && g.Agrees(m) && seen <= g.Documents()
    ensures g.Agrees(f.pairedTo) && seen <= f.seen <= g.Documents()
    ensures !f.ok ==> f.pairedTo == m
    decreases g.Documents() - seen, |g.document| - d
  {
    if d == |g.document| then Search(false, m, seen)
    else if d in seen || !g.agree(g.record[r], g.document[d]) then Find(g, m, seen, r, d + 1)
    else if d !in m then Search(true, m[d := r], seen + {d})
    else
      var f := Find(g, m, seen + {d}, m[d], 0);
      if f.ok then Search(true, f.pairedTo[d := r], f.seen) else Find(g, m, f.seen, r, d + 1)
  }

  /**
   * What a search from r keeps, for any stuck set z, when s had been visited before it: a failure
   * visits every word r agrees with and leaves all it visited explored; a success adds r and nobody
   * else, and neither gets out of z nor touches it.
   */
  ghost predicate Keeps(g: Sides, m: map<nat, nat>, s: set<nat>, r: nat, z: set<nat>, f: Search)
  {
    && (!f.ok ==> g.NeighboursIn(r, f.seen) && g.Explored(m, s, f.seen))
    && (f.ok ==> Grown(m, f.pairedTo, s, r) && !g.NeighboursIn(r, z) && Untouched(m, f.pairedTo, z))
  }

  /** Taking a free word keeps all that. */
  lemma KeepsFree(g: Sides, m: map<nat, nat>, s: set<nat>, seen: set<nat>, r: nat, d: nat, z: set<nat>)
    requires g.IsPairing(m) && g.Stuck(m, z) && r !in Held(m, s)
    requires g.Edge(r, d) && d !in m && d !in s
    ensures Keeps(g, m, s, r, z, Search(true, m[d := r], seen))
  {
    TakeFree(m, s, d, r);
  }

  /** So does taking a word its holder has left. */
  lemma KeepsVacated(g: Sides, m: map<nat, nat>, s: set<nat>, seen: set<nat>, r: nat, d: nat, z: set<nat>, f: Search)
    requires g.IsPairing(m) && g.Stuck(m, z) && r !in Held(m, s)
    requires g.Edge(r, d) && d in m && s <= seen && d !in s
    requires f.ok && Keeps(g, m, seen + {d}, m[d], z, f)
    ensures Keeps(g, m, s, r, z, Search(true, f.pairedTo[d := r], f.seen))
  {
    TakeVacated(m, f.pairedTo, s, seen + {d}, d, r);
  }

  lemma {:induction false} FindKeeps(g: Sides, m: map<nat, nat>, s: set<nat>, seen: set<nat>, r: nat, d: nat,
                                     z: set<nat>)
    requires r < |g.record| && d <= |g.document| && r !in Held(m, s)
    requires g.IsPairing(m) && s <= seen <= g.Documents() && g.Explored(m, s, seen) && g.Stuck(m, z)
    requires forall e: nat :: e < d && g.Edge(r, e) ==> e in seen
    ensures Keeps(g, m, s, r, z, Find(g, m, seen, r, d))
    decreases g.Documents() - seen, |g.document| - d
  {
    if d == |g.document| {
    } else if d in seen || !g.agree(g.record[r], g.document[d]) {
      FindKeeps(g, m, s, seen, r, d + 1, z);
    } else if d !in m {
      KeepsFree(g, m, s, seen + {d}, r, d, z);
    } else {
      var s1 := seen + {d};
      FindKeeps(g, m, s1, s1, m[d], 0, z);
      var f := Find(g, m, s1, m[d], 0);
      if f.ok {
        KeepsVacated(g, m, s, seen, r, d, z, f);
      } else {
        ExploredFurther(g, m, s, seen, d, f.seen);
        FindKeeps(g, m, s, f.seen, r, d + 1, z);
      }
    }
  }

  /** The pairing once the first n record words have been searched from, each with nothing visited yet. */
  function Kuhn(g: Sides, n: nat): (m: map<nat, nat>)
    requires n <= |g.record|
    ensures g.Agrees(m)
  {
    if n == 0 then map[] else Find(g, Kuhn(g, n - 1), {}, n - 1, 0).pairedTo
  }

  /** Whatever holds of no pairing at all and is kept by every root holds in the end. */
  lemma {:induction false} KuhnInvariant(g: Sides, inv: (map<nat, nat>, nat) -> bool, n: nat)
    requires n <= |g.record| && inv(map[], 0)
    requires forall m, k: nat :: k < n && g.Agrees(m) && inv(m, k) ==> inv(Find(g, m, {}, k, 0).pairedTo, k + 1)
    ensures inv(Kuhn(g, n), n)
  {
    if n > 0 {
      KuhnInvariant(g, inv, n - 1);
    }
  }

  // ---- Which record words are paired ----

  /** Some pairing uses all of these record words. */
  ghost predicate Coverable(g: Sides, words: set<nat>)
  {
    exists p :: g.IsPairing(p) && words <= p.Values
  }

  /** Of the first n record words in turn, those that can be paired along with all kept before them. */
  ghost function Kept(g: Sides, n: nat): set<nat>
  {
    if n == 0 then {}
    else if Coverable(g, Kept(g, n - 1) + {n - 1}) then Kept(g, n - 1) + {n - 1}
    else Kept(g, n - 1)
  }

  /** The document words a pairing gives to these record words are as many as they are. */
  lemma HoldersSize(p: map<nat, nat>, words: set<nat>, within: set<nat>)
    requires Injective(p, {}) && words <= p.Values
    requires forall d <- p :: p[d] in words ==> d in within
    ensures |words| <= |within|
  {
    var keys := set d | d in p && p[d] in words;
    ImageSize(p, keys);
    assert (set d | d in keys :: p[d]) == words;
    SubsetSize(keys, within);
  }

  /** A word that agrees only with stuck words cannot be paired along with their holders. */
  lemma StuckMeansUncoverable(g: Sides, m: map<nat, nat>, z: set<nat>, r: nat)
    requires g.IsPairing(m) && g.Stuck(m, z) && g.NeighboursIn(r, z) && r !in m.Values
    ensures !Coverable(g, m.Values + {r})
  {
    var holders := set d | d in z :: m[d];
    ImageSize(m, z);
    forall p | g.IsPairing(p) && m.Values + {r} <= p.Values ensures false {
      assert holders <= m.Values;
      forall d | d in p && p[d] in holders + {r} ensures d in z {
        assert g.Edge(p[d], d);
      }
      HoldersSize(p, holders + {r}, z);
    }
  }

  lemma HeldIsValues(m: map<nat, nat>)
    ensures Held(m, {}) == m.Values
  {
  }

  /** One root's failure leaves the stuck set and everything its search visited stuck. */
  lemma StuckUnion(g: Sides, m: map<nat, nat>, z: set<nat>, seen: set<nat>)
    requires g.Stuck(m, z) && g.Explored(m, {}, seen)
    ensures g.Stuck(m, z + seen)
  {
  }

  /** What one root makes of the pairing, and of the stuck set. */
  ghost predicate Rooted(g: Sides, m: map<nat, nat>, z: set<nat>, r: nat, m': map<nat, nat>, z': set<nat>)
  {
    && g.IsPairing(m') && g.Stuck(m', z') && z <= z'
    && m'.Values == m.Values + (if Coverable(g, m.Values + {r}) then {r} else {})
    && (r in m'.Values || g.NeighboursIn(r, z'))
  }

  lemma RootSucceeds(g: Sides, m: map<nat, nat>, r: nat, z: set<nat>, f: Search)
    requires g.IsPairing(m) && g.Stuck(m, z) && f.ok && g.Agrees(f.pairedTo) && Keeps(g, m, {}, r, z, f)
    ensures Rooted(g, m, z, r, f.pairedTo, z)
  {
    HeldIsValues(m);
    HeldIsValues(f.pairedTo);
    assert f.pairedTo.Values == m.Values + {r};
    assert Coverable(g, m.Values + {r});
  }

  lemma RootFails(g: Sides, m: map<nat, nat>, r: nat, z: set<nat>, f: Search)
    requires g.IsPairing(m) && g.Stuck(m, z) && !f.ok && r !in m.Values && Keeps(g, m, {}, r, z, f)
    ensures Rooted(g, m, z, r, m, z + f.seen)
  {
    StuckUnion(g, m, z, f.seen);
    StuckUnion(g, m, {}, f.seen);
    assert {} + f.seen == f.seen;
    StuckMeansUncoverable(g, m, f.seen, r);
    assert m.Values + {} == m.Values;
  }

  lemma OneRoot(g: Sides, m: map<nat, nat>, r: nat, z: set<nat>) returns (z': set<nat>)
    requires g.IsPairing(m) && g.Stuck(m, z) && r < |g.record| && r !in m.Values
    ensures Rooted(g, m, z, r, Find(g, m, {}, r, 0).pairedTo, z')
  {
    var f := Find(g, m, {}, r, 0);
    HeldIsValues(m);
    FindKeeps(g, m, {}, {}, r, 0, z);
    if f.ok {
      RootSucceeds(g, m, r, z, f);
      z' := z;
    } else {
      RootFails(g, m, r, z, f);
      z' := z + f.seen;
    }
  }

  /** After n roots the words paired are those kept, and all that the failed roots agree with is stuck. */
  ghost predicate Done(g: Sides, m: map<nat, nat>, n: nat, z: set<nat>)
  {
    && g.IsPairing(m) && m.Values == Kept(g, n) && g.Stuck(m, z)
    && (forall q <- m.Values :: q < n)
    && (forall q: nat :: q < n ==> q in m.Values || g.NeighboursIn(q, z))
  }

  lemma DoneNext(g: Sides, m: map<nat, nat>, n: nat, z: set<nat>, m': map<nat, nat>, z': set<nat>)
    requires Done(g, m, n, z) && Rooted(g, m, z, n, m', z')
    ensures Done(g, m', n + 1, z')
  {
  }

  lemma NothingDone(g: Sides)
    ensures Done(g, map[], 0, {})
  {
  }

  lemma NextRoot(g: Sides, m: map<nat, nat>, n: nat, z: set<nat>) returns (z': set<nat>)
    requires Done(g, m, n, z) && n < |g.record|
    ensures Done(g, Find(g, m, {}, n, 0).pairedTo, n + 1, z')
  {
    z' := OneRoot(g, m, n, z);
    DoneNext(g, m, n, z, Find(g, m, {}, n, 0).pairedTo, z');
  }

  lemma {:induction false} KuhnKeeps(g: Sides, n: nat) returns (z: set<nat>)
    requires n <= |g.record|
    ensures Done(g, Kuhn(g, n), n, z)
  {
    if n == 0 {
      NothingDone(g);
      z := {};
    } else {
      var z0 := KuhnKeeps(g, n - 1);
      z := NextRoot(g, Kuhn(g, n - 1), n - 1, z0);
    }
  }

  /** The search over all the record words: no pairing is larger, and it pairs the words kept. */
  lemma {:induction false} KuhnIsMaximum(g: Sides)
    ensures g.IsMaximum(Kuhn(g, |g.record|)) && Kuhn(g, |g.record|).Values == Kept(g, |g.record|)
  {
    var z := KuhnKeeps(g, |g.record|);
    var m := Kuhn(g, |g.record|);
    forall other | g.IsPairing(other) ensures |other| <= |m| {
      StuckMeansMaximum(g, m, z, other);
    }
  }

  /** A root is not paired before its turn. */
  lemma {:induction false} Unheld(g: Sides, r: nat)
    requires r < |g.record|
    ensures g.IsPairing(Kuhn(g, r)) && r !in Held(Kuhn(g, r), {})
  {
    var z := KuhnKeeps(g, r);
    HeldIsValues(Kuhn(g, r));
  }

  // ---- The search as it runs ----

  class PairingSearch {
    const g: Sides
    /** Document index to the record index that holds it now. */
    var pairedTo: map<nat, nat>
    /** The document words visited by the search from the current root. */
    var seen: set<nat>

    constructor (g: Sides)
      ensures this.g == g && pairedTo == map[] && seen == {}
    {
      this.g := g;
      pairedTo, seen := map[], {};
    }

    /**
     * Find record word r a document word, moving holders along if need be. `z` is any stuck set:
     * no search can get out of one, and no success touches one.
     */
    method Augment(r: nat, ghost z: set<nat>) returns (ok: bool)
      requires r < |g.record| && r !in Held(pairedTo, seen)
      requires g.IsPairing(pairedTo) && seen <= g.Documents() && g.Stuck(pairedTo, z)
      modifies this
      ensures Search(ok, pairedTo, seen) == Find(g, old(pairedTo), old(seen), r, 0)
      ensures old(seen) <= seen <= g.Documents()
      ensures !ok ==> pairedTo == old(pairedTo)
      ensures !ok ==> g.NeighboursIn(r, seen) && g.Explored(pairedTo, old(seen), seen)
      ensures ok ==> g.Agrees(pairedTo) && Grown(old(pairedTo), pairedTo, old(seen), r)
      ensures ok ==> !g.NeighboursIn(r, z) && Untouched(old(pairedTo), pairedTo, z)
      decreases g.Documents() - seen
    {
      ghost var m, s := pairedTo, seen;
      FindKeeps(g, m, s, s, r, 0, z);
      for d := 0 to |g.document|
        invariant pairedTo == m && s <= seen <= g.Documents()
        invariant Find(g, m, seen, r, d) == Find(g, m, s, r, 0)
      {
        if d in seen || !g.agree(g.record[r], g.document[d]) {
          continue;
        }
        assert g.Edge(r, d);
        seen := seen + {d};
        ok := d !in pairedTo;
        if !ok {
          ok := Augment(pairedTo[d], z);
        }
        if ok {
          pairedTo := pairedTo[d := r];
          return;
        }
      }
      return false;
    }
  }

  /**
   * Kuhn's search over all the record words finds a pairing that no other pairing exceeds. The
   * record words it pairs are fixed by the order of the record alone: each one that can be paired
   * along with all paired before it.
   */
  method MaximumPairing(g: Sides) returns (pairedTo: map<nat, nat>)
    ensures g.IsMaximum(pairedTo)
    ensures pairedTo.Values == Kept(g, |g.record|)
    ensures pairedTo == Kuhn(g, |g.record|)
  {
    var search := new PairingSearch(g);
    for r := 0 to |g.record|
      invariant search.g == g && fresh(search)
      invariant search.pairedTo == Kuhn(g, r)
    {
      search.seen := {};
      Unheld(g, r);
      var ok := search.Augment(r, {});
    }
    pairedTo := search.pairedTo;
    KuhnIsMaximum(g);
  }
}
