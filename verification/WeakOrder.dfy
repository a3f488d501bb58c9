/**
 * An order of the words that is graded WEAK (packages/shared/src/name-match.ts). With initials
 * first on both sides, each search pushes the words of one letter along the document words of that
 * letter, one place each, and never comes to pair two written-out words.
 */
module WeakOrder {
  import opened Pairing
  import opened NameMatch
  import opened StrongOrder
  import opened WordSorting

  /** An initial is held to its first letter and to nothing else. */
  ghost predicate InitialsByLetter(agree: (string, string) -> bool)
  {
    forall a, b :: IsInitial(a) || IsInitial(b) ==> (agree(a, b) <==> SameFirstLetter(a, b))
  }

  lemma WordsAgreeByLetter()
    ensures InitialsByLetter(WordsAgree)
  {
  }

  predicate Starts(word: string, letter: char) { word != "" && word[0] == letter }

  /** Document word d begins with the letter. */
  predicate InClass(g: Sides, letter: char, d: nat)
  {
    d < |g.document| && Starts(g.document[d], letter)
  }

  predicate IsReal(g: Sides, r: nat) { r < |g.record| && !IsInitial(g.record[r]) }

  /** Document words of one letter are held from the first on. */
  ghost predicate HeldInOrder(g: Sides, m: map<nat, nat>)
  {
    forall letter, d: nat, e: nat :: InClass(g, letter, d) && InClass(g, letter, e) && d < e && e in m ==> d in m
  }

  /** Of the document words of one letter outside `seen`, those with written-out holders come first. */
  ghost predicate RealsFirst(g: Sides, m: map<nat, nat>, letter: char, seen: set<nat>)
  {
    forall d: nat, e: nat ::
      InClass(g, letter, d) && InClass(g, letter, e) && d < e && d !in seen && d in m && e in m && IsReal(g, m[e])
      ==> IsReal(g, m[d])
  }

  /** What every root keeps. */
  ghost predicate Neat(g: Sides, m: map<nat, nat>)
  {
    && !RestsOnARealWord(g, m)
    && HeldInOrder(g, m)
    && forall letter :: RealsFirst(g, m, letter, {})
  }

  /** Initials come before written-out words on both sides, and p pairs the first words without resting on any. */
  ghost predicate WeaklyOrdered(g: Sides, p: map<nat, nat>)
  {
    && InitialsByLetter(g.agree) && g.IsPairing(p) && !RestsOnARealWord(g, p) && IsFirst(p.Values, |p|)
    && (forall i: nat, j: nat :: i < j && j in p.Values && IsReal(g, i) ==> IsReal(g, j))
    && (forall d: nat, e: nat :: d < e < |g.document| && !IsInitial(g.document[d]) ==> !IsInitial(g.document[e]))
  }

  /** Words of a pairing that rests on no written-out word begin with one letter. */
  lemma PairLetter(g: Sides, m: map<nat, nat>, d: nat)
    requires InitialsByLetter(g.agree) && g.Agrees(m) && !RestsOnARealWord(g, m) && d in m
    ensures d < |g.document| && m[d] < |g.record|
    ensures !IsReal(g, m[d]) || IsInitial(g.document[d])
    ensures SameFirstLetter(g.record[m[d]], g.document[d])
  {
    assert g.Edge(m[d], d);
    assert !IsRealPair(g, m[d], d);
  }

  /** Root n is to be searched from, the words before it being paired. */
  ghost predicate Stage(g: Sides, p: map<nat, nat>, m: map<nat, nat>, n: nat, letter: char)
  {
    && WeaklyOrdered(g, p) && g.IsPairing(m) && Neat(g, m)
    && IsFirst(m.Values, n) && n in p.Values && n < |g.record| && Starts(g.record[n], letter)
  }

  /**
   * The search stands at r, having pushed along the document words of the letter up to `last`,
   * whose holder r is.
   */
  ghost predicate Chain(g: Sides, m: map<nat, nat>, n: nat, letter: char, seen: set<nat>, r: nat, last: nat)
  {
    && r < |g.record| && Starts(g.record[r], letter)
    && (forall e <- seen :: InClass(g, letter, e) && e in m)
    && (forall c: nat, e: nat :: e in seen && c < e && InClass(g, letter, c) ==> c in seen)
    && (seen == {} ==> r == n)
    && (seen != {} ==> last in seen && last in m && m[last] == r && forall e <- seen :: e <= last)
  }

  // ---- There is always room ----

  /** With every one of these document words held, p has no room in them for their holders and n. */
  lemma NoRoom(p: map<nat, nat>, m: map<nat, nat>, n: nat, places: set<nat>)
    requires Injective(p, {}) && Injective(m, {}) && n in p.Values && n !in m.Values
    requires forall d <- places :: d in m && m[d] in p.Values
    ensures exists d :: d in p && d !in places && (p[d] == n || exists e :: e in places && m[e] == p[d])
  {
    var holders := set d | d in places :: m[d];
    ImageSize(m, places);
    if forall d <- p :: p[d] in holders + {n} ==> d in places {
      HoldersSize(p, holders + {n}, places);
    }
  }

  lemma HolderInP(g: Sides, p: map<nat, nat>, m: map<nat, nat>, n: nat, letter: char, d: nat)
    requires Stage(g, p, m, n, letter) && d in m
    ensures m[d] in p.Values && m[d] < n
  {
    assert m[d] in m.Values;
  }

  /** p pairs a word with one of its letter, and a written-out word with an initial. */
  lemma PairedInClass(g: Sides, m: map<nat, nat>, letter: char, d: nat)
    requires InitialsByLetter(g.agree) && g.Agrees(m) && !RestsOnARealWord(g, m) && d in m
    ensures m[d] < |g.record| && (Starts(g.record[m[d]], letter) <==> InClass(g, letter, d))
    ensures IsReal(g, m[d]) ==> d < |g.document| && IsInitial(g.document[d])
  {
    PairLetter(g, m, d);
  }

  /** Some word of the letter, n or a holder of one of these places, is paired by p outside them. */
  lemma PairedOutside(g: Sides, p: map<nat, nat>, m: map<nat, nat>, n: nat, letter: char, places: set<nat>)
      returns (d: nat)
    requires Stage(g, p, m, n, letter) && forall e <- places :: e in m && InClass(g, letter, e)
    ensures d in p && d !in places && InClass(g, letter, d)
    ensures p[d] == n || exists e :: e in places && m[e] == p[d]
  {
    forall e | e in places ensures m[e] in p.Values {
      HolderInP(g, p, m, n, letter, e);
    }
    NoRoom(p, m, n, places);
    d :| d in p && d !in places && (p[d] == n || exists e :: e in places && m[e] == p[d]);
    PairedInClass(g, p, letter, d);
    if p[d] != n {
      var e :| e in places && m[e] == p[d];
      PairedInClass(g, m, letter, e);
    }
  }

  /** Not every document word of the letter is held. */
  lemma SomeFree(g: Sides, p: map<nat, nat>, m: map<nat, nat>, n: nat, letter: char)
    requires Stage(g, p, m, n, letter)
    ensures exists d: nat :: InClass(g, letter, d) && d !in m
  {
    if forall d: nat :: InClass(g, letter, d) ==> d in m {
      var places := set d | d in g.Documents() && InClass(g, letter, d);
      var d := PairedOutside(g, p, m, n, letter, places);
    }
  }

  /** Behind a written-out word the chain holds only written-out words, and the root is one too. */
  lemma RealsBehind(g: Sides, p: map<nat, nat>, m: map<nat, nat>, n: nat, letter: char,
                    seen: set<nat>, r: nat, last: nat)
    requires Stage(g, p, m, n, letter) && Chain(g, m, n, letter, seen, r, last) && IsReal(g, r)
    ensures IsReal(g, n) && forall d <- seen :: d in m && IsReal(g, m[d])
  {
    if seen != {} {
      HolderInP(g, p, m, n, letter, last);
      assert RealsFirst(g, m, letter, {});
    }
  }

  /** A written-out word at the end of the chain has an initial of its letter ahead of it. */
  lemma SomeInitialAhead(g: Sides, p: map<nat, nat>, m: map<nat, nat>, n: nat, letter: char,
                         seen: set<nat>, r: nat, last: nat)
    requires Stage(g, p, m, n, letter) && Chain(g, m, n, letter, seen, r, last) && IsReal(g, r)
    ensures exists d: nat :: InClass(g, letter, d) && IsInitial(g.document[d]) && d !in seen
  {
    if forall d: nat :: InClass(g, letter, d) && IsInitial(g.document[d]) ==> d in seen {
      var places := set d | d in g.Documents() && InClass(g, letter, d) && IsInitial(g.document[d]);
      RealsBehind(g, p, m, n, letter, seen, r, last);
      var d := PairedOutside(g, p, m, n, letter, places);
      PairedInClass(g, p, letter, d);
    }
  }

  // ---- One search ----

  /** Everything of the letter before document word d has been visited. */
  ghost predicate UpTo(g: Sides, letter: char, seen: set<nat>, d: nat)
  {
    forall c: nat :: c < d && InClass(g, letter, c) ==> c in seen
  }

  /** The next document word r agrees with is the next of its letter, and not a second written-out word. */
  lemma NextOfLetter(g: Sides, p: map<nat, nat>, m: map<nat, nat>, n: nat, letter: char,
                     seen: set<nat>, r: nat, last: nat, d: nat)
    requires Stage(g, p, m, n, letter) && Chain(g, m, n, letter, seen, r, last)
    requires UpTo(g, letter, seen, d) && d < |g.document| && d !in seen
    ensures g.agree(g.record[r], g.document[d]) <==> InClass(g, letter, d)
    ensures !IsRealPair(g, r, d)
  {
    if IsRealPair(g, r, d) {
      SomeInitialAhead(g, p, m, n, letter, seen, r, last);
    }
  }

  /** What a search from r makes of the pairing. */
  ghost predicate Pushed(g: Sides, m: map<nat, nat>, m': map<nat, nat>, letter: char, seen: set<nat>, r: nat)
  {
    && !RestsOnARealWord(g, m') && HeldInOrder(g, m') && RealsFirst(g, m', letter, seen)
    && (!IsReal(g, r) ==> forall e: nat :: InClass(g, letter, e) && e !in seen && e in m' ==> !IsReal(g, m'[e]))
    && (forall e: nat :: e in seen || !InClass(g, letter, e) ==>
          (e in m' <==> e in m) && (e in m ==> m'[e] == m[e]))
  }

  lemma PushFree(g: Sides, m: map<nat, nat>, letter: char, seen: set<nat>, r: nat, d: nat)
    requires Neat(g, m) && InClass(g, letter, d) && d !in seen && d !in m && !IsRealPair(g, r, d)
    requires UpTo(g, letter, seen, d) && forall e <- seen :: e in m
    ensures Pushed(g, m, m[d := r], letter, seen, r)
  {
  }

  lemma PushHeld(g: Sides, m: map<nat, nat>, m1: map<nat, nat>, letter: char, seen: set<nat>, r: nat, d: nat)
    requires Neat(g, m) && InClass(g, letter, d) && d !in seen && d in m && !IsRealPair(g, r, d)
    requires UpTo(g, letter, seen, d) && (forall e <- seen :: e < d)
    requires !IsReal(g, r) ==> !IsReal(g, m[d])
    requires Pushed(g, m, m1, letter, seen + {d}, m[d])
    ensures Pushed(g, m, m1[d := r], letter, seen, r)
  {
  }

  /** Ahead of an initial the chain meets only initials. */
  lemma InitialsAhead(g: Sides, p: map<nat, nat>, m: map<nat, nat>, n: nat, letter: char,
                      seen: set<nat>, r: nat, last: nat, d: nat)
    requires Stage(g, p, m, n, letter) && Chain(g, m, n, letter, seen, r, last) && !IsReal(g, r)
    requires InClass(g, letter, d) && d !in seen && d in m
    ensures !IsReal(g, m[d])
  {
    HolderInP(g, p, m, n, letter, d);
    assert RealsFirst(g, m, letter, {});
  }

  /** Visiting the next word of the letter carries the chain on to its holder. */
  lemma ChainMoves(g: Sides, p: map<nat, nat>, m: map<nat, nat>, n: nat, letter: char,
                   seen: set<nat>, r: nat, last: nat, d: nat)
    requires Stage(g, p, m, n, letter) && Chain(g, m, n, letter, seen, r, last)
    requires UpTo(g, letter, seen, d) && InClass(g, letter, d) && d !in seen && d in m
    ensures Chain(g, m, n, letter, seen + {d}, m[d], d)
    ensures forall e <- seen :: e < d
    ensures !IsReal(g, r) ==> !IsReal(g, m[d])
  {
    PairedInClass(g, m, letter, d);
    if !IsReal(g, r) {
      InitialsAhead(g, p, m, n, letter, seen, r, last, d);
    }
  }

  /** The words of the letter do not run out. */
  lemma ChainEnds(g: Sides, p: map<nat, nat>, m: map<nat, nat>, n: nat, letter: char,
                  seen: set<nat>, r: nat, last: nat)
    requires Stage(g, p, m, n, letter) && Chain(g, m, n, letter, seen, r, last)
    ensures !UpTo(g, letter, seen, |g.document|)
  {
    SomeFree(g, p, m, n, letter);
  }

  /** Where the search is at document word d, in the terms of the chain. */
  ghost predicate At(g: Sides, p: map<nat, nat>, m: map<nat, nat>, n: nat, letter: char,
                     seen: set<nat>, r: nat, last: nat, d: nat)
  {
    && Stage(g, p, m, n, letter) && Chain(g, m, n, letter, seen, r, last)
    && seen <= g.Documents() && d <= |g.document| && UpTo(g, letter, seen, d)
  }

  lemma Skips(g: Sides, p: map<nat, nat>, m: map<nat, nat>, n: nat, letter: char,
              seen: set<nat>, r: nat, last: nat, d: nat)
    requires At(g, p, m, n, letter, seen, r, last, d) && d < |g.document|
    requires d in seen || !InClass(g, letter, d)
    ensures At(g, p, m, n, letter, seen, r, last, d + 1)
    ensures d in seen || !g.agree(g.record[r], g.document[d])
  {
    if d !in seen {
      NextOfLetter(g, p, m, n, letter, seen, r, last, d);
    }
  }

  lemma Visits(g: Sides, p: map<nat, nat>, m: map<nat, nat>, n: nat, letter: char,
               seen: set<nat>, r: nat, last: nat, d: nat)
    requires At(g, p, m, n, letter, seen, r, last, d) && InClass(g, letter, d) && d !in seen
    ensures g.agree(g.record[r], g.document[d])
    ensures d !in m ==> Pushed(g, m, m[d := r], letter, seen, r)
    ensures d in m ==> At(g, p, m, n, letter, seen + {d}, m[d], d, 0)
    ensures d in m ==> forall m1 ::
      Pushed(g, m, m1, letter, seen + {d}, m[d]) ==> Pushed(g, m, m1[d := r], letter, seen, r)
  {
    NextOfLetter(g, p, m, n, letter, seen, r, last, d);
    if d !in m {
      PushFree(g, m, letter, seen, r, d);
    } else {
      ChainMoves(g, p, m, n, letter, seen, r, last, d);
      forall m1 | Pushed(g, m, m1, letter, seen + {d}, m[d]) ensures Pushed(g, m, m1[d := r], letter, seen, r) {
        PushHeld(g, m, m1, letter, seen, r, d);
      }
    }
  }

  /** The search from r succeeds, and pushes the words of its letter along. */
  lemma {:induction false} ChainFinds(g: Sides, p: map<nat, nat>, m: map<nat, nat>, n: nat, letter: char,
                                      seen: set<nat>, r: nat, last: nat, d: nat)
    requires At(g, p, m, n, letter, seen, r, last, d)
    ensures var f := Find(g, m, seen, r, d); f.ok && Pushed(g, m, f.pairedTo, letter, seen, r)
    decreases g.Documents() - seen, |g.document| - d
  {
    if d == |g.document| {
      ChainEnds(g, p, m, n, letter, seen, r, last);
    } else if d in seen || !InClass(g, letter, d) {
      Skips(g, p, m, n, letter, seen, r, last, d);
      ChainFinds(g, p, m, n, letter, seen, r, last, d + 1);
    } else {
      Visits(g, p, m, n, letter, seen, r, last, d);
      if d in m {
        ChainFinds(g, p, m, n, letter, seen + {d}, m[d], d, 0);
      }
    }
  }

  /** One root keeps the pairing neat. */
  lemma {:induction false} RootKeepsNeat(g: Sides, p: map<nat, nat>, m: map<nat, nat>, n: nat, letter: char)
    requires Stage(g, p, m, n, letter)
    ensures Neat(g, Find(g, m, {}, n, 0).pairedTo)
  {
    ChainFinds(g, p, m, n, letter, {}, n, 0, 0);
    PushedIsNeat(g, m, Find(g, m, {}, n, 0).pairedTo, letter, n);
  }

  lemma PushedIsNeat(g: Sides, m: map<nat, nat>, m': map<nat, nat>, letter: char, n: nat)
    requires Neat(g, m) && Pushed(g, m, m', letter, {}, n)
    ensures Neat(g, m')
  {
    forall other ensures RealsFirst(g, m', other, {}) {
      assert RealsFirst(g, m, other, {});
    }
  }

  lemma {:induction false} NextIsNeat(g: Sides, p: map<nat, nat>, m: map<nat, nat>, n: nat)
    requires WeaklyOrdered(g, p) && n < |p| && n < |g.record|
    requires Neat(g, m) && g.IsPairing(m) && IsFirst(m.Values, n)
    ensures Neat(g, Find(g, m, {}, n, 0).pairedTo)
  {
    var letter := NextLetter(g, p, n);
    RootKeepsNeat(g, p, m, n, letter);
  }

  lemma NothingIsNeat(g: Sides)
    ensures NeatlyFirst(g, map[], 0)
  {
  }

  /** A root that keeps the pairing neat, and holding the first words. */
  ghost predicate NeatlyFirst(g: Sides, m: map<nat, nat>, n: nat)
  {
    Neat(g, m) && g.IsPairing(m) && IsFirst(m.Values, n)
  }

  lemma NextHoldsFirst(g: Sides, p: map<nat, nat>, m: map<nat, nat>, n: nat)
    requires g.IsPairing(p) && g.IsPairing(m) && IsFirst(m.Values, n) && n < |g.record|
    requires forall i: nat :: i <= n ==> i in p.Values
    ensures var m' := Find(g, m, {}, n, 0).pairedTo; g.IsPairing(m') && IsFirst(m'.Values, n + 1)
  {
    OneMore(g, p, m.Values, n);
    var z := OneRoot(g, m, n, {});
  }

  lemma NextNeatlyFirst(g: Sides, p: map<nat, nat>, m: map<nat, nat>, n: nat)
    requires WeaklyOrdered(g, p) && n < |p| && n < |g.record| && NeatlyFirst(g, m, n)
    ensures NeatlyFirst(g, Find(g, m, {}, n, 0).pairedTo, n + 1)
  {
    NextHoldsFirst(g, p, m, n);
    NextIsNeat(g, p, m, n);
  }

  ghost function Neatness(g: Sides): (map<nat, nat>, nat) -> bool
  {
    (m: map<nat, nat>, k: nat) => NeatlyFirst(g, m, k)
  }

  lemma {:induction false} NeatnessIsKept(g: Sides, p: map<nat, nat>)
    requires WeaklyOrdered(g, p) && |p| <= |g.record|
    ensures Neatness(g)(map[], 0)
    ensures forall m, k: nat :: k < |p| && g.Agrees(m) && Neatness(g)(m, k) ==>
      Neatness(g)(Find(g, m, {}, k, 0).pairedTo, k + 1)
  {
    NothingIsNeat(g);
    forall m, k: nat | k < |p| && g.Agrees(m) && Neatness(g)(m, k)
      ensures Neatness(g)(Find(g, m, {}, k, 0).pairedTo, k + 1)
    {
      NextNeatlyFirst(g, p, m, k);
    }
  }

  lemma {:induction false} KuhnIsNeat(g: Sides, p: map<nat, nat>)
    requires WeaklyOrdered(g, p) && |p| <= |g.record|
    ensures Neatness(g)(Kuhn(g, |p|), |p|)
  {
    NeatnessIsKept(g, p);
    KuhnInvariant(g, Neatness(g), |p|);
  }

  lemma NextLetter(g: Sides, p: map<nat, nat>, n: nat) returns (letter: char)
    requires WeaklyOrdered(g, p) && n < |p|
    ensures n in p.Values && n < |g.record| && Starts(g.record[n], letter)
  {
    assert n in p.Values;
    var d :| d in p && p[d] == n;
    PairLetter(g, p, d);
    letter := g.record[n][0];
  }

  /** In such an order the grade is WEAK. */
  lemma FoundWeak(g: Sides, p: map<nat, nat>)
    requires WeaklyOrdered(g, p) && IsFull(g, p)
    requires g.record != [] && g.document != [] && multiset(g.record) != multiset(g.document)
    ensures GradeOf(g) == Weak
  {
    FirstDecide(g, p);
    KuhnIsNeat(g, p);
  }

  // ---- Putting the words in such an order ----

  /** The paired initials, the paired written-out words, and then the rest. */
  function InitialsThenPaired(g: Sides, paired: set<nat>): nat -> nat
  {
    (i: nat) => if i !in paired then 2 else if IsReal(g, i) then 1 else 0
  }

  function InitialsFirst(g: Sides): nat -> nat
  {
    (d: nat) => if d < |g.document| && !IsInitial(g.document[d]) then 1 else 0
  }

  ghost predicate IsClosed(s: set<nat>)
  {
    forall j: nat :: j + 1 in s ==> j in s
  }

  lemma {:induction false} ClosedBelow(s: set<nat>, i: nat, j: nat)
    requires IsClosed(s) && i <= j && j in s
    ensures i in s
  {
    if i < j {
      assert j - 1 + 1 in s;
      ClosedBelow(s, i, j - 1);
    }
  }

  /** A set with everything below each of its members is that of the first indices. */
  lemma DownClosed(s: set<nat>)
    requires IsClosed(s)
    ensures IsFirst(s, |s|)
  {
    var k := |s|;
    forall j | j in s ensures j < k {
      forall i | i in Below(j + 1) ensures i in s {
        ClosedBelow(s, i, j);
      }
      SubsetSize(Below(j + 1), s);
    }
    forall i: nat | i < k ensures i in s {
      if i !in s {
        forall j | j in s ensures j in Below(i) {
          if i <= j { ClosedBelow(s, i, j); }
        }
        SubsetSize(s, Below(i));
      }
    }
  }

  /** Where a word came from: the same word, of a rank that its place shows. */
  lemma CameFrom(words: seq<string>, words': seq<string>, q: seq<nat>, back: seq<nat>, rank: nat -> nat, c: nat,
                 i: nat, j: nat)
    requires SideSorted(words, words', q, back, rank, c) && i < j < |q|
    ensures back[i] < |words| && back[j] < |words| && j < |words'|
    ensures words'[i] == words[back[i]] && words'[j] == words[back[j]]
    ensures rank(back[i]) <= rank(back[j])
  {
    assert q[back[i]] == i && q[back[j]] == j;
  }

  lemma RankTells(g: Sides, paired: set<nat>, i: nat, j: nat)
    requires InitialsThenPaired(g, paired)(i) <= InitialsThenPaired(g, paired)(j) && j in paired
    ensures i in paired && (IsReal(g, i) ==> IsReal(g, j))
  {
  }

  lemma InverseAt(words: seq<string>, words': seq<string>, q: seq<nat>, back: seq<nat>, rank: nat -> nat, c: nat,
                  k: nat)
    requires SideSorted(words, words', q, back, rank, c) && k < |q|
    ensures q[k] < |q| && back[q[k]] == k
  {
    assert q[back[q[k]]] == q[k];
  }

  /** The record side of such an arrangement. */
  ghost predicate RecordSorted(g: Sides, p: map<nat, nat>, a: Arrangement)
  {
    && Follows(a.qr, a.qd, p, a.p)
    && SideSorted(g.record, a.g.record, a.qr, a.br, InitialsThenPaired(g, p.Values), a.cr)
  }

  lemma PairedBefore(g: Sides, p: map<nat, nat>, a: Arrangement, i: nat, j: nat)
    requires RecordSorted(g, p, a) && i < j && j in a.p.Values
    ensures i in a.p.Values && (IsReal(a.g, i) ==> IsReal(a.g, j))
  {
    var rank := InitialsThenPaired(g, p.Values);
    var k := HeldCame(a.qr, a.qd, p, a.p, j);
    InverseAt(g.record, a.g.record, a.qr, a.br, rank, a.cr, k);
    CameFrom(g.record, a.g.record, a.qr, a.br, rank, a.cr, i, j);
    RankTells(g, p.Values, a.br[i], k);
    HeldGoes(a.qr, a.qd, p, a.p, a.br[i]);
  }

  lemma InitialsBefore(g: Sides, a: Arrangement, d: nat, e: nat)
    requires SideSorted(g.document, a.g.document, a.qd, a.bd, InitialsFirst(g), a.cd)
    requires d < e < |a.g.document| && !IsInitial(a.g.document[d])
    ensures !IsInitial(a.g.document[e])
  {
    CameFrom(g.document, a.g.document, a.qd, a.bd, InitialsFirst(g), a.cd, d, e);
  }

  lemma ClosedArranged(g: Sides, p: map<nat, nat>, a: Arrangement)
    requires RecordSorted(g, p, a)
    ensures IsClosed(a.p.Values)
  {
    forall j: nat | j + 1 in a.p.Values ensures j in a.p.Values {
      PairedBefore(g, p, a, j, j + 1);
    }
  }

  lemma WeaklyArranged(g: Sides, p: map<nat, nat>, a: Arrangement)
    requires InitialsByLetter(g.agree) && !RestsOnARealWord(g, p)
    requires Arranged(g, p, InitialsThenPaired(g, p.Values), InitialsFirst(g), a)
    ensures WeaklyOrdered(a.g, a.p)
  {
    ClosedArranged(g, p, a);
    DownClosed(a.p.Values);
    ValuesSize(a.p);
    FollowsRests(g, a.g, a.qr, a.qd, p, a.p);
    forall i: nat, j: nat | i < j && j in a.p.Values && IsReal(a.g, i) ensures IsReal(a.g, j) {
      PairedBefore(g, p, a, i, j);
    }
    forall d: nat, e: nat | d < e < |a.g.document| && !IsInitial(a.g.document[d]) ensures !IsInitial(a.g.document[e]) {
      InitialsBefore(g, a, d, e);
    }
  }

  lemma ValuesSize(p: map<nat, nat>)
    requires Injective(p, {})
    ensures |p.Values| == |p|
  {
    HeldSize(p, {});
    HeldIsValues(p);
    assert p.Keys - {} == p.Keys && |p.Keys| == |p|;
  }

  /** Any full pairing that rests on no written-out word has an order of the words that is graded WEAK. */
  lemma WeakOrderExists(g: Sides, p: map<nat, nat>) returns (g': Sides)
    requires InitialsByLetter(g.agree) && IsFull(g, p) && !RestsOnARealWord(g, p)
    requires g.record != [] && g.document != [] && multiset(g.record) != multiset(g.document)
    ensures Reorders(g, g') && GradeOf(g') == Weak
  {
    var a := Arrange(g, p, InitialsThenPaired(g, p.Values), InitialsFirst(g));
    g' := a.g;
    SameLengths(g, g');
    WeaklyArranged(g, p, a);
    FoundWeak(g', a.p);
  }
}
