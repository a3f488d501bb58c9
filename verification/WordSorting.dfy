/**
 * Putting the words of two names in another order, and carrying a pairing of them along. Used to
 * exhibit orders for which a name comparison comes out one way or the other.
 */
module WordSorting {
  import opened Pairing
  import opened NameMatch

  // ---- Sorting words by rank ----

  function InsertAt<T>(s: seq<T>, k: nat, x: T): (r: seq<T>)
    requires k <= |s|
    ensures |r| == |s| + 1 && r[k] == x
    ensures forall i: nat :: i < |s| ==> r[Shift(i, k)] == s[i]
  {
    s[..k] + [x] + s[k..]
  }

  /** Where everything is once room is made at k for a newcomer. */
  function Place(q: seq<nat>, k: nat): (r: seq<nat>)
    ensures |r| == |q| + 1 && r[|q|] == k
    ensures forall i :: 0 <= i < |q| ==> r[i] == Shift(q[i], k)
  {
    seq(|q|, i requires 0 <= i < |q| => Shift(q[i], k)) + [k]
  }

  /** `back` says what is at each place. */
  ghost predicate Inverse(q: seq<nat>, back: seq<nat>)
  {
    |back| == |q| && forall e :: 0 <= e < |back| ==> back[e] < |q| && q[back[e]] == e
  }

  /** Lower ranks come first, and c of them are of rank 0. */
  ghost predicate Ranked(q: seq<nat>, rank: nat -> nat, c: nat)
  {
    && (forall i :: 0 <= i < |q| ==> q[i] < |q|)
    && (forall i :: 0 <= i < |q| ==> (rank(i) == 0 <==> q[i] < c))
    && (forall i, j :: 0 <= i < |q| && 0 <= j < |q| && rank(i) < rank(j) ==> q[i] < q[j])
  }

  lemma InsertRearranges(words: seq<string>, w: seq<string>, q: seq<nat>, k: nat, x: string)
    requires Rearranges(q, words, w) && k <= |w|
    ensures Rearranges(Place(q, k), words + [x], InsertAt(w, k, x))
  {
  }

  lemma InsertInverts(q: seq<nat>, back: seq<nat>, k: nat)
    requires Inverse(q, back) && k <= |q|
    ensures Inverse(Place(q, k), InsertAt(back, k, |q|))
  {
    var b := InsertAt(back, k, |q|);
    forall e: nat | e < |b| ensures b[e] < |b| && Place(q, k)[b[e]] == e {
      if e != k {
        var i := if e < k then e else e - 1;
        assert e == Shift(i, k) && b[e] == back[i];
      }
    }
  }

  lemma InsertRanked(q: seq<nat>, rank: nat -> nat, c: nat, k: nat)
    requires Ranked(q, rank, c) && c <= |q| && forall i :: rank(i) < 3
    requires k == if rank(|q|) == 0 then 0 else if rank(|q|) == 1 then c else |q|
    ensures Ranked(Place(q, k), rank, if rank(|q|) == 0 then c + 1 else c)
  {
  }

  lemma InsertBag(w: seq<string>, k: nat, x: string)
    requires k <= |w|
    ensures multiset(InsertAt(w, k, x)) == multiset(w) + multiset{x}
  {
    assert w == w[..k] + w[k..];
  }

  /** The words sorted by a rank below 3: `q` says where each went. */
  lemma {:induction false} SortWords(words: seq<string>, rank: nat -> nat)
      returns (words': seq<string>, q: seq<nat>, back: seq<nat>, c: nat)
    requires forall i :: rank(i) < 3
    ensures multiset(words') == multiset(words) && Rearranges(q, words, words')
    ensures |words'| == |words| && c <= |words| && Inverse(q, back) && Ranked(q, rank, c)
  {
    if words == [] {
      words', q, back, c := [], [], [], 0;
    } else {
      var n := |words| - 1;
      var x := words[n];
      var w, q0, b, c0 := SortWords(words[..n], rank);
      var k := if rank(n) == 0 then 0 else if rank(n) == 1 then c0 else n;
      words', q, back := InsertAt(w, k, x), Place(q0, k), InsertAt(b, k, n);
      c := if rank(n) == 0 then c0 + 1 else c0;
      assert words == words[..n] + [x];
      InsertBag(w, k, x);
      InsertRearranges(words[..n], w, q0, k, x);
      InsertInverts(q0, b, k);
      InsertRanked(q0, rank, c0, k);
    }
  }

  // ---- Sorting both sides ----

  /** A record word a followed pairing holds is one it held, in its new place. */
  lemma HeldCame(qr: seq<nat>, qd: seq<nat>, m: map<nat, nat>, m': map<nat, nat>, i: nat) returns (j: nat)
    requires Follows(qr, qd, m, m') && i in m'.Values
    ensures j in m.Values && j < |qr| && qr[j] == i
  {
    var e :| e in m' && m'[e] == i;
    var d :| d in m && d < |qd| && qd[d] == e;
    j := m[d];
  }

  lemma HeldGoes(qr: seq<nat>, qd: seq<nat>, m: map<nat, nat>, m': map<nat, nat>, j: nat)
    requires Follows(qr, qd, m, m') && j in m.Values
    ensures j < |qr| && qr[j] in m'.Values
  {
    var d :| d in m && m[d] == j;
    assert m'[qd[d]] == qr[j];
  }

  lemma RankedAt(q: seq<nat>, rank: nat -> nat, c: nat, i: nat, j: nat)
    requires Ranked(q, rank, c) && i < |q| && j < |q| && rank(i) < rank(j)
    ensures q[i] < q[j]
  {
  }

  /** How g' arises from g by sorting both sides, and p' from p by following the words. */
  datatype Arrangement = Arrangement(
    g: Sides, p: map<nat, nat>, qr: seq<nat>, qd: seq<nat>, br: seq<nat>, bd: seq<nat>, cr: nat, cd: nat)

  /** One side sorted by a rank. */
  ghost predicate SideSorted(words: seq<string>, words': seq<string>, q: seq<nat>, back: seq<nat>,
                             rank: nat -> nat, c: nat)
  {
    Rearranges(q, words, words') && Inverse(q, back) && Ranked(q, rank, c) && |words'| == |words|
  }

  ghost predicate Arranged(g: Sides, p: map<nat, nat>, byRecord: nat -> nat, byDocument: nat -> nat, a: Arrangement)
  {
    && Reorders(g, a.g) && a.g.IsPairing(a.p) && |a.p| == |p| && Follows(a.qr, a.qd, p, a.p)
    && SideSorted(g.record, a.g.record, a.qr, a.br, byRecord, a.cr)
    && SideSorted(g.document, a.g.document, a.qd, a.bd, byDocument, a.cd)
  }

  lemma Arrange(g: Sides, p: map<nat, nat>, byRecord: nat -> nat, byDocument: nat -> nat) returns (a: Arrangement)
    requires g.IsPairing(p) && forall i: nat :: byRecord(i) < 3 && byDocument(i) < 3
    ensures Arranged(g, p, byRecord, byDocument, a)
  {
    var record, qr, br, cr := SortWords(g.record, byRecord);
    var document, qd, bd, cd := SortWords(g.document, byDocument);
    var g' := Sides(record, document, g.agree);
    var p' := Follow(g, g', qr, qd, p);
    a := Arrangement(g', p', qr, qd, br, bd, cr, cd);
  }

  /** A pair follows its words, which are the same words still. */
  lemma PairFollows(g: Sides, p: map<nat, nat>, g': Sides, p': map<nat, nat>, qr: seq<nat>, qd: seq<nat>, d: nat)
    requires Follows(qr, qd, p, p') && d in p
    requires Rearranges(qr, g.record, g'.record) && Rearranges(qd, g.document, g'.document)
    ensures d < |qd| && p[d] < |qr| && qr[p[d]] < |g'.record| && qd[d] < |g'.document|
    ensures qd[d] in p' && p'[qd[d]] == qr[p[d]]
    ensures g'.record[qr[p[d]]] == g.record[p[d]] && g'.document[qd[d]] == g.document[d]
  {
  }
}
