/**
 * Grading how well two names, each given as a list of words, corroborate each other
 * (packages/shared/src/name-match.ts).
 */
module NameMatch {
  import opened Pairing
  import TextDistance

  const FUZZY_MIN_LENGTH := 5

  const ABBREVIATIONS: map<string, string> := map[
    "MD" := "MOHAMMED", "MOHD" := "MOHAMMED", "MHD" := "MOHAMMED", "MUHD" := "MOHAMMED",
    "MOHAMED" := "MOHAMMED", "MUHAMMAD" := "MOHAMMED", "MOHAMMAD" := "MOHAMMED"
  ]

  /** Listed short forms written out in full; any other word unchanged. */
  function Expand(word: string): string
  {
    if word in ABBREVIATIONS then ABBREVIATIONS[word] else word
  }

  predicate IsInitial(word: string) { |word| == 1 }

  predicate SameFirstLetter(a: string, b: string) { a != "" && b != "" && a[0] == b[0] }

  predicate TooShortToBlur(a: string, b: string) { |a| < FUZZY_MIN_LENGTH || |b| < FUZZY_MIN_LENGTH }

  /** The test two words must pass to be paired. */
  predicate WordsAgree(a: string, b: string)
  {
    if a == b then true
    else if IsInitial(a) || IsInitial(b) then SameFirstLetter(a, b)
    else
      var left, right := Expand(a), Expand(b);
      left == right || (!TooShortToBlur(left, right) && TextDistance.Osa(left, right, true) <= 1)
  }

  /** The agreement test as computed, over the bounded distance. */
  method TestWords(a: string, b: string) returns (agree: bool)
    ensures agree == WordsAgree(a, b)
  {
    if a == b {
      return true;
    }
    if IsInitial(a) || IsInitial(b) {
      return SameFirstLetter(a, b);
    }
    var left, right := Expand(a), Expand(b);
    if left == right {
      return true;
    }
    if TooShortToBlur(left, right) {
      return false;
    }
    var distance := TextDistance.EditDistance(left, right, 1, true);
    return distance <= 1;
  }

  ghost predicate Reflexive(agree: (string, string) -> bool)
  {
    forall a :: agree(a, a)
  }

  ghost predicate Symmetric(agree: (string, string) -> bool)
  {
    forall a, b :: agree(a, b) == agree(b, a)
  }

  /** Agreement does not depend on which side a word is on, fuzzy spelling included. */
  lemma WordsAgreeSymmetric(a: string, b: string)
    ensures WordsAgree(a, b) == WordsAgree(b, a)
  {
    TextDistance.OsaSymmetric(Expand(a), Expand(b), true);
  }

  // ---- What the agreement rule comes to ----

  /** The short forms of one name that rosters use. */
  const SHORT_FORMS: set<string> := {"MD", "MOHD", "MHD", "MUHD", "MOHAMED", "MUHAMMAD", "MOHAMMAD"}

  /** At most one letter inserted, dropped, mistaken or exchanged with its neighbour turns a into b. */
  ghost predicate OneSlipApart(a: string, b: string)
  {
    exists script :: TextDistance.Copies(script, a, b, true) && TextDistance.Cost(script) <= 1
  }

  lemma ListedForms(word: string)
    ensures word in ABBREVIATIONS <==> word in SHORT_FORMS
    ensures word in SHORT_FORMS ==> Expand(word) == "MOHAMMED"
  {
  }

  /**
   * Two different written-out words, neither of them a listed short form: with four letters or fewer
   * on either side they never agree, and with five or more on both they agree exactly when one slip
   * joins them.
   */
  lemma FullWordsAgree(a: string, b: string)
    requires a != b && |a| != 1 && |b| != 1 && a !in SHORT_FORMS && b !in SHORT_FORMS
    ensures |a| <= 4 || |b| <= 4 ==> !WordsAgree(a, b)
    ensures |a| >= 5 && |b| >= 5 ==> (WordsAgree(a, b) <==> OneSlipApart(a, b))
  {
    ListedForms(a);
    ListedForms(b);
    TextDistance.WithinBudget(a, b, true, 1);
  }

  /** A listed short form agrees with any other word but an initial exactly as the full name does. */
  lemma ShortFormsAgree(form: string, word: string)
    requires form in SHORT_FORMS && |word| != 1
    ensures WordsAgree(form, word) <==>
      word == "MOHAMMED" || word in SHORT_FORMS || (|word| >= 5 && OneSlipApart("MOHAMMED", word))
  {
    ListedForms(form);
    ListedForms(word);
    TextDistance.WithinBudget("MOHAMMED", word, true, 1);
  }

  /** A single letter agrees with exactly the words that begin with it, on either side. */
  lemma InitialsAgree(letter: char, word: string)
    ensures WordsAgree([letter], word) <==> word != "" && word[0] == letter
    ensures WordsAgree(word, [letter]) <==> word != "" && word[0] == letter
  {
  }

  // ---- Grades ----

  datatype Grade = Exact | Strong | Weak | Mismatch

  datatype NameComparison = NameComparison(
    grade: Grade, unmatchedOnRecord: seq<string>, unmatchedOnDocument: seq<string>)

  function Shorter(g: Sides): nat
  {
    if |g.record| <= |g.document| then |g.record| else |g.document|
  }

  /** Both sides have words, and every word of the shorter side can be accounted for at once. */
  ghost predicate Corroborated(g: Sides)
  {
    && g.record != [] && g.document != []
    && exists m :: IsFull(g, m)
  }

  /** The words from index i on whose index is not in `used`, in order. */
  function Unused(words: seq<string>, used: set<nat>, i: nat): (rest: seq<string>)
    requires i <= |words|
    decreases |words| - i
  {
    if i == |words| then []
    else if i in used then Unused(words, used, i + 1)
    else [words[i]] + Unused(words, used, i + 1)
  }

  /** What is left over are the words at the places not used, each once and in order. */
  lemma {:induction false} UnusedExactly(words: seq<string>, used: set<nat>, i: nat) returns (at: seq<nat>)
    requires i <= |words|
    ensures |Unused(words, used, i)| == |at|
    ensures forall k :: 0 <= k < |at| ==> i <= at[k] < |words| && Unused(words, used, i)[k] == words[at[k]]
    ensures forall j, k :: 0 <= j < k < |at| ==> at[j] < at[k]
    ensures forall n: nat :: n in at <==> i <= n < |words| && n !in used
    decreases |words| - i
  {
    if i == |words| {
      at := [];
    } else {
      at := UnusedExactly(words, used, i + 1);
      if i !in used {
        at := [i] + at;
      }
    }
  }

  /** Both words are written out. */
  predicate IsRealPair(g: Sides, r: nat, d: nat)
  {
    r < |g.record| && d < |g.document| && !IsInitial(g.record[r]) && !IsInitial(g.document[d])
  }

  /** Does a pairing rest on two written-out words anywhere? */
  predicate RestsOnARealWord(g: Sides, m: map<nat, nat>)
  {
    exists d <- m :: IsRealPair(g, m[d], d)
  }

  /** A pairing that accounts for the whole of the shorter side. */
  ghost predicate IsFull(g: Sides, m: map<nat, nat>)
  {
    g.IsPairing(m) && |m| == Shorter(g)
  }

  /** The comparison, once the pairing m has been found. */
  function Compare(g: Sides, m: map<nat, nat>): NameComparison
  {
    if g.record == [] || g.document == [] then NameComparison(Mismatch, g.record, g.document)
    else if multiset(g.record) == multiset(g.document) then NameComparison(Exact, [], [])
    else
      var grade := if |m| != Shorter(g) then Mismatch else if RestsOnARealWord(g, m) then Strong else Weak;
      NameComparison(grade, Unused(g.record, m.Values, 0), Unused(g.document, m.Keys, 0))
  }

  /** The grade of two lists of words, written in this order. */
  function GradeOf(g: Sides): Grade
  {
    Compare(g, Kuhn(g, |g.record|)).grade
  }

  /**
   * What a comparison says. MISMATCH is decided by the largest pairing alone; the exact-match
   * shortcut and the empty-side rule never say otherwise. The record words left over are those
   * that cannot be paired along with all paired before them.
   */
  ghost predicate Compares(g: Sides, m: map<nat, nat>, c: NameComparison)
  {
    && (c.grade == Mismatch <==> !Corroborated(g))
    && (c.grade == Exact <==> g.record != [] && multiset(g.record) == multiset(g.document))
    && (c.grade == Exact ==> c.unmatchedOnRecord == [] && c.unmatchedOnDocument == [])
    && (g.record == [] || g.document == [] ==> c == NameComparison(Mismatch, g.record, g.document))
    && (c.grade != Exact && g.record != [] && g.document != [] ==>
          && c.unmatchedOnRecord == Unused(g.record, Kept(g, |g.record|), 0)
          && c.unmatchedOnDocument == Unused(g.document, m.Keys, 0)
          && (c.grade == Strong <==> |m| == Shorter(g) && RestsOnARealWord(g, m)))
  }

  /** One maximum pairing decides whether the shorter side can be wholly accounted for. */
  lemma MaximumDecides(g: Sides, m: map<nat, nat>)
    requires g.IsMaximum(m) && g.record != [] && g.document != []
    ensures Corroborated(g) <==> |m| == Shorter(g)
  {
    AtMostShorter(g, m);
    assert |m| == Shorter(g) ==> IsFull(g, m);
  }

  /** Words that differ as bags are not graded EXACT, and an empty side never is. */
  lemma NotExact(g: Sides)
    requires g.record == [] || g.document == []
    ensures !(g.record != [] && multiset(g.record) == multiset(g.document))
  {
    assert |multiset(g.record)| == |g.record| && |multiset(g.document)| == |g.document|;
  }

  lemma {:induction false} CompareMeans(g: Sides, m: map<nat, nat>)
    requires Reflexive(g.agree) && g.IsMaximum(m) && m.Values == Kept(g, |g.record|)
    ensures Compares(g, m, Compare(g, m))
  {
    if g.record == [] || g.document == [] {
      NotExact(g);
    } else if multiset(g.record) == multiset(g.document) {
      SameWordsCorroborate(g);
    } else {
      MaximumDecides(g, m);
    }
  }

  /** Grade two lists of words. */
  method CompareNames(g: Sides) returns (c: NameComparison)
    requires Reflexive(g.agree)
    ensures c.grade == GradeOf(g)
    ensures g.IsMaximum(Kuhn(g, |g.record|)) && Compares(g, Kuhn(g, |g.record|), c)
  {
    KuhnIsMaximum(g);
    CompareMeans(g, Kuhn(g, |g.record|));
    if |g.record| == 0 || |g.document| == 0 {
      return NameComparison(Mismatch, g.record, g.document);
    }
    if multiset(g.record) == multiset(g.document) {
      return NameComparison(Exact, [], []);
    }
    var pairedTo := MaximumPairing(g);
    var everythingCovered := |pairedTo| == Shorter(g);
    var grade :=
      if !everythingCovered then Mismatch
      else if RestsOnARealWord(g, pairedTo) then Strong
      else Weak;
    return NameComparison(grade, Unused(g.record, pairedTo.Values, 0), Unused(g.document, pairedTo.Keys, 0));
  }

  /** No pairing has more pairs than the shorter side has words. */
  lemma AtMostShorter(g: Sides, m: map<nat, nat>)
    requires g.IsPairing(m)
    ensures |m| <= Shorter(g)
  {
    forall d | d in m.Keys ensures d in Below(|g.document|) {
      assert g.Edge(m[d], d);
    }
    SubsetSize(m.Keys, Below(|g.document|));
    HeldSize(m, {});
    forall r | r in Held(m, {}) ensures r in Below(|g.record|) {
      var d :| d in m && m[d] == r;
      assert g.Edge(m[d], d);
    }
    SubsetSize(Held(m, {}), Below(|g.record|));
    assert m.Keys - {} == m.Keys;
  }

  // ---- Word order and sides ----

  /** Where each word of `words` went in a rearrangement of them. */
  ghost predicate Rearranges(q: seq<nat>, words: seq<string>, words': seq<string>)
  {
    && |q| == |words|
    && (forall i :: 0 <= i < |q| ==> q[i] < |words'| && words'[q[i]] == words[i])
    && Distinct(q)
  }

  /** Taking one occurrence of the last word out of both lists. */
  lemma TakeOut(words: seq<string>, words': seq<string>, k: nat)
    requires words != [] && k < |words'| && words'[k] == words[|words| - 1]
    requires multiset(words) == multiset(words')
    ensures multiset(words[..|words| - 1]) == multiset(words'[..k] + words'[k + 1..])
  {
    var n, w := |words| - 1, words'[k];
    assert words == words[..n] + [w];
    assert words' == words'[..k] + [w] + words'[k + 1..];
    assert multiset(words[..n]) == multiset(words) - multiset{w};
    assert multiset(words'[..k] + words'[k + 1..]) == multiset(words') - multiset{w};
  }

  /** Room made for index k again. */
  function Shift(i: nat, k: nat): nat { if i < k then i else i + 1 }

  lemma {:induction false} Rearrange(words: seq<string>, words': seq<string>) returns (q: seq<nat>)
    requires multiset(words) == multiset(words')
    ensures Rearranges(q, words, words')
  {
    if words == [] {
      q := [];
    } else {
      var n := |words| - 1;
      assert words[n] in multiset(words');
      var k :| 0 <= k < |words'| && words'[k] == words[n];
      TakeOut(words, words', k);
      var q' := Rearrange(words[..n], words'[..k] + words'[k + 1..]);
      q := seq(n, i requires 0 <= i < n => Shift(q'[i], k)) + [k];
    }
  }

  /** The same words on each side, in any order. */
  ghost predicate Reorders(g: Sides, g': Sides)
  {
    && g'.agree == g.agree
    && multiset(g'.record) == multiset(g.record) && multiset(g'.document) == multiset(g.document)
  }

  /** m' pairs, wherever they went, the words that m pairs. */
  ghost predicate Follows(qr: seq<nat>, qd: seq<nat>, m: map<nat, nat>, m': map<nat, nat>)
  {
    && (forall d <- m :: d < |qd| && m[d] < |qr| && qd[d] in m' && m'[qd[d]] == qr[m[d]])
    && (forall e <- m' :: exists d :: d in m && d < |qd| && qd[d] == e)
  }

  ghost predicate Distinct(q: seq<nat>)
  {
    forall i, j :: 0 <= i < j < |q| ==> q[i] != q[j]
  }

  lemma FollowsOneMore(qr: seq<nat>, qd: seq<nat>, m: map<nat, nat>, m': map<nat, nat>, d: nat, r: nat)
    requires Follows(qr, qd, m, m') && Distinct(qd) && d !in m && d < |qd| && r < |qr|
    ensures qd[d] !in m' && Follows(qr, qd, m[d := r], m'[qd[d] := qr[r]])
  {
    var more, more' := m[d := r], m'[qd[d] := qr[r]];
    forall e | e in more' ensures exists c :: c in more && c < |qd| && qd[c] == e {
      if e in m' {
        var c :| c in m && c < |qd| && qd[c] == e;
        assert c in more;
      } else {
        assert d in more;
      }
    }
  }

  lemma {:induction false} Relocate(qr: seq<nat>, qd: seq<nat>, m: map<nat, nat>) returns (m': map<nat, nat>)
    requires Distinct(qd) && forall d <- m :: d < |qd| && m[d] < |qr|
    ensures |m'| == |m| && Follows(qr, qd, m, m')
    decreases |m|
  {
    if m == map[] {
      m' := map[];
    } else {
      var d :| d in m;
      var rest := m - {d};
      assert m == rest[d := m[d]];
      m' := Relocate(qr, qd, rest);
      FollowsOneMore(qr, qd, rest, m', d, m[d]);
      m' := m'[qd[d] := qr[m[d]]];
    }
  }

  lemma FollowedAgrees(g: Sides, g': Sides, qr: seq<nat>, qd: seq<nat>, m: map<nat, nat>, m': map<nat, nat>)
    requires g'.agree == g.agree && g.Agrees(m) && Follows(qr, qd, m, m')
    requires Rearranges(qr, g.record, g'.record) && Rearranges(qd, g.document, g'.document)
    ensures g'.Agrees(m')
  {
    forall e | e in m' ensures g'.Edge(m'[e], e) {
      var d :| d in m && d < |qd| && qd[d] == e;
      assert g.Edge(m[d], d);
    }
  }

  lemma FollowedInjective(qr: seq<nat>, qd: seq<nat>, m: map<nat, nat>, m': map<nat, nat>)
    requires Injective(m, {}) && Distinct(qr) && Follows(qr, qd, m, m')
    ensures Injective(m', {})
  {
    forall e, f | e in m' && f in m' && m'[e] == m'[f] ensures e == f {
      var c :| c in m && c < |qd| && qd[c] == e;
      var d :| d in m && d < |qd| && qd[d] == f;
      assert qr[m[c]] == qr[m[d]];
    }
  }

  /** Following the words to their new places keeps a pairing a pairing. */
  lemma Follow(g: Sides, g': Sides, qr: seq<nat>, qd: seq<nat>, m: map<nat, nat>) returns (m': map<nat, nat>)
    requires g'.agree == g.agree && g.IsPairing(m)
    requires Rearranges(qr, g.record, g'.record) && Rearranges(qd, g.document, g'.document)
    ensures g'.IsPairing(m') && |m'| == |m| && Follows(qr, qd, m, m')
  {
    assert forall d <- m :: g.Edge(m[d], d);
    m' := Relocate(qr, qd, m);
    FollowedAgrees(g, g', qr, qd, m, m');
    FollowedInjective(qr, qd, m, m');
  }

  /** A pairing that followed its words rests on a written-out word exactly if it did before. */
  lemma FollowsRests(g: Sides, g': Sides, qr: seq<nat>, qd: seq<nat>, m: map<nat, nat>, m': map<nat, nat>)
    requires Rearranges(qr, g.record, g'.record) && Rearranges(qd, g.document, g'.document)
    requires Follows(qr, qd, m, m')
    ensures RestsOnARealWord(g', m') <==> RestsOnARealWord(g, m)
  {
  }

  /** Reordering the words carries every pairing along. */
  lemma Carry(g: Sides, g': Sides, m: map<nat, nat>) returns (m': map<nat, nat>)
    requires Reorders(g, g') && g.IsPairing(m)
    ensures g'.IsPairing(m') && |m'| == |m| && (RestsOnARealWord(g', m') <==> RestsOnARealWord(g, m))
  {
    var qr := Rearrange(g.record, g'.record);
    var qd := Rearrange(g.document, g'.document);
    m' := Follow(g, g', qr, qd, m);
    FollowsRests(g, g', qr, qd, m, m');
  }

  lemma SameLengths(g: Sides, g': Sides)
    requires Reorders(g, g')
    ensures |g'.record| == |g.record| && |g'.document| == |g.document|
  {
    assert |multiset(g.record)| == |g.record| && |multiset(g'.record)| == |g'.record|;
    assert |multiset(g.document)| == |g.document| && |multiset(g'.document)| == |g'.document|;
  }

  lemma CarriesOver(g: Sides, g': Sides)
    requires Reorders(g, g') && Corroborated(g)
    ensures Corroborated(g')
  {
    SameLengths(g, g');
    var m :| IsFull(g, m);
    var m' := Carry(g, g', m);
    assert IsFull(g', m');
  }

  function Flip(g: Sides): Sides { Sides(g.document, g.record, g.agree) }

  /** Swapping the sides turns every pairing around. */
  lemma TurnAround(g: Sides, m: map<nat, nat>) returns (m': map<nat, nat>)
    requires Symmetric(g.agree) && g.IsPairing(m)
    ensures Flip(g).IsPairing(m') && |m'| == |m|
  {
    m' := map r | r in m.Values :: var d :| d in m && m[d] == r; d;
    forall r | r in m' ensures Flip(g).Edge(m'[r], r) {
      assert g.Edge(m[m'[r]], m'[r]);
    }
    HeldSize(m, {});
    assert Held(m, {}) == m'.Keys && m.Keys - {} == m.Keys;
    assert |m'.Keys| == |m'| && |m.Keys| == |m|;
  }

  lemma FlipOneWay(g: Sides)
    requires Symmetric(g.agree) && Corroborated(g)
    ensures Corroborated(Flip(g))
  {
    var m :| IsFull(g, m);
    var m' := TurnAround(g, m);
    assert IsFull(Flip(g), m');
  }

  /** Each document word paired with the record word it went to. */
  lemma Diagonal(g: Sides, q: seq<nat>) returns (m: map<nat, nat>)
    requires Reflexive(g.agree) && Rearranges(q, g.document, g.record)
    ensures g.IsPairing(m) && |m| == |g.document|
  {
    m := map d | d in Below(|q|) :: q[d];
    assert m.Keys == Below(|q|) && |m.Keys| == |m|;
    assert forall d <- m :: g.Edge(m[d], d);
  }

  /** The same words in another order account for each other completely. */
  lemma SameWordsCorroborate(g: Sides)
    requires Reflexive(g.agree)
    requires g.record != [] && multiset(g.record) == multiset(g.document)
    ensures Corroborated(g)
  {
    assert |multiset(g.record)| == |g.record| && |multiset(g.document)| == |g.document|;
    var q := Rearrange(g.document, g.record);
    var m := Diagonal(g, q);
    assert IsFull(g, m);
  }

  /** Whether two names mismatch does not depend on the order of the words on either side. */
  lemma MismatchIgnoresOrder(g: Sides, g': Sides)
    requires Reorders(g, g')
    ensures Corroborated(g') <==> Corroborated(g)
  {
    if Corroborated(g) { CarriesOver(g, g'); }
    if Corroborated(g') { CarriesOver(g', g); }
  }

  /** Nor, for a symmetric agreement, on which side is the record. */
  lemma MismatchIgnoresSides(g: Sides)
    requires Symmetric(g.agree)
    ensures Corroborated(Flip(g)) <==> Corroborated(g)
  {
    if Corroborated(g) { FlipOneWay(g); }
    if Corroborated(Flip(g)) { FlipOneWay(Flip(g)); }
  }

  /** The real agreement rule meets what the grading asks of an agreement. */
  lemma WordsAgreeIsFair()
    ensures Reflexive(WordsAgree) && Symmetric(WordsAgree)
  {
    forall a, b ensures WordsAgree(a, b) == WordsAgree(b, a) {
      WordsAgreeSymmetric(a, b);
    }
  }

  /** Every grade but MISMATCH goes through without anybody stepping in. */
  predicate NameAgreementIsAcceptable(grade: Grade) { grade != Mismatch }

  /** The comparison under the real agreement rule. */
  method CompareWords(record: seq<string>, document: seq<string>) returns (c: NameComparison)
    ensures NameAgreementIsAcceptable(c.grade) <==> Corroborated(Sides(record, document, WordsAgree))
    ensures c.grade == GradeOf(Sides(record, document, WordsAgree))
    ensures var g := Sides(record, document, WordsAgree); Compares(g, Kuhn(g, |record|), c)
  {
    WordsAgreeIsFair();
    c := CompareNames(Sides(record, document, WordsAgree));
  }
}
