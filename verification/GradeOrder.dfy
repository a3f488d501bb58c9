/**
 * When the order of the words decides between STRONG and WEAK (packages/shared/src/name-match.ts,
 * `compareNames`). Two full pairings can differ in whether they rest on a written-out word, and
 * which one the search finds depends on the order: the order matters exactly when both kinds exist.
 */
module GradeOrder {
  import opened Pairing
  import opened NameMatch
  import TextDistance
  import opened StrongOrder
  import opened WeakOrder

  ghost predicate GradedInEveryOrder(g: Sides, grade: Grade)
  {
    forall record, document :: Reorders(g, Sides(record, document, g.agree)) ==>
      GradeOf(Sides(record, document, g.agree)) == grade
  }

  ghost predicate AlwaysRests(g: Sides)
  {
    forall m :: IsFull(g, m) ==> RestsOnARealWord(g, m)
  }

  ghost predicate NeverRests(g: Sides)
  {
    forall m :: IsFull(g, m) ==> !RestsOnARealWord(g, m)
  }

  /** The names corroborate each other without being the same words. */
  ghost predicate NeedsGrading(g: Sides)
  {
    Corroborated(g) && multiset(g.record) != multiset(g.document)
  }

  /** Whatever the order, the grade tells of some full pairing of the words whether it rests on a written-out word. */
  lemma GradeTells(g: Sides, g': Sides) returns (m: map<nat, nat>)
    requires NeedsGrading(g) && Reorders(g, g')
    ensures IsFull(g, m) && GradeOf(g') == if RestsOnARealWord(g, m) then Strong else Weak
  {
    MismatchIgnoresOrder(g, g');
    SameLengths(g, g');
    KuhnIsMaximum(g');
    MaximumDecides(g', Kuhn(g', |g'.record|));
    m := Carry(g', g, Kuhn(g', |g'.record|));
  }

  /** WEAK in every order exactly when no full pairing rests on a written-out word, for any agreement. */
  lemma WeakInEveryOrder(g: Sides)
    requires NeedsGrading(g)
    ensures GradedInEveryOrder(g, Weak) <==> NeverRests(g)
  {
    if NeverRests(g) {
      forall record, document | Reorders(g, Sides(record, document, g.agree))
        ensures GradeOf(Sides(record, document, g.agree)) == Weak
      {
        var m := GradeTells(g, Sides(record, document, g.agree));
      }
    } else {
      var m :| IsFull(g, m) && RestsOnARealWord(g, m);
      var g' := StrongOrderExists(g, m);
      assert g' == Sides(g'.record, g'.document, g.agree);
    }
  }

  /** STRONG in every order exactly when every full pairing rests on one, where initials stand for a letter. */
  lemma StrongInEveryOrder(g: Sides)
    requires NeedsGrading(g) && InitialsByLetter(g.agree)
    ensures GradedInEveryOrder(g, Strong) <==> AlwaysRests(g)
  {
    if AlwaysRests(g) {
      forall record, document | Reorders(g, Sides(record, document, g.agree))
        ensures GradeOf(Sides(record, document, g.agree)) == Strong
      {
        var m := GradeTells(g, Sides(record, document, g.agree));
      }
    } else {
      var m :| IsFull(g, m) && !RestsOnARealWord(g, m);
      var g' := WeakOrderExists(g, m);
      assert g' == Sides(g'.record, g'.document, g.agree);
    }
  }

  /** Under the real rule: the order of the words decides the grade exactly when full pairings of both kinds exist. */
  lemma OrderDecides(record: seq<string>, document: seq<string>)
    requires NeedsGrading(Sides(record, document, WordsAgree))
    ensures var g := Sides(record, document, WordsAgree);
      && (GradedInEveryOrder(g, Strong) <==> AlwaysRests(g))
      && (GradedInEveryOrder(g, Weak) <==> NeverRests(g))
  {
    WordsAgreeByLetter();
    StrongInEveryOrder(Sides(record, document, WordsAgree));
    WeakInEveryOrder(Sides(record, document, WordsAgree));
  }

  // ---- Names of one word ----

  /** Two different words: STRONG if they agree and both are written out, WEAK if they agree otherwise. */
  lemma SingleWords(a: string, b: string)
    requires a != b
    ensures GradeOf(Sides([a], [b], WordsAgree)) ==
      if !WordsAgree(a, b) then Mismatch else if IsInitial(a) || IsInitial(b) then Weak else Strong
  {
    var g := Sides([a], [b], WordsAgree);
    assert a in multiset([a]) && a !in multiset([b]);
    KuhnIsMaximum(g);
    MaximumDecides(g, Kuhn(g, 1));
    if WordsAgree(a, b) {
      assert g.Edge(0, 0);
      OneDocumentWord(g);
      var m: map<nat, nat> := map[0 := 0];
      assert RestsOnARealWord(g, m) <==> IsRealPair(g, m[0], 0);
    } else {
      NothingToPair(g);
    }
  }

  lemma NothingToPair(g: Sides)
    requires |g.record| == |g.document| == 1 && !g.agree(g.record[0], g.document[0])
    ensures !Corroborated(g)
  {
    forall m | g.IsPairing(m) ensures |m| == 0 {
      assert forall d <- m :: g.Edge(m[d], d);
      assert m.Keys == {};
    }
  }

  /**
   * A written-out word of four letters or fewer mismatches every other but a listed short form; one
   * slip between words of five letters or more is forgiven, and two are not.
   */
  lemma ShortWordsMismatch(a: string, b: string)
    requires a != b && |a| != 1 && |b| != 1 && a !in SHORT_FORMS && b !in SHORT_FORMS
    ensures |a| <= 4 || |b| <= 4 ==> GradeOf(Sides([a], [b], WordsAgree)) == Mismatch
    ensures |a| >= 5 && |b| >= 5 ==>
      GradeOf(Sides([a], [b], WordsAgree)) == if OneSlipApart(a, b) then Strong else Mismatch
  {
    FullWordsAgree(a, b);
    SingleWords(a, b);
  }

  /** RAVI and RANI are different people. */
  lemma RaviIsNotRani()
    ensures GradeOf(Sides(["RAVI"], ["RANI"], WordsAgree)) == Mismatch
  {
    var ravi, rani := "RAVI", "RANI";
    assert ravi[2] != rani[2];
    ShortWordsMismatch(ravi, rani);
  }

  // ---- A name that the order decides ----

  /** A single document word goes to the first record word, if they agree. */
  lemma {:induction false} OneDocumentWord(g: Sides)
    requires |g.document| == 1 && g.record != [] && g.Edge(0, 0)
    ensures Kuhn(g, |g.record|) == map[0 := 0]
  {
    var p: map<nat, nat> := map[0 := 0];
    assert IsFull(g, p) && IsFirst(p.Values, 1);
    FirstDecide(g, p);
    var m := KuhnHoldsFirst(g, p, 1);
    assert forall d <- m :: g.Edge(m[d], d);
    assert 0 in m.Values;
  }

  lemma OneDocumentGrade(g: Sides)
    requires |g.document| == 1 && |g.record| > 1 && g.Edge(0, 0)
    ensures GradeOf(g) == if IsRealPair(g, 0, 0) then Strong else Weak
  {
    OneDocumentWord(g);
    assert |multiset(g.record)| == |g.record| && |multiset(g.document)| == 1;
    var m: map<nat, nat> := map[0 := 0];
    assert |m| == 1 && (RestsOnARealWord(g, m) <==> IsRealPair(g, m[0], 0));
  }

  /** "A ANIL" against "ANIL" is WEAK; written "ANIL A" it is STRONG. */
  lemma AnilDependsOnOrder()
    ensures GradeOf(Sides(["A", "ANIL"], ["ANIL"], WordsAgree)) == Weak
    ensures GradeOf(Sides(["ANIL", "A"], ["ANIL"], WordsAgree)) == Strong
  {
    OneDocumentGrade(Sides(["A", "ANIL"], ["ANIL"], WordsAgree));
    OneDocumentGrade(Sides(["ANIL", "A"], ["ANIL"], WordsAgree));
  }

  /** Two words that agree with two: the second takes the first document word and moves its holder on. */
  lemma {:induction false} TwoByTwo(g: Sides)
    requires |g.record| == |g.document| == 2
    requires forall r: nat, d: nat :: r < 2 && d < 2 ==> g.agree(g.record[r], g.document[d])
    ensures Kuhn(g, 2) == map[0 := 1, 1 := 0]
  {
    var one: map<nat, nat> := map[0 := 0];
    assert Kuhn(g, 0) == map[];
    assert Find(g, map[], {}, 0, 0).pairedTo == one;
    assert Kuhn(g, 1) == one;
    assert Find(g, one, {0}, 0, 1) == Search(true, map[0 := 0, 1 := 0], {0, 1});
    assert {} + {0} == {0};
    assert Find(g, one, {0}, 0, 0) == Find(g, one, {0}, 0, 1);
  }

  lemma TwoByTwoGrade(g: Sides)
    requires |g.record| == |g.document| == 2 && multiset(g.record) != multiset(g.document)
    requires forall r: nat, d: nat :: r < 2 && d < 2 ==> g.agree(g.record[r], g.document[d])
    ensures GradeOf(g) == if IsRealPair(g, 1, 0) || IsRealPair(g, 0, 1) then Strong else Weak
  {
    TwoByTwo(g);
    var m: map<nat, nat> := map[0 := 1, 1 := 0];
    assert |m| == 2 && m[0] == 1 && m[1] == 0;
    assert RestsOnARealWord(g, m) <==> IsRealPair(g, m[0], 0) || IsRealPair(g, m[1], 1);
  }

  /** The same for four words that all agree: crosswise pairs decide. */
  lemma FourWords(a: string, b: string, c: string, d: string)
    requires WordsAgree(a, c) && WordsAgree(a, d) && WordsAgree(b, c) && WordsAgree(b, d)
    requires multiset([a, b]) != multiset([c, d])
    ensures GradeOf(Sides([a, b], [c, d], WordsAgree)) ==
      if (!IsInitial(b) && !IsInitial(c)) || (!IsInitial(a) && !IsInitial(d)) then Strong else Weak
  {
    TwoByTwoGrade(Sides([a, b], [c, d], WordsAgree));
  }

  lemma KumarAgreesWithKumari()
    ensures WordsAgree("KUMAR", "KUMARI")
  {
    assert "KUMAR" + ['I'] == "KUMARI";
    TextDistance.OneLetterAdded("KUMAR", 'I', true);
  }

  lemma KumarIsNotKumari()
    ensures multiset(["K", "KUMAR"]) != multiset(["K", "KUMARI"])
    ensures multiset(["K", "KUMAR"]) != multiset(["KUMARI", "K"])
  {
    var kumari := "KUMARI";
    assert kumari != "K" && kumari != "KUMAR";
    assert multiset(["K", "KUMAR"])[kumari] == 0;
    assert multiset(["K", kumari])[kumari] == 1 && multiset([kumari, "K"])[kumari] == 1;
  }

  /** The order of the document words can decide it too: KUMAR takes K from K, or KUMARI from K. */
  lemma KumarDependsOnOrder()
    ensures GradeOf(Sides(["K", "KUMAR"], ["K", "KUMARI"], WordsAgree)) == Weak
    ensures GradeOf(Sides(["K", "KUMAR"], ["KUMARI", "K"], WordsAgree)) == Strong
  {
    KumarAgreesWithKumari();
    KumarIsNotKumari();
    FourWords("K", "KUMAR", "K", "KUMARI");
    FourWords("K", "KUMAR", "KUMARI", "K");
  }
}
