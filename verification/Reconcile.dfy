/**
 * Completed assignments missing a billing entry or a fee payable, found two ways
 * (packages/backend/scripts/test-keyset-plan.ts, queries A and B).
 */
module Reconcile {

  import opened Common

  datatype Assignment = Assignment(id: int, completed: bool, completionDate: Option<int>, createdAt: int)

  datatype BillingEntry = BillingEntry(id: int, assignmentId: int)

  datatype Payable = Payable(id: int, assignmentId: int, expenseId: Option<int>)

  datatype Tables = Tables(assignments: seq<Assignment>, entries: seq<BillingEntry>, payables: seq<Payable>, since: int)

  /** The selected columns. */
  datatype Line = Line(id: int, completionDate: Option<int>, createdAt: int)

  function LineOf(a: Assignment): Line { Line(a.id, a.completionDate, a.createdAt) }

  /** status = COMPLETED AND completion_date >= since; no date compares as unknown. */
  predicate InScope(t: Tables, a: Assignment)
  {
    a.completed && a.completionDate.Some? && a.completionDate.value >= t.since
  }

  /** The join conditions. */
  predicate EntryMatches(e: BillingEntry, a: Assignment) { e.assignmentId == a.id }
  predicate PayableMatches(p: Payable, a: Assignment) { p.assignmentId == a.id && p.expenseId.None? }

  function MatchingEntries(entries: seq<BillingEntry>, a: Assignment): seq<Option<BillingEntry>>
  {
    if entries == [] then []
    else (if EntryMatches(entries[0], a) then [Some(entries[0])] else []) + MatchingEntries(entries[1..], a)
  }

  function MatchingPayables(payables: seq<Payable>, a: Assignment): seq<Option<Payable>>
  {
    if payables == [] then []
    else (if PayableMatches(payables[0], a) then [Some(payables[0])] else []) + MatchingPayables(payables[1..], a)
  }

  /** LEFT JOIN: an unmatched row is kept once, with nulls. */
  function OrNull<T>(matches: seq<Option<T>>): seq<Option<T>>
  {
    if matches == [] then [None] else matches
  }

  // ---- Query A ----

  /** e.id IS NULL OR p.id IS NULL. */
  predicate Passes<E, P>(e: Option<E>, p: Option<P>) { e.None? || p.None? }

  /** The rows one joined entry gives: one per joined payable that passes the OR. */
  function JoinPayables<E, P>(line: Line, e: Option<E>, ps: seq<Option<P>>): seq<Line>
  {
    if ps == [] then []
    else (if Passes(e, ps[0]) then [line] else []) + JoinPayables(line, e, ps[1..])
  }

  function JoinEntries<E, P>(line: Line, es: seq<Option<E>>, ps: seq<Option<P>>): seq<Line>
  {
    if es == [] then [] else JoinPayables(line, es[0], ps) + JoinEntries(line, es[1..], ps)
  }

  function RowsFor(t: Tables, a: Assignment): seq<Line>
  {
    if InScope(t, a)
    then JoinEntries(LineOf(a), OrNull(MatchingEntries(t.entries, a)), OrNull(MatchingPayables(t.payables, a)))
    else []
  }

  /** The rows of the assignments from index i on, one after the other. */
  function Gather(assignments: seq<Assignment>, rows: Assignment -> seq<Line>, i: nat): seq<Line>
    requires i <= |assignments|
    decreases |assignments| - i
  {
    if i == |assignments| then [] else rows(assignments[i]) + Gather(assignments, rows, i + 1)
  }

  function Joined(t: Tables): Assignment -> seq<Line> { (a: Assignment) => RowsFor(t, a) }

  /** LEFT JOINs with an OR over the nulls. */
  function QueryA(t: Tables): seq<Line> { Gather(t.assignments, Joined(t), 0) }

  // ---- Query B ----

  predicate NoEntry(t: Tables, a: Assignment) { !exists e <- t.entries :: EntryMatches(e, a) }
  predicate NoPayable(t: Tables, a: Assignment) { !exists p <- t.payables :: PayableMatches(p, a) }

  /** Two anti-joins under UNION, which removes duplicates. */
  function QueryB(t: Tables): set<Line>
  {
    (set a | a in t.assignments && InScope(t, a) && NoEntry(t, a) :: LineOf(a))
    + (set a | a in t.assignments && InScope(t, a) && NoPayable(t, a) :: LineOf(a))
  }

  // ---- How often A repeats an assignment ----

  /** Nothing but n copies of one line. */
  ghost predicate Repeats(rows: seq<Line>, line: Line, n: nat)
  {
    |rows| == n && forall i :: 0 <= i < n ==> rows[i] == line
  }

  lemma {:induction false} JoinPayablesCount<E, P>(line: Line, e: Option<E>, ps: seq<Option<P>>, pass: bool)
    requires forall i :: 0 <= i < |ps| ==> Passes(e, ps[i]) == pass
    ensures Repeats(JoinPayables(line, e, ps), line, if pass then |ps| else 0)
  {
    if ps != [] {
      JoinPayablesCount(line, e, ps[1..], pass);
    }
  }

  lemma {:induction false} JoinEntriesCount<E, P>(line: Line, es: seq<Option<E>>, ps: seq<Option<P>>, pass: bool)
    requires forall k, i :: 0 <= k < |es| && 0 <= i < |ps| ==> Passes(es[k], ps[i]) == pass
    ensures Repeats(JoinEntries(line, es, ps), line, if pass then |es| * |ps| else 0)
  {
    if es != [] {
      JoinPayablesCount(line, es[0], ps, pass);
      JoinEntriesCount(line, es[1..], ps, pass);
      assert |es| * |ps| == |ps| + |es[1..]| * |ps|;
    }
  }

  lemma {:induction false} EntriesAreReal(entries: seq<BillingEntry>, a: Assignment)
    ensures forall i :: 0 <= i < |MatchingEntries(entries, a)| ==> MatchingEntries(entries, a)[i].Some?
    ensures MatchingEntries(entries, a) == [] <==> forall i :: 0 <= i < |entries| ==> !EntryMatches(entries[i], a)
  {
    if entries != [] {
      var rest := entries[1..];
      EntriesAreReal(rest, a);
      assert forall i :: 0 < i < |entries| ==> entries[i] == rest[i - 1];
      assert forall i :: 0 <= i < |rest| ==> rest[i] == entries[i + 1];
    }
  }

  lemma {:induction false} PayablesAreReal(payables: seq<Payable>, a: Assignment)
    ensures forall i :: 0 <= i < |MatchingPayables(payables, a)| ==> MatchingPayables(payables, a)[i].Some?
    ensures MatchingPayables(payables, a) == [] <==> forall i :: 0 <= i < |payables| ==> !PayableMatches(payables[i], a)
  {
    if payables != [] {
      var rest := payables[1..];
      PayablesAreReal(rest, a);
      assert forall i :: 0 < i < |payables| ==> payables[i] == rest[i - 1];
      assert forall i :: 0 <= i < |rest| ==> rest[i] == payables[i + 1];
    }
  }

  predicate Selected(t: Tables, a: Assignment)
  {
    InScope(t, a) && (NoEntry(t, a) || NoPayable(t, a))
  }

  function AtLeastOne(n: nat): nat { if n == 0 then 1 else n }

  /** How many times query A repeats an assignment: once per match on the leg that still has any. */
  function Copies(t: Tables, a: Assignment): nat
  {
    if !Selected(t, a) then 0
    else AtLeastOne(|MatchingEntries(t.entries, a)|) * AtLeastOne(|MatchingPayables(t.payables, a)|)
  }

  lemma RowsForCount(t: Tables, a: Assignment)
    ensures Repeats(RowsFor(t, a), LineOf(a), Copies(t, a))
  {
    if InScope(t, a) {
      var es, ps := MatchingEntries(t.entries, a), MatchingPayables(t.payables, a);
      EntriesAreReal(t.entries, a);
      PayablesAreReal(t.payables, a);
      JoinEntriesCount(LineOf(a), OrNull(es), OrNull(ps), es == [] || ps == []);
      assert NoEntry(t, a) <==> es == [];
      assert NoPayable(t, a) <==> ps == [];
    }
  }

  // ---- The two queries compared ----

  ghost predicate UniqueIds(t: Tables)
  {
    forall i, j :: 0 <= i < j < |t.assignments| ==> t.assignments[i].id != t.assignments[j].id
  }

  /** Assignment k is selected and shows as line l. */
  ghost predicate ShowsAs(t: Tables, k: nat, l: Line)
    requires k < |t.assignments|
  {
    Selected(t, t.assignments[k]) && LineOf(t.assignments[k]) == l
  }

  lemma {:induction false} RepeatsCount(rows: seq<Line>, line: Line, n: nat, l: Line)
    requires Repeats(rows, line, n)
    ensures multiset(rows)[l] == if l == line then n else 0
  {
    if n > 0 {
      assert rows == rows[..n - 1] + [line];
      RepeatsCount(rows[..n - 1], line, n - 1, l);
    }
  }

  /** Under query A a line is there once per copy of each assignment that shows as it. */
  lemma {:induction false} CountFrom(t: Tables, i: nat, k: nat)
    requires UniqueIds(t) && i <= |t.assignments| && k < |t.assignments|
    ensures multiset(Gather(t.assignments, Joined(t), i))[LineOf(t.assignments[k])]
      == if k < i then 0 else Copies(t, t.assignments[k])
    decreases |t.assignments| - i
  {
    if i < |t.assignments| {
      var a := t.assignments[i];
      CountFrom(t, i + 1, k);
      RowsForCount(t, a);
      RepeatsCount(RowsFor(t, a), LineOf(a), Copies(t, a), LineOf(t.assignments[k]));
    }
  }

  lemma CopiesWhenSelected(t: Tables, a: Assignment)
    ensures Copies(t, a) > 0 <==> Selected(t, a)
  {
  }

  lemma RowShows(t: Tables, i: nat, l: Line)
    requires i < |t.assignments|
    ensures l in RowsFor(t, t.assignments[i]) <==> ShowsAs(t, i, l)
  {
    var a := t.assignments[i];
    RowsForCount(t, a);
    CopiesWhenSelected(t, a);
    assert Copies(t, a) > 0 ==> RowsFor(t, a)[0] == LineOf(a);
  }

  /** A line gathered comes from some assignment. */
  lemma {:induction false} FindLine(assignments: seq<Assignment>, rows: Assignment -> seq<Line>, i: nat, l: Line)
      returns (k: nat)
    requires i <= |assignments| && l in Gather(assignments, rows, i)
    ensures i <= k < |assignments| && l in rows(assignments[k])
    decreases |assignments| - i
  {
    if l in rows(assignments[i]) {
      k := i;
    } else {
      k := FindLine(assignments, rows, i + 1, l);
    }
  }

  lemma {:induction false} KeepLine(assignments: seq<Assignment>, rows: Assignment -> seq<Line>, i: nat, l: Line,
                                    k: nat)
    requires i <= k < |assignments| && l in rows(assignments[k])
    ensures l in Gather(assignments, rows, i)
    decreases k - i
  {
    if i < k {
      KeepLine(assignments, rows, i + 1, l, k);
    }
  }

  /** Both queries find the same assignments, whatever the tables hold. */
  lemma SameAssignments(t: Tables, l: Line)
    ensures l in QueryA(t) <==> l in QueryB(t)
  {
    if l in QueryA(t) {
      var k := FindLine(t.assignments, Joined(t), 0, l);
      RowShows(t, k, l);
      assert t.assignments[k] in t.assignments;
    }
    if l in QueryB(t) {
      var a :| a in t.assignments && Selected(t, a) && LineOf(a) == l;
      var k: nat :| k < |t.assignments| && t.assignments[k] == a;
      RowShows(t, k, l);
      KeepLine(t.assignments, Joined(t), 0, l, k);
    }
  }

  /** Completed since the day asked for, and without a billing entry or without a payable for its fee. */
  ghost predicate IsUnreconciled(t: Tables, a: Assignment)
  {
    && a.completed && a.completionDate.Some? && a.completionDate.value >= t.since
    && (|| (forall e <- t.entries :: e.assignmentId != a.id)
        || (forall p <- t.payables :: p.assignmentId == a.id ==> p.expenseId.Some?))
  }

  /** What both queries list are the unreconciled assignments, by id, completion date and creation time. */
  lemma ListsTheUnreconciled(t: Tables, l: Line)
    ensures l in QueryB(t) <==>
      exists a <- t.assignments ::
        IsUnreconciled(t, a) && l.id == a.id && l.completionDate == a.completionDate && l.createdAt == a.createdAt
  {
    forall a ensures Selected(t, a) <==> IsUnreconciled(t, a) {
      SelectedIsUnreconciled(t, a);
    }
    if l in QueryB(t) {
      var a :| a in t.assignments && Selected(t, a) && LineOf(a) == l;
      assert IsUnreconciled(t, a);
    }
  }

  lemma SelectedIsUnreconciled(t: Tables, a: Assignment)
    ensures Selected(t, a) <==> IsUnreconciled(t, a)
  {
    assert NoEntry(t, a) <==> forall e <- t.entries :: !EntryMatches(e, a);
    assert NoPayable(t, a) <==> forall p <- t.payables :: !PayableMatches(p, a);
  }

  /** The leg of a selected assignment that still has matches has at most one. */
  predicate MatchedAtMostOnce(t: Tables, a: Assignment)
  {
    |MatchingEntries(t.entries, a)| <= 1 && |MatchingPayables(t.payables, a)| <= 1
  }

  lemma OneCopy(t: Tables, a: Assignment)
    requires Selected(t, a)
    ensures Copies(t, a) == 1 <==> MatchedAtMostOnce(t, a)
  {
    var m, n := AtLeastOne(|MatchingEntries(t.entries, a)|), AtLeastOne(|MatchingPayables(t.payables, a)|);
    if m > 1 || n > 1 {
      assert m * n >= m && m * n >= n;
    }
  }

  /**
   * As bags the queries agree exactly when every selected assignment has at most one matching row
   * on the leg that is not missing.
   */
  lemma SameBags(t: Tables)
    requires UniqueIds(t)
    ensures multiset(QueryA(t)) == multiset(QueryB(t)) <==>
      forall k :: 0 <= k < |t.assignments| && Selected(t, t.assignments[k]) ==> MatchedAtMostOnce(t, t.assignments[k])
  {
    forall k: nat | k < |t.assignments| && Selected(t, t.assignments[k])
      ensures multiset(QueryA(t))[LineOf(t.assignments[k])] == multiset(QueryB(t))[LineOf(t.assignments[k])]
        <==> MatchedAtMostOnce(t, t.assignments[k])
    {
      CountOfSelected(t, k);
    }
    if forall k ::
      0 <= k < |t.assignments| && Selected(t, t.assignments[k]) ==> MatchedAtMostOnce(t, t.assignments[k])
    {
      forall l ensures multiset(QueryA(t))[l] == multiset(QueryB(t))[l] {
        SameAssignments(t, l);
        if l in QueryA(t) {
          var k := FindLine(t.assignments, Joined(t), 0, l);
          RowShows(t, k, l);
        }
      }
      assert multiset(QueryA(t)) == multiset(QueryB(t));
    }
  }

  lemma CountOfSelected(t: Tables, k: nat)
    requires UniqueIds(t) && k < |t.assignments| && Selected(t, t.assignments[k])
    ensures var l := LineOf(t.assignments[k]);
      && multiset(QueryA(t))[l] == Copies(t, t.assignments[k])
      && multiset(QueryB(t))[l] == 1
      && (Copies(t, t.assignments[k]) == 1 <==> MatchedAtMostOnce(t, t.assignments[k]))
  {
    CountFrom(t, 0, k);
    OneCopy(t, t.assignments[k]);
    assert t.assignments[k] in t.assignments;
  }
}
