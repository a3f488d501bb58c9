/**
 * Who may decide an onboarding approval (packages/shared/src/onboarding-approval.ts): two loops
 * over one log of events that must agree about whose question an answer answers.
 */
module Approval {

  import opened Common

  datatype Kind = Submitted | InfoRequested | Answered | Approved | Rejected

  datatype Event = Event(kind: Kind, byId: string)

  /** Event i is a question and nobody has answered or asked since. */
  ghost predicate OpenAt(events: seq<Event>, i: nat)
  {
    && i < |events| && events[i].kind == InfoRequested
    && forall j :: i < j < |events| ==> events[j].kind != InfoRequested && events[j].kind != Answered
  }

  /** When these events have happened, p's question is the one waiting for an answer. */
  ghost predicate IsWaitingFor(events: seq<Event>, p: string)
  {
    exists i: nat :: OpenAt(events, i) && events[i].byId == p
  }

  /** Event i is p's own: a submission, or an answer to a question that somebody else was waiting on. */
  ghost predicate PreparedAt(events: seq<Event>, i: nat, p: string)
  {
    && i < |events| && events[i].byId == p
    && (events[i].kind == Submitted || (events[i].kind == Answered && !IsWaitingFor(events[..i], p)))
  }

  ghost predicate Prepared(events: seq<Event>, p: string)
  {
    exists i: nat :: PreparedAt(events, i, p)
  }

  /** Who is waiting after one more event. */
  ghost predicate WaitsAfter(e: Event, waiting: bool, p: string)
  {
    match e.kind
    case InfoRequested => e.byId == p
    case Answered => false
    case _ => waiting
  }

  /** What one more event does to the open question. */
  lemma OpenQuestionMoves(events: seq<Event>, e: Event, p: string)
    ensures IsWaitingFor(events + [e], p) <==> WaitsAfter(e, IsWaitingFor(events, p), p)
  {
    var n, more := |events|, events + [e];
    if e.kind == InfoRequested && e.byId == p {
      assert OpenAt(more, n);
    }
    if IsWaitingFor(events, p) && e.kind != InfoRequested && e.kind != Answered {
      var i: nat :| OpenAt(events, i) && events[i].byId == p;
      assert OpenAt(more, i);
    }
    if IsWaitingFor(more, p) && e.kind != InfoRequested {
      var i: nat :| OpenAt(more, i) && more[i].byId == p;
      assert more[n] == e;
      assert forall j :: 0 <= j < n ==> more[j] == events[j];
      assert OpenAt(events, i);
    }
  }

  /** Whether an event prepares the round does not depend on what comes after it. */
  lemma PreparedIsLocal(events: seq<Event>, more: seq<Event>, i: nat, p: string)
    requires i < |events|
    ensures PreparedAt(events + more, i, p) <==> PreparedAt(events, i, p)
  {
    assert (events + more)[..i] == events[..i];
  }

  /** What one more event does to the set of those who prepared. */
  lemma PreparedGrows(events: seq<Event>, e: Event, p: string)
    ensures Prepared(events + [e], p) <==> Prepared(events, p) || PreparedAt(events + [e], |events|, p)
    ensures PreparedAt(events + [e], |events|, p) <==>
      e.byId == p && (e.kind == Submitted || (e.kind == Answered && !IsWaitingFor(events, p)))
  {
    assert (events + [e])[..|events|] == events;
    if Prepared(events, p) {
      var i: nat :| PreparedAt(events, i, p);
      PreparedIsLocal(events, [e], i, p);
    }
    if Prepared(events + [e], p) {
      var i: nat :| PreparedAt(events + [e], i, p);
      if i < |events| { PreparedIsLocal(events, [e], i, p); }
    }
  }

  /** Who asked the question that has not been answered yet. */
  method OpenQuestionAsker(events: seq<Event>) returns (asker: Option<string>)
    ensures forall p :: asker == Some(p) <==> IsWaitingFor(events, p)
  {
    asker := None;
    for n := 0 to |events|
      invariant forall p :: asker == Some(p) <==> IsWaitingFor(events[..n], p)
    {
      var e := events[n];
      assert events[..n + 1] == events[..n] + [e];
      forall p ensures IsWaitingFor(events[..n + 1], p) <==> WaitsAfter(e, asker == Some(p), p) {
        OpenQuestionMoves(events[..n], e, p);
      }
      if e.kind == InfoRequested {
        asker := Some(e.byId);
      } else if e.kind == Answered {
        asker := None;
      }
    }
    assert events[..|events|] == events;
  }

  /**
   * Who prepared the round, and so may not decide it: whoever submitted, or answered when the open
   * question, as the other loop finds it in the events before, was not their own.
   */
  method ApprovalPreparers(events: seq<Event>) returns (preparers: set<string>)
    ensures forall p :: p in preparers <==> Prepared(events, p)
  {
    preparers := {};
    var asker: Option<string> := None;
    for n := 0 to |events|
      invariant forall p :: asker == Some(p) <==> IsWaitingFor(events[..n], p)
      invariant forall p :: p in preparers <==> Prepared(events[..n], p)
    {
      var e := events[n];
      assert events[..n + 1] == events[..n] + [e];
      forall p ensures IsWaitingFor(events[..n + 1], p) <==> WaitsAfter(e, asker == Some(p), p) {
        OpenQuestionMoves(events[..n], e, p);
      }
      forall p
        ensures Prepared(events[..n + 1], p) <==>
          p in preparers || (e.byId == p && (e.kind == Submitted || (e.kind == Answered && asker != Some(p))))
      {
        PreparedGrows(events[..n], e, p);
      }
      if e.kind == Submitted {
        preparers := preparers + {e.byId};
      } else if e.kind == InfoRequested {
        asker := Some(e.byId);
      } else if e.kind == Answered {
        if asker != Some(e.byId) {
          preparers := preparers + {e.byId};
        }
        asker := None;
      }
    }
    assert events[..|events|] == events;
  }

  /** Nobody who has prepared a round ever stops having prepared it. */
  lemma PreparersOnlyGrow(events: seq<Event>, more: seq<Event>, p: string)
    requires Prepared(events, p)
    ensures Prepared(events + more, p)
  {
    var i: nat :| PreparedAt(events, i, p);
    PreparedIsLocal(events, more, i, p);
  }

  /** The question an answer answers: the last one asked, with no answer in between. */
  ghost predicate Answers(events: seq<Event>, i: nat, q: nat)
  {
    && q < i < |events| && events[i].kind == Answered && events[q].kind == InfoRequested
    && forall j :: q < j < i ==> events[j].kind != InfoRequested && events[j].kind != Answered
  }

  /**
   * Exactly those may decide who submitted nothing and only ever answered questions of their own:
   * each of their answers has such a question standing open before it, whoever else asked or
   * answered in between.
   */
  lemma MayDecideExactly(events: seq<Event>, p: string)
    ensures !Prepared(events, p) <==>
      forall i: nat :: i < |events| && events[i].byId == p ==>
        && events[i].kind != Submitted
        && (events[i].kind == Answered ==> exists q: nat :: Answers(events, i, q) && events[q].byId == p)
  {
    forall i: nat | i < |events| && events[i].kind == Answered
      ensures IsWaitingFor(events[..i], p) <==> exists q: nat :: Answers(events, i, q) && events[q].byId == p
    {
      AnswersTheOpenQuestion(events, i, p);
    }
    if !Prepared(events, p) {
      forall i: nat | i < |events| && events[i].byId == p
        ensures events[i].kind != Submitted
        ensures events[i].kind == Answered ==> exists q: nat :: Answers(events, i, q) && events[q].byId == p
      {
        assert !PreparedAt(events, i, p);
      }
    }
  }

  lemma AnswersTheOpenQuestion(events: seq<Event>, i: nat, p: string)
    requires i < |events| && events[i].kind == Answered
    ensures IsWaitingFor(events[..i], p) <==> exists q: nat :: Answers(events, i, q) && events[q].byId == p
  {
    if IsWaitingFor(events[..i], p) {
      var q: nat :| OpenAt(events[..i], q) && events[..i][q].byId == p;
      assert Answers(events, i, q);
    }
    if exists q: nat :: Answers(events, i, q) && events[q].byId == p {
      var q: nat :| Answers(events, i, q) && events[q].byId == p;
      assert OpenAt(events[..i], q);
    }
  }
}
