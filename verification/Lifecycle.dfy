/**
 * The assayer lifecycle: planning a bulk move and saying why there is no plan
 * (packages/shared/src/assayer-lifecycle.ts).
 */
module Lifecycle {
  import opened Common
  import opened RoutePlanner
  import opened Walks

  // ---- For any transition map and any waypoint rules ----

  /** Waypoint rules: states no route may pass through, and states none may pass through inbound. */
  datatype Rules<S> = Rules(never: set<S>, inbound: set<S>, outcomes: set<S>) {

    /** What is barred only because the destination is not an outcome. */
    function InboundOnly(to: S): set<S>
    {
      if to in outcomes then {} else inbound
    }

    function Barred(to: S): set<S>
    {
      never + InboundOnly(to)
    }
  }

  ghost predicate HasRoute<S(!new)>(g: map<S, seq<S>>, barred: set<S>, from: S, to: S)
  {
    exists route :: IsRoute(g, barred, from, to, route)
  }

  /** Barring more states leaves fewer routes. */
  lemma FewerRoutes<S(!new)>(g: map<S, seq<S>>, fewer: set<S>, more: set<S>, from: S, to: S, route: seq<S>)
    requires fewer <= more && IsRoute(g, more, from, to, route)
    ensures IsRoute(g, fewer, from, to, route)
  {
  }

  /** The plan for a move: no steps for no move, otherwise the first of the shortest legal routes. */
  method Path<S(==,!new)>(g: map<S, seq<S>>, rules: Rules<S>, from: S, to: S) returns (plan: Option<seq<S>>)
    ensures from == to ==> plan == Some([])
    ensures from != to && plan.Some? ==> IsFirstRoute(g, rules.Barred(to), from, to, plan.value)
    ensures from != to && plan.None? ==> !HasRoute(g, rules.Barred(to), from, to)
  {
    if from == to {
      return Some([]);
    }
    plan := ShortestRoute(g, rules.Barred(to), from, to);
  }

  /** Stop k is strictly inside the route and is the first barred one. */
  ghost predicate FirstBarredAt<S>(route: seq<S>, barred: set<S>, k: int)
  {
    0 <= k < |route| - 1 && route[k] in barred && forall i :: 0 <= i < k ==> route[i] !in barred
  }

  /** The first barred state strictly inside a route, looking from stop k on. */
  function FirstBarred<S(==)>(route: seq<S>, barred: set<S>, k: nat): (first: Option<S>)
    requires forall i :: 0 <= i < k && i < |route| - 1 ==> route[i] !in barred
    ensures first.None? ==> forall i :: 0 <= i < |route| - 1 ==> route[i] !in barred
    ensures first.Some? ==> exists i :: FirstBarredAt(route, barred, i) && route[i] == first.value
    decreases |route| - k
  {
    if k >= |route| - 1 then None
    else if route[k] in barred then
      assert FirstBarredAt(route, barred, k);
      Some(route[k])
    else FirstBarred(route, barred, k + 1)
  }

  /** `blocker` is the first barred state strictly inside the first of the shortest routes avoiding `avoid`. */
  ghost predicate Blocks<S(!new)>(g: map<S, seq<S>>, avoid: set<S>, barred: set<S>, from: S, to: S,
                                  route: seq<S>, blocker: S)
  {
    && IsFirstRoute(g, avoid, from, to, route)
    && exists i :: FirstBarredAt(route, barred, i) && route[i] == blocker
  }

  /** What the explanation keeps off: the inbound-only shortcuts, if there is a road without them. */
  ghost function Avoided<S(!new)>(g: map<S, seq<S>>, rules: Rules<S>, from: S, to: S): set<S>
  {
    if HasRoute(g, rules.InboundOnly(to), from, to) then rules.InboundOnly(to) else {}
  }

  /**
   * Why there is no plan. Silent when there is one; otherwise silent exactly when the states are
   * not connected at all, and naming a never-a-waypoint state whenever some route avoids the
   * inbound-only shortcuts. There is one first route, so who is named is fixed.
   */
  method BlockedBy<S(==,!new)>(g: map<S, seq<S>>, rules: Rules<S>, from: S, to: S) returns (blocker: Option<S>)
    ensures from == to || HasRoute(g, rules.Barred(to), from, to) ==> blocker.None?
    ensures from != to && !HasRoute(g, rules.Barred(to), from, to) ==>
      (blocker.None? <==> !HasRoute(g, {}, from, to))
    ensures blocker.Some? ==>
      exists route :: Blocks(g, Avoided(g, rules, from, to), rules.Barred(to), from, to, route, blocker.value)
    ensures blocker.Some? && HasRoute(g, rules.InboundOnly(to), from, to) ==> blocker.value in rules.never
  {
    if from == to {
      return None;
    }
    var plan := Path(g, rules, from, to);
    if plan.Some? {
      return None;
    }
    var barred, shortcuts := rules.Barred(to), rules.InboundOnly(to);
    var onTheRoad := ShortestRoute(g, shortcuts, from, to);
    if onTheRoad.Some? {
      FewerRoutes(g, {}, shortcuts, from, to, onTheRoad.value);
      blocker := FirstBarred(onTheRoad.value, barred, 0);
      assert blocker.None? ==> IsRoute(g, barred, from, to, onTheRoad.value);
      assert Avoided(g, rules, from, to) == shortcuts;
      assert Blocks(g, shortcuts, barred, from, to, onTheRoad.value, blocker.value);
      assert blocker.value in barred - shortcuts;
      return;
    }
    var anyRoute := ShortestRoute(g, {}, from, to);
    if anyRoute.Some? {
      blocker := FirstBarred(anyRoute.value, barred, 0);
      assert blocker.None? ==> IsRoute(g, barred, from, to, anyRoute.value);
      assert Avoided(g, rules, from, to) == {};
      assert Blocks(g, {}, barred, from, to, anyRoute.value, blocker.value);
    } else {
      blocker := None;
    }
  }

  /** No move out of s comes to the destination, and those that leave r come to barred states. */
  ghost predicate ClosedOffAt<S>(g: map<S, seq<S>>, barred: set<S>, to: S, r: set<S>, s: S)
  {
    forall next <- Successors(g, s) :: next != to && (next in barred || next in r)
  }

  ghost predicate IsClosedOff<S(!new)>(g: map<S, seq<S>>, barred: set<S>, to: S, r: set<S>)
  {
    forall s <- r :: ClosedOffAt(g, barred, to, r, s)
  }

  lemma {:induction false} StaysClosedOff<S(!new)>(g: map<S, seq<S>>, barred: set<S>, from: S, to: S, r: set<S>,
                                                   route: seq<S>, k: nat)
    requires IsClosedOff(g, barred, to, r) && from in r && IsRoute(g, barred, from, to, route) && k < |route|
    ensures Stop(from, route, k) in r
  {
    if k > 0 {
      StaysClosedOff(g, barred, from, to, r, route, k - 1);
      assert Legal(g, from, route, k - 1) && ClosedOffAt(g, barred, to, r, Stop(from, route, k - 1));
    }
  }

  /** So no route leads there from r. */
  lemma NoRouteOut<S(!new)>(g: map<S, seq<S>>, barred: set<S>, from: S, to: S, r: set<S>)
    requires IsClosedOff(g, barred, to, r) && from in r
    ensures !HasRoute(g, barred, from, to)
  {
    forall route ensures !IsRoute(g, barred, from, to, route) {
      if IsRoute(g, barred, from, to, route) {
        var k := |route| - 1;
        assert Legal(g, from, route, k);
        StaysClosedOff(g, barred, from, to, r, route, k);
      }
    }
  }

  // ---- The real lifecycle ----

  datatype Status =
    | Invited | DocumentVerification | BackgroundVerification | FinalApproval | Training
    | Active | OnLeave | Suspended | Inactive | Resigned | Terminated | Archived

  const TRANSITIONS: map<Status, seq<Status>> := map[
    Invited := [DocumentVerification, Archived],
    DocumentVerification := [BackgroundVerification, Inactive, Archived],
    BackgroundVerification := [FinalApproval, Inactive],
    FinalApproval := [Training, Active, Inactive],
    Training := [Active, Inactive],
    Active := [OnLeave, Suspended, Inactive, Resigned],
    OnLeave := [Active, Inactive],
    Suspended := [Active, Terminated],
    Inactive := [Active, BackgroundVerification, FinalApproval, Archived],
    Resigned := [Invited, Archived],
    Terminated := [Invited, Archived]
  ]

  const RULES: Rules<Status> := Rules(
    {Invited, FinalApproval, Active, Suspended, Resigned, Terminated, Archived},
    {Inactive},
    {Inactive, Suspended, Resigned, Terminated, Archived}
  )

  // ---- Every plan there is ----

  /** Where a bulk change can take somebody, state by state. */
  function Plannable(from: Status): set<Status>
  {
    match from
    case Invited => {DocumentVerification, BackgroundVerification, FinalApproval, Inactive, Archived}
    case DocumentVerification => {BackgroundVerification, FinalApproval, Inactive, Archived}
    case BackgroundVerification => {FinalApproval, Inactive, Archived}
    case FinalApproval => {Training, Active, Inactive, Archived}
    case Training => {Active, Inactive, Archived}
    case Active => {OnLeave, Suspended, Inactive, Resigned, Archived}
    case OnLeave => {Active, Inactive, Archived}
    case Suspended => {Active, Terminated}
    case Inactive => {BackgroundVerification, FinalApproval, Active, Archived}
    case Resigned => {Invited, Archived}
    case Terminated => {Invited, Archived}
    case Archived => {}
  }

  /** Where a move leads that is neither the destination nor barred, the destination is out of reach as well. */
  lemma PlannableIsClosed(s: Status, next: Status, to: Status)
    requires next in Successors(TRANSITIONS, s) && s != to && to !in Plannable(s)
    ensures next != to && (next in RULES.Barred(to) || to !in Plannable(next))
  {
    match s
    case Invited =>
    case DocumentVerification =>
    case BackgroundVerification =>
    case FinalApproval =>
    case Training =>
    case Active =>
    case OnLeave =>
    case Suspended =>
    case Inactive =>
    case Resigned =>
    case Terminated =>
    case Archived =>
  }

  ghost function Unplannable(to: Status): set<Status>
  {
    set s: Status | s != to && to !in Plannable(s)
  }

  lemma UnplannableIsClosedOff(to: Status, s: Status)
    requires s in Unplannable(to)
    ensures ClosedOffAt(TRANSITIONS, RULES.Barred(to), to, Unplannable(to), s)
  {
    forall next | next in Successors(TRANSITIONS, s)
      ensures next != to && (next in RULES.Barred(to) || next in Unplannable(to))
    {
      PlannableIsClosed(s, next, to);
    }
  }

  lemma NotPlannable(from: Status, to: Status)
    requires from in Unplannable(to)
    ensures !HasRoute(TRANSITIONS, RULES.Barred(to), from, to)
  {
    var g, barred, r := TRANSITIONS, RULES.Barred(to), Unplannable(to);
    forall s | s in r ensures ClosedOffAt(g, barred, to, r, s) {
      UnplannableIsClosedOff(to, s);
    }
    NoRouteOut(g, barred, from, to, r);
  }

  /** The steps of a plan, where one exists. */
  function Steps(from: Status, to: Status): seq<Status>
  {
    if from == Invited && to == FinalApproval then [DocumentVerification, BackgroundVerification, to]
    else if from == Invited && (to == BackgroundVerification || to == Inactive) then [DocumentVerification, to]
    else if from == DocumentVerification && to == FinalApproval then [BackgroundVerification, to]
    else if to == Archived && from in {BackgroundVerification, FinalApproval, Training, Active, OnLeave} then
      [Inactive, to]
    else [to]
  }

  lemma LegalSteps(from: Status, to: Status, k: nat)
    requires to in Plannable(from) && k < |Steps(from, to)|
    ensures Legal(TRANSITIONS, from, Steps(from, to), k)
  {
    match from
    case Invited =>
    case DocumentVerification =>
    case BackgroundVerification =>
    case FinalApproval =>
    case Training =>
    case Active =>
    case OnLeave =>
    case Suspended =>
    case Inactive =>
    case Resigned =>
    case Terminated =>
    case Archived =>
  }

  lemma StepsNotBarred(from: Status, to: Status, k: nat)
    requires to in Plannable(from) && k < |Steps(from, to)| - 1
    ensures Steps(from, to)[k] !in RULES.Barred(to)
  {
  }

  lemma StepsAreARoute(from: Status, to: Status)
    requires to in Plannable(from)
    ensures IsRoute(TRANSITIONS, RULES.Barred(to), from, to, Steps(from, to))
  {
    var steps := Steps(from, to);
    forall k: nat | k < |steps| ensures Legal(TRANSITIONS, from, steps, k) {
      LegalSteps(from, to, k);
    }
    forall k: nat | k < |steps| - 1 ensures steps[k] !in RULES.Barred(to) {
      StepsNotBarred(from, to, k);
    }
  }

  /** On the real map there is a plan between two different states exactly where this says. */
  lemma PlansExactly(from: Status, to: Status)
    requires from != to
    ensures HasRoute(TRANSITIONS, RULES.Barred(to), from, to) <==> to in Plannable(from)
  {
    if to in Plannable(from) {
      StepsAreARoute(from, to);
    } else {
      NotPlannable(from, to);
    }
  }

  lemma OneStepOnly(from: Status, to: Status)
    requires to in Plannable(from) && to in Successors(TRANSITIONS, from)
    ensures Steps(from, to) == [to]
  {
  }

  lemma TwoStepsOnly(from: Status, x: Status, to: Status)
    requires to in Plannable(from) && |Steps(from, to)| > 1
    requires x in Successors(TRANSITIONS, from) && x !in RULES.Barred(to) && to in Successors(TRANSITIONS, x)
    ensures Steps(from, to) == [x, to]
  {
  }

  lemma ThreeStepsOnly(from: Status, x: Status, y: Status, to: Status)
    requires to in Plannable(from) && |Steps(from, to)| > 2
    requires x in Successors(TRANSITIONS, from) && x !in RULES.Barred(to)
    requires y in Successors(TRANSITIONS, x) && y !in RULES.Barred(to) && to in Successors(TRANSITIONS, y)
    ensures Steps(from, to) == [x, y, to]
  {
  }

  /** A route as short as those steps is those steps. */
  lemma NoOtherSteps(from: Status, to: Status, route: seq<Status>)
    requires to in Plannable(from) && |route| <= |Steps(from, to)|
    requires IsRoute(TRANSITIONS, RULES.Barred(to), from, to, route)
    ensures route == Steps(from, to)
  {
    assert Legal(TRANSITIONS, from, route, 0);
    if |route| == 1 {
      OneStepOnly(from, to);
    } else {
      assert Legal(TRANSITIONS, from, route, 1);
      if |route| == 2 {
        TwoStepsOnly(from, route[0], to);
      } else {
        assert Legal(TRANSITIONS, from, route, 2);
        ThreeStepsOnly(from, route[0], route[1], to);
      }
    }
  }

  /** So they are the plan. */
  lemma StepsAreThePlan(from: Status, to: Status)
    requires from != to && to in Plannable(from)
    ensures IsFirstRoute(TRANSITIONS, RULES.Barred(to), from, to, Steps(from, to))
  {
    StepsAreARoute(from, to);
    forall route | IsRoute(TRANSITIONS, RULES.Barred(to), from, to, route)
      ensures NotAfter(TRANSITIONS, from, Steps(from, to), route)
    {
      if |route| <= |Steps(from, to)| {
        NoOtherSteps(from, to, route);
      }
    }
  }

  /** The planner on the real map, pair by pair. */
  method RealPlan(from: Status, to: Status) returns (plan: Option<seq<Status>>)
    ensures from == to ==> plan == Some([])
    ensures from != to ==> plan == if to in Plannable(from) then Some(Steps(from, to)) else None
  {
    plan := Path(TRANSITIONS, RULES, from, to);
    if from != to {
      PlansExactly(from, to);
      if to in Plannable(from) {
        StepsAreThePlan(from, to);
        OneFirstRoute(TRANSITIONS, RULES.Barred(to), from, to, plan.value, Steps(from, to));
      }
    }
  }

  /** Outcomes of somebody's decision, not of a walk. */
  predicate IsDecision(s: Status)
  {
    s in {Invited, Active, Suspended, Resigned, Terminated}
  }

  /**
   * Nobody is invited, activated, suspended, resigned or dismissed on the way past: a plan to one of
   * these exists only where the one-record screen offers the move itself.
   */
  lemma DecisionsAreSingleMoves(from: Status, to: Status)
    requires from != to && IsDecision(to)
    ensures HasRoute(TRANSITIONS, RULES.Barred(to), from, to) <==> to in Successors(TRANSITIONS, from)
  {
    PlansExactly(from, to);
  }

  /**
   * Every file can be closed in one plan, through INACTIVE where there is no direct move, except a
   * suspended one: its only ways on are a reinstatement and a dismissal, and both are decisions.
   */
  lemma AllButSuspendedCanBeArchived(from: Status)
    requires from != Archived
    ensures HasRoute(TRANSITIONS, RULES.Barred(Archived), from, Archived) <==> from != Suspended
  {
    PlansExactly(from, Archived);
  }

  /** Nobody leaves the archive, so a route never runs through it. */
  lemma NotThroughTheArchive(avoid: set<Status>, from: Status, to: Status, route: seq<Status>, k: nat)
    requires IsRoute(TRANSITIONS, avoid, from, to, route) && k + 1 < |route|
    ensures route[k] != Archived
  {
    assert Legal(TRANSITIONS, from, route, k + 1);
  }

  /** Off the inactive shortcut, everybody invited comes to the approval before anything else that is barred. */
  lemma InvitedComesToApproval(route: seq<Status>, k: int)
    requires IsRoute(TRANSITIONS, {Inactive}, Invited, Active, route)
    requires FirstBarredAt(route, RULES.Barred(Active), k)
    ensures route[k] == FinalApproval
  {
    assert Legal(TRANSITIONS, Invited, route, 0) && Legal(TRANSITIONS, Invited, route, 1);
    NotThroughTheArchive({Inactive}, Invited, Active, route, 0);
    assert route[0] == DocumentVerification;
    assert route[1] != Active;
    NotThroughTheArchive({Inactive}, Invited, Active, route, 1);
    assert route[1] == BackgroundVerification;
    assert Legal(TRANSITIONS, Invited, route, 2);
  }

  lemma RoadToActive()
    ensures HasRoute(TRANSITIONS, {Inactive}, Invited, Active)
  {
    var road := [DocumentVerification, BackgroundVerification, FinalApproval, Active];
    assert Legal(TRANSITIONS, Invited, road, 0) && Legal(TRANSITIONS, Invited, road, 1);
    assert Legal(TRANSITIONS, Invited, road, 2) && Legal(TRANSITIONS, Invited, road, 3);
    assert IsRoute(TRANSITIONS, {Inactive}, Invited, Active, road);
  }

  lemma ApprovalBlocks(route: seq<Status>, blocker: Status)
    requires Blocks(TRANSITIONS, {Inactive}, RULES.Barred(Active), Invited, Active, route, blocker)
    ensures blocker == FinalApproval
  {
    var k :| FirstBarredAt(route, RULES.Barred(Active), k) && route[k] == blocker;
    InvitedComesToApproval(route, k);
  }

  /** Invited and active are connected, off the shortcut too, but not by a plan. */
  lemma ConnectedWithoutPlan()
    ensures !HasRoute(TRANSITIONS, RULES.Barred(Active), Invited, Active)
    ensures HasRoute(TRANSITIONS, {}, Invited, Active)
    ensures Avoided(TRANSITIONS, RULES, Invited, Active) == {Inactive}
  {
    DecisionsAreSingleMoves(Invited, Active);
    RoadToActive();
    var road :| IsRoute(TRANSITIONS, {Inactive}, Invited, Active, road);
    FewerRoutes(TRANSITIONS, {}, {Inactive}, Invited, Active, road);
    assert RULES.InboundOnly(Active) == {Inactive};
  }

  /** Nobody invited is activated in bulk, and what stands in the way is the approval, not the inactive shortcut. */
  method WhyInvitedIsNotActivated() returns (blocker: Option<Status>)
    ensures blocker == Some(FinalApproval)
  {
    ConnectedWithoutPlan();
    blocker := BlockedBy(TRANSITIONS, RULES, Invited, Active);
    ghost var avoided := Avoided(TRANSITIONS, RULES, Invited, Active);
    ghost var route :| Blocks(TRANSITIONS, avoided, RULES.Barred(Active), Invited, Active, route, blocker.value);
    ApprovalBlocks(route, blocker.value);
  }

  /** Only the active can be suspended, and from Invited the active are three moves away at the least. */
  lemma InvitedComesToActive(route: seq<Status>)
    requires IsRoute(TRANSITIONS, {}, Invited, Suspended, route) && |route| <= 4
    ensures route == [DocumentVerification, Inactive, Active, Suspended]
  {
    var n := |route|;
    assert Legal(TRANSITIONS, Invited, route, n - 1) && Stop(Invited, route, n - 1) == Active;
    assert Legal(TRANSITIONS, Invited, route, n - 2) && Legal(TRANSITIONS, Invited, route, 0);
    assert Legal(TRANSITIONS, Invited, route, 1);
  }

  lemma RoadToSuspended()
    ensures IsRoute(TRANSITIONS, {}, Invited, Suspended, [DocumentVerification, Inactive, Active, Suspended])
  {
    var road := [DocumentVerification, Inactive, Active, Suspended];
    assert Legal(TRANSITIONS, Invited, road, 0) && Legal(TRANSITIONS, Invited, road, 1);
    assert Legal(TRANSITIONS, Invited, road, 2) && Legal(TRANSITIONS, Invited, road, 3);
  }

  lemma ActiveBlocks(route: seq<Status>, blocker: Status)
    requires Blocks(TRANSITIONS, {}, RULES.Barred(Suspended), Invited, Suspended, route, blocker)
    ensures blocker == Active
  {
    RoadToSuspended();
    FirstIsShortest(TRANSITIONS, {}, Invited, Suspended, route, [DocumentVerification, Inactive, Active, Suspended]);
    InvitedComesToActive(route);
  }

  /** No batch of invited people can be suspended: each would have to be made active first. */
  method WhyInvitedIsNotSuspended() returns (blocker: Option<Status>)
    ensures blocker == Some(Active)
  {
    DecisionsAreSingleMoves(Invited, Suspended);
    RoadToSuspended();
    assert Avoided(TRANSITIONS, RULES, Invited, Suspended) == {};
    blocker := BlockedBy(TRANSITIONS, RULES, Invited, Suspended);
    ghost var route :| Blocks(TRANSITIONS, {}, RULES.Barred(Suspended), Invited, Suspended, route, blocker.value);
    ActiveBlocks(route, blocker.value);
  }
}
