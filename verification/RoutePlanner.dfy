/**
 * Breadth-first route planning over a transition map (packages/shared/src/assayer-lifecycle.ts,
 * `assayerLifecyclePath` and the search inside `assayerLifecycleBlockedBy`), for any finite map
 * and any set of states a route may not pass through.
 */
module RoutePlanner {

  import opened Common
  import opened Walks

  /** A state waiting to be expanded, with the route found to it. */
  datatype Entry<S> = Entry(state: S, path: seq<S>)

  // ---- What the search knows ----

  /** A chain to the state that avoids barred states. */
  ghost predicate Reaches<S>(g: map<S, seq<S>>, barred: set<S>, from: S, s: S, path: seq<S>)
  {
    IsChain(g, from, path) && End(from, path) == s && forall k :: 0 <= k < |path| ==> path[k] !in barred
  }

  /** `best` holds a way to every state reached. */
  ghost predicate BestOk<S>(g: map<S, seq<S>>, barred: set<S>, from: S, best: map<S, seq<S>>)
  {
    from in best && best[from] == [] && forall s <- best :: Reaches(g, barred, from, s, best[s])
  }

  /** A successor that has been dealt with: not the destination, and barred or reached in no later a way. */
  ghost predicate Settled<S>(g: map<S, seq<S>>, barred: set<S>, from: S, to: S, best: map<S, seq<S>>,
                             next: S, way: seq<S>)
  {
    next != to && (next in barred || (next in best && NotAfter(g, from, best[next], way)))
  }

  ghost predicate Expanded<S>(g: map<S, seq<S>>, barred: set<S>, from: S, to: S, best: map<S, seq<S>>, s: S)
    requires s in best
  {
    forall next <- Successors(g, s) :: Settled(g, barred, from, to, best, next, best[s] + [next])
  }

  ghost predicate Pending<S>(queue: seq<Entry<S>>, s: S)
  {
    exists e <- queue :: e.state == s
  }

  /** Every state reached has been expanded or is waiting, except `current`. */
  ghost predicate Accounted<S>(g: map<S, seq<S>>, barred: set<S>, from: S, to: S, best: map<S, seq<S>>,
                               queue: seq<Entry<S>>, current: set<S>)
  {
    forall s <- best :: s in current || Pending(queue, s) || Expanded(g, barred, from, to, best, s)
  }

  /** The queue is in order, and its paths are the best ones. */
  ghost predicate QueueOk<S>(g: map<S, seq<S>>, from: S, best: map<S, seq<S>>, queue: seq<Entry<S>>)
  {
    && (forall e <- queue :: e.state in best && best[e.state] == e.path)
    && (forall i, j :: 0 <= i < j < |queue| ==> Before(g, from, queue[i].path, queue[j].path))
  }

  ghost function Universe<S(!new)>(g: map<S, seq<S>>, from: S): set<S>
  {
    {from} + set s, next | s in g && next in g[s] :: next
  }

  /** Everything the search relies on; `current` is the state being expanded, if any. */
  ghost predicate Sound<S(!new)>(g: map<S, seq<S>>, barred: set<S>, from: S, to: S, best: map<S, seq<S>>,
                                 queue: seq<Entry<S>>, current: set<S>)
  {
    && BestOk(g, barred, from, best) && to !in best && best.Keys <= Universe(g, from)
    && QueueOk(g, from, best, queue) && Accounted(g, barred, from, to, best, queue, current)
  }

  /** Whatever has been reached was reached by expanding something before h. */
  ghost predicate ParentsBefore<S>(g: map<S, seq<S>>, from: S, best: map<S, seq<S>>, h: seq<S>)
  {
    forall s <- best :: best[s] == [] || Before(g, from, Parent(best[s]), h)
  }

  /** Between expansions. */
  ghost predicate Resting<S(!new)>(g: map<S, seq<S>>, barred: set<S>, from: S, to: S, best: map<S, seq<S>>,
                                   queue: seq<Entry<S>>)
  {
    && Sound(g, barred, from, to, best, queue, {})
    && forall e <- queue :: ParentsBefore(g, from, best, e.path)
  }

  /** s was reached before h was expanded, or from h as one of its first j successors. */
  ghost predicate ReachedBy<S>(g: map<S, seq<S>>, from: S, best: map<S, seq<S>>, h: seq<S>, j: nat, s: S)
    requires s in best
  {
    || best[s] == []
    || Before(g, from, Parent(best[s]), h)
    || (Parent(best[s]) == h && Rank(Successors(g, End(from, h)), s) < j)
  }

  ghost predicate AllReachedBy<S>(g: map<S, seq<S>>, from: S, best: map<S, seq<S>>, h: seq<S>, j: nat)
  {
    forall s <- best :: ReachedBy(g, from, best, h, j, s)
  }

  /** Everything waiting comes after h. */
  ghost predicate AllAfter<S>(g: map<S, seq<S>>, from: S, h: seq<S>, queue: seq<Entry<S>>)
  {
    forall e <- queue :: Before(g, from, h, e.path)
  }

  /** The first j successors of head have been dealt with. */
  ghost predicate SettledTo<S>(g: map<S, seq<S>>, barred: set<S>, from: S, to: S, best: map<S, seq<S>>,
                               head: Entry<S>, j: nat)
    requires j <= |Successors(g, head.state)|
  {
    forall i :: 0 <= i < j ==>
      var next := Successors(g, head.state)[i];
      Settled(g, barred, from, to, best, next, head.path + [next])
  }

  /** In the middle of expanding `head`, with j of its successors settled. */
  ghost predicate Expanding<S(!new)>(g: map<S, seq<S>>, barred: set<S>, from: S, to: S, best: map<S, seq<S>>,
                                     queue: seq<Entry<S>>, head: Entry<S>, j: nat)
  {
    && Sound(g, barred, from, to, best, queue, {head.state})
    && head.state in best && best[head.state] == head.path
    && AllAfter(g, from, head.path, queue) && AllReachedBy(g, from, best, head.path, j)
    && j <= |Successors(g, head.state)| && SettledTo(g, barred, from, to, best, head, j)
  }

  // ---- Why the answer is the first of the shortest ----

  /** All that is before h has been expanded. */
  ghost predicate Horizon<S>(g: map<S, seq<S>>, barred: set<S>, from: S, to: S, best: map<S, seq<S>>, h: seq<S>)
  {
    forall s <- best :: Before(g, from, best[s], h) ==> Expanded(g, barred, from, to, best, s)
  }

  /** Following any route up to the horizon, the search has reached every stop no later. */
  lemma {:induction false} KeepsUp<S>(g: map<S, seq<S>>, barred: set<S>, from: S, to: S, best: map<S, seq<S>>,
                                      h: seq<S>, route: seq<S>, k: nat)
    requires BestOk(g, barred, from, best) && Horizon(g, barred, from, to, best, h)
    requires IsRoute(g, barred, from, to, route) && k < |route| && Before(g, from, Parent(route), h)
    ensures Stop(from, route, k) in best && NotAfter(g, from, best[Stop(from, route, k)], route[..k])
  {
    if k > 0 {
      KeepsUp(g, barred, from, to, best, h, route, k - 1);
      var prior, next := Stop(from, route, k - 1), route[k - 1];
      BeforeTransitive(g, from, best[prior], route[..k - 1], h);
      assert Legal(g, from, route, k - 1);
      assert Settled(g, barred, from, to, best, next, best[prior] + [next]);
      ExtendNotAfter(g, from, best[prior], route[..k - 1], next);
      assert route[..k - 1] + [next] == route[..k];
      NotAfterTransitive(g, from, best[next], best[prior] + [next], route[..k]);
    }
  }

  /** With all that is before h expanded and the destination not found, no route gets there from before h. */
  lemma NoEarlierRoute<S>(g: map<S, seq<S>>, barred: set<S>, from: S, to: S, best: map<S, seq<S>>,
                          h: seq<S>, route: seq<S>)
    requires BestOk(g, barred, from, best) && Horizon(g, barred, from, to, best, h)
    requires IsRoute(g, barred, from, to, route)
    ensures !Before(g, from, Parent(route), h)
  {
    if Before(g, from, Parent(route), h) {
      var k := |route| - 1;
      assert Legal(g, from, route, k);
      KeepsUp(g, barred, from, to, best, h, route, k);
      BeforeTransitive(g, from, best[Stop(from, route, k)], Parent(route), h);
    }
  }

  /** Everything before the state being expanded has been expanded already. */
  lemma EarlierExpanded<S(!new)>(g: map<S, seq<S>>, barred: set<S>, from: S, to: S, best: map<S, seq<S>>,
                                 queue: seq<Entry<S>>, head: Entry<S>, j: nat)
    requires Expanding(g, barred, from, to, best, queue, head, j)
    ensures Horizon(g, barred, from, to, best, head.path)
  {
    forall s | s in best && Before(g, from, best[s], head.path) ensures Expanded(g, barred, from, to, best, s) {
      NotBoth(g, from, best[s], head.path);
      assert !Pending(queue, s);
    }
  }

  // ---- One state discovered ----

  /** What has been settled stays so when a new state is reached. */
  lemma DiscoverKeepsAccount<S>(g: map<S, seq<S>>, barred: set<S>, from: S, to: S, best: map<S, seq<S>>,
                                queue: seq<Entry<S>>, current: set<S>, e: Entry<S>)
    requires e.state !in best
    requires Accounted(g, barred, from, to, best, queue, current)
    ensures Accounted(g, barred, from, to, best[e.state := e.path], queue + [e], current)
  {
    var best' := best[e.state := e.path];
    forall s | s in best'
      ensures s in current || Pending(queue + [e], s) || Expanded(g, barred, from, to, best', s)
    {
      if s == e.state {
        assert e in queue + [e];
      } else if Pending(queue, s) {
        var f :| f in queue && f.state == s;
        assert f in queue + [e];
      } else if Expanded(g, barred, from, to, best, s) {
        forall next | next in Successors(g, s)
          ensures Settled(g, barred, from, to, best', next, best'[s] + [next])
        {
          assert Settled(g, barred, from, to, best, next, best[s] + [next]);
        }
      }
    }
  }

  lemma ExtendReach<S>(g: map<S, seq<S>>, barred: set<S>, from: S, s: S, path: seq<S>, next: S)
    requires Reaches(g, barred, from, s, path) && next in Successors(g, s)
    ensures IsChain(g, from, path + [next]) && End(from, path + [next]) == next
    ensures next !in barred ==> Reaches(g, barred, from, next, path + [next])
  {
    var route := path + [next];
    forall k: nat | k < |route| ensures Legal(g, from, route, k) {
      assert Stop(from, route, k) == Stop(from, path, k);
      assert k < |path| ==> Legal(g, from, path, k);
    }
  }

  /** A path ends where it leads. */
  lemma LastOf<S>(from: S, path: seq<S>, s: S)
    requires path != [] && End(from, path) == s
    ensures path == Parent(path) + [s]
  {
  }

  /** What was reached before the j-th successor comes before it. */
  lemma ReachedBeforeIt<S(!new)>(g: map<S, seq<S>>, barred: set<S>, from: S, to: S, best: map<S, seq<S>>,
                                 queue: seq<Entry<S>>, head: Entry<S>, j: nat, s: S)
    requires Expanding(g, barred, from, to, best, queue, head, j) && j < |Successors(g, head.state)|
    requires s in best && Rank(Successors(g, head.state), Successors(g, head.state)[j]) == j
    ensures Before(g, from, best[s], head.path + [Successors(g, head.state)[j]])
  {
    var next := Successors(g, head.state)[j];
    assert ReachedBy(g, from, best, head.path, j, s) && Reaches(g, barred, from, head.state, best[head.state]);
    if best[s] != [] {
      assert Reaches(g, barred, from, s, best[s]);
      LastOf(from, best[s], s);
      if Before(g, from, Parent(best[s]), head.path) {
        ExtendBefore(g, from, Parent(best[s]), head.path, s, next);
      } else {
        BranchBefore(g, from, head.path, s, next);
      }
    }
  }

  /** A successor reached already is settled. */
  lemma SeenIsSettled<S(!new)>(g: map<S, seq<S>>, barred: set<S>, from: S, to: S, best: map<S, seq<S>>,
                               queue: seq<Entry<S>>, head: Entry<S>, j: nat, next: S)
    requires Expanding(g, barred, from, to, best, queue, head, j) && next in best
    ensures Settled(g, barred, from, to, best, next, head.path + [next])
  {
    assert ReachedBy(g, from, best, head.path, j, next);
    if best[next] != [] {
      assert Reaches(g, barred, from, next, best[next]);
      LastOf(from, best[next], next);
      if Parent(best[next]) != head.path {
        ExtendBefore(g, from, Parent(best[next]), head.path, next, next);
      }
    }
  }

  /** The next successor is first met at its own place. */
  lemma NewAtItsPlace<S(!new)>(g: map<S, seq<S>>, barred: set<S>, from: S, to: S, best: map<S, seq<S>>,
                               queue: seq<Entry<S>>, head: Entry<S>, j: nat)
    requires Expanding(g, barred, from, to, best, queue, head, j) && j < |Successors(g, head.state)|
    requires Successors(g, head.state)[j] !in best && Successors(g, head.state)[j] !in barred
    ensures Rank(Successors(g, head.state), Successors(g, head.state)[j]) == j
  {
    RankAt(Successors(g, head.state), j);
  }

  lemma DiscoverKeepsQueue<S(!new)>(g: map<S, seq<S>>, barred: set<S>, from: S, to: S, best: map<S, seq<S>>,
                                    queue: seq<Entry<S>>, head: Entry<S>, j: nat, e: Entry<S>)
    requires Expanding(g, barred, from, to, best, queue, head, j) && j < |Successors(g, head.state)|
    requires e.state == Successors(g, head.state)[j] && e.state !in best && e.state !in barred
    requires e.path == head.path + [e.state]
    ensures QueueOk(g, from, best[e.state := e.path], queue + [e])
  {
    NewAtItsPlace(g, barred, from, to, best, queue, head, j);
    forall f | f in queue ensures Before(g, from, f.path, e.path) {
      ReachedBeforeIt(g, barred, from, to, best, queue, head, j, f.state);
    }
  }

  lemma DiscoverKeepsBest<S(!new)>(g: map<S, seq<S>>, barred: set<S>, from: S, to: S, best: map<S, seq<S>>,
                                   queue: seq<Entry<S>>, head: Entry<S>, j: nat, e: Entry<S>)
    requires Expanding(g, barred, from, to, best, queue, head, j) && j < |Successors(g, head.state)|
    requires e.state == Successors(g, head.state)[j] && e.state !in best && e.state !in barred
    requires e.path == head.path + [e.state]
    ensures BestOk(g, barred, from, best[e.state := e.path])
    ensures AllReachedBy(g, from, best[e.state := e.path], head.path, j + 1)
  {
    var best' := best[e.state := e.path];
    NewAtItsPlace(g, barred, from, to, best, queue, head, j);
    assert Reaches(g, barred, from, head.state, best[head.state]);
    ExtendReach(g, barred, from, head.state, head.path, e.state);
    forall s | s in best' ensures ReachedBy(g, from, best', head.path, j + 1, s) {
      if s == e.state {
        assert Parent(best'[s]) == head.path;
      } else {
        assert ReachedBy(g, from, best, head.path, j, s);
      }
    }
  }

  lemma DiscoverSettles<S>(g: map<S, seq<S>>, barred: set<S>, from: S, to: S, best: map<S, seq<S>>,
                           head: Entry<S>, j: nat, e: Entry<S>)
    requires j < |Successors(g, head.state)| && SettledTo(g, barred, from, to, best, head, j)
    requires e.state == Successors(g, head.state)[j] && e.state !in best && e.state != to
    requires e.path == head.path + [e.state]
    ensures SettledTo(g, barred, from, to, best[e.state := e.path], head, j + 1)
  {
  }

  lemma InUniverse<S(!new)>(g: map<S, seq<S>>, from: S, s: S, next: S)
    requires next in Successors(g, s)
    ensures next in Universe(g, from)
  {
    assert s in g && next in g[s];
  }

  /** A newly reached successor joins the end of the queue. */
  lemma Discover<S(!new)>(g: map<S, seq<S>>, barred: set<S>, from: S, to: S, best: map<S, seq<S>>,
                          queue: seq<Entry<S>>, head: Entry<S>, j: nat, e: Entry<S>)
    requires Expanding(g, barred, from, to, best, queue, head, j) && j < |Successors(g, head.state)|
    requires e.state == Successors(g, head.state)[j] && e.state !in best && e.state !in barred && e.state != to
    requires e.path == head.path + [e.state]
    ensures Expanding(g, barred, from, to, best[e.state := e.path], queue + [e], head, j + 1)
    ensures WorkLeft(g, from, best.Keys + {e.state}, queue + [e]) == WorkLeft(g, from, best.Keys, queue)
  {
    DiscoverKeepsQueue(g, barred, from, to, best, queue, head, j, e);
    DiscoverKeepsBest(g, barred, from, to, best, queue, head, j, e);
    DiscoverKeepsAccount(g, barred, from, to, best, queue, {head.state}, e);
    DiscoverSettles(g, barred, from, to, best, head, j, e);
    InUniverse(g, from, head.state, e.state);
    assert Universe(g, from) - best.Keys == (Universe(g, from) - (best.Keys + {e.state})) + {e.state};
  }

  /** A successor reached before, or barred, changes nothing. */
  lemma Skip<S(!new)>(g: map<S, seq<S>>, barred: set<S>, from: S, to: S, best: map<S, seq<S>>,
                      queue: seq<Entry<S>>, head: Entry<S>, j: nat)
    requires Expanding(g, barred, from, to, best, queue, head, j) && j < |Successors(g, head.state)|
    requires var next := Successors(g, head.state)[j]; next in best || (next in barred && next != to)
    ensures Expanding(g, barred, from, to, best, queue, head, j + 1)
  {
    var next := Successors(g, head.state)[j];
    if next in best {
      SeenIsSettled(g, barred, from, to, best, queue, head, j, next);
    }
    forall s | s in best ensures ReachedBy(g, from, best, head.path, j + 1, s) {
      assert ReachedBy(g, from, best, head.path, j, s);
    }
  }

  // ---- The search ----

  /** The work left: states not reached yet, and states waiting. */
  ghost function WorkLeft<S(!new)>(g: map<S, seq<S>>, from: S, seen: set<S>, queue: seq<Entry<S>>): nat
  {
    |Universe(g, from) - seen| + |queue|
  }

  lemma Begin<S(!new)>(g: map<S, seq<S>>, barred: set<S>, from: S, to: S)
    requires from != to
    ensures Resting(g, barred, from, to, map[from := []], [Entry(from, [])])
  {
    var queue := [Entry(from, [])];
    assert Pending(queue, from) by {
      assert queue[0] in queue;
    }
  }

  /** Dropping the head of the queue leaves only its state unaccounted for. */
  lemma DequeueKeepsAccount<S>(g: map<S, seq<S>>, barred: set<S>, from: S, to: S, best: map<S, seq<S>>,
                               queue: seq<Entry<S>>)
    requires queue != [] && Accounted(g, barred, from, to, best, queue, {})
    ensures Accounted(g, barred, from, to, best, queue[1..], {queue[0].state})
  {
    forall s | s in best
      ensures s == queue[0].state || Pending(queue[1..], s) || Expanded(g, barred, from, to, best, s)
    {
      if Pending(queue, s) {
        var e :| e in queue && e.state == s;
        assert e == queue[0] || e in queue[1..];
      }
    }
  }

  lemma Dequeue<S(!new)>(g: map<S, seq<S>>, barred: set<S>, from: S, to: S, best: map<S, seq<S>>, queue: seq<Entry<S>>)
    requires queue != [] && Resting(g, barred, from, to, best, queue)
    ensures Expanding(g, barred, from, to, best, queue[1..], queue[0], 0)
  {
    DequeueKeepsAccount(g, barred, from, to, best, queue);
    var head, rest := queue[0], queue[1..];
    assert head in queue;
    forall e | e in rest ensures e in queue && Before(g, from, head.path, e.path) {
      var i :| 0 <= i < |rest| && rest[i] == e;
      assert e == queue[i + 1];
    }
  }

  /** A successor equal to the destination ends the first of the shortest routes. */
  lemma Arrive<S(!new)>(g: map<S, seq<S>>, barred: set<S>, from: S, to: S, best: map<S, seq<S>>,
                        queue: seq<Entry<S>>, head: Entry<S>, j: nat)
    requires Expanding(g, barred, from, to, best, queue, head, j) && to in Successors(g, head.state)
    ensures IsFirstRoute(g, barred, from, to, head.path + [to])
  {
    var found := head.path + [to];
    assert Reaches(g, barred, from, head.state, best[head.state]);
    ExtendReach(g, barred, from, head.state, head.path, to);
    EarlierExpanded(g, barred, from, to, best, queue, head, j);
    forall route | IsRoute(g, barred, from, to, route) ensures NotAfter(g, from, found, route) {
      assert route == Parent(route) + [to];
      NoEarlierRoute(g, barred, from, to, best, head.path, route);
      BeforeIsTotal(g, from, found, route);
      assert Parent(found) == head.path;
    }
  }

  /** With all its successors settled the state is expanded. */
  lemma Finish<S(!new)>(g: map<S, seq<S>>, barred: set<S>, from: S, to: S, best: map<S, seq<S>>,
                        queue: seq<Entry<S>>, head: Entry<S>)
    requires Expanding(g, barred, from, to, best, queue, head, |Successors(g, head.state)|)
    ensures Resting(g, barred, from, to, best, queue)
  {
    assert Expanded(g, barred, from, to, best, head.state);
    forall e, s | e in queue && s in best && best[s] != [] ensures Before(g, from, Parent(best[s]), e.path) {
      assert ReachedBy(g, from, best, head.path, |Successors(g, head.state)|, s);
      BeforeTransitive(g, from, Parent(best[s]), head.path, e.path);
    }
  }

  /** Deal with every successor of one state: return the destination, or queue what is new. */
  method Expand<S(==,!new)>(g: map<S, seq<S>>, barred: set<S>, from: S, to: S, head: Entry<S>, rest: seq<Entry<S>>,
                            reached: set<S>, ghost bestIn: map<S, seq<S>>)
      returns (found: Option<seq<S>>, queue: seq<Entry<S>>, seen: set<S>, ghost best: map<S, seq<S>>)
    requires reached == bestIn.Keys && Expanding(g, barred, from, to, bestIn, rest, head, 0)
    ensures found.Some? ==> IsFirstRoute(g, barred, from, to, found.value)
    ensures found.None? ==> seen == best.Keys && Resting(g, barred, from, to, best, queue)
    ensures found.None? ==> WorkLeft(g, from, seen, queue) == WorkLeft(g, from, reached, rest)
  {
    queue, seen, best := rest, reached, bestIn;
    var path, nexts := head.path, Successors(g, head.state);
    for j := 0 to |nexts|
      invariant seen == best.Keys
      invariant Expanding(g, barred, from, to, best, queue, head, j)
      invariant WorkLeft(g, from, seen, queue) == WorkLeft(g, from, reached, rest)
    {
      var next := nexts[j];
      if next in seen {
        Skip(g, barred, from, to, best, queue, head, j);
        continue;
      }
      var nextPath := path + [next];
      if next == to {
        Arrive(g, barred, from, to, best, queue, head, j);
        found := Some(nextPath);
        return;
      }
      if next in barred {
        Skip(g, barred, from, to, best, queue, head, j);
        continue;
      }
      Discover(g, barred, from, to, best, queue, head, j, Entry(next, nextPath));
      seen := seen + {next};
      best := best[next := nextPath];
      queue := queue + [Entry(next, nextPath)];
    }
    Finish(g, barred, from, to, best, queue, head);
    found := None;
  }

  /**
   * Breadth-first search: the answer is the first of the shortest routes, and there is an answer
   * whenever there is a route at all.
   */
  method ShortestRoute<S(==,!new)>(g: map<S, seq<S>>, barred: set<S>, from: S, to: S) returns (result: Option<seq<S>>)
    requires from != to
    ensures result.Some? ==> IsFirstRoute(g, barred, from, to, result.value)
    ensures result.None? ==> forall route :: !IsRoute(g, barred, from, to, route)
  {
    var queue := [Entry(from, [])];
    var seen := {from};
    ghost var best: map<S, seq<S>> := map[from := []];
    Begin(g, barred, from, to);
    while |queue| > 0
      invariant seen == best.Keys && Resting(g, barred, from, to, best, queue)
      decreases WorkLeft(g, from, seen, queue)
    {
      Dequeue(g, barred, from, to, best, queue);
      var head, rest := queue[0], queue[1..];
      result, queue, seen, best := Expand(g, barred, from, to, head, rest, seen, best);
      if result.Some? {
        return;
      }
    }
    forall route ensures !IsRoute(g, barred, from, to, route) {
      if IsRoute(g, barred, from, to, route) {
        NoEarlierRoute(g, barred, from, to, best, route, route);
      }
    }
    return None;
  }
}
