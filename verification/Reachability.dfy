/** The library's one graph traversal and the set it builds (cas/reachability.go). */
module Reachability {
  import opened Common
  import opened Digests
  import opened Graphs

  /** What a resolver returns for one digest: the node (seen here only through
      its `References`), an explicit reference list, or a failure. `None` is Go's
      nil in both places. */
  datatype Resolution =
    | Found(node: Option<seq<Digest>>, refs: Option<seq<Digest>>)
    | Failed(error: Error)
  {
    /** The references the walk follows: the explicit list, else the node's. */
    function References(): seq<Digest> {
      match this
      case Found(_, Some(refs)) => refs
      case Found(Some(own), None) => own
      case _ => []
    }
  }

  type NodeResolver = Digest -> Resolution

  /** The visitor's answer to the newest of the calls made so far. */
  type Visitor = seq<Digest> -> Option<Error>

  /** Drops absent digests: they mean "no reference". */
  function Present(ds: seq<Digest>): seq<Digest> {
    if |ds| == 0 then []
    else if IsZero(ds[0]) then Present(ds[1..])
    else [ds[0]] + Present(ds[1..])
  }

  lemma {:induction false} PresentAppend(a: seq<Digest>, b: seq<Digest>)
    ensures Present(a + b) == Present(a) + Present(b)
  {
    if |a| == 0 {
      assert a + b == b;
    } else {
      PresentAppend(a[1..], b);
      ConcatAssoc([a[0]], Present(a[1..]), Present(b));
      assert (a + b)[0] == a[0] && (a + b)[1..] == a[1..] + b;
    }
  }

  lemma {:induction false} PresentMember(ds: seq<Digest>, d: Digest)
    ensures d in Present(ds) <==> d in ds && !IsZero(d)
  {
    if |ds| > 0 {
      PresentMember(ds[1..], d);
    }
  }

  /** The graph a resolver presents. */
  function EdgesOf(resolve: NodeResolver): Edges {
    d => Present(resolve(d).References())
  }

  /** The order the nested recursive search would visit, root list reversed. */
  ghost function Preorder(resolve: NodeResolver, support: set<Digest>, roots: seq<Digest>): seq<Digest>
    requires FiniteSupport(EdgesOf(resolve), support)
  {
    VisitAll(EdgesOf(resolve), support, Reverse(Present(roots)), {})
  }

  /** Why a walk ended. */
  datatype Stop =
    | Finished
    | ContextDone
    | ResolverFailed(error: Error)
    | VisitorFailed(error: Error)

  /** Every digest of `calls` resolved, and the visitor accepted each in turn.
      Its answer may depend on every call made so far. */
  ghost predicate Accepted(resolve: NodeResolver, visit: Visitor, calls: seq<Digest>) {
    |calls| > 0 ==>
      && Accepted(resolve, visit, calls[..|calls| - 1])
      && resolve(calls[|calls| - 1]).Found?
      && visit(calls) == None
  }

  /** `calls` is what a walk over `order` hands the visitor: everything up to the
      first digest the resolver fails on (excluded), the first the visitor
      refuses (included), or a cancellation. The context was found alive at
      `checks` checks, one at the start and one for every digest popped, and a
      check that finds it done ends the walk. */
  ghost predicate WalkOutcome(resolve: NodeResolver, order: seq<Digest>, visit: Visitor,
                              done: nat -> bool, calls: seq<Digest>, checks: nat, stop: Stop)
  {
    && calls <= order && Alive(done, checks)
    && match stop
       case Finished => calls == order && Accepted(resolve, visit, calls) && |calls| < checks
       case ContextDone => done(checks) && Accepted(resolve, visit, calls) && |calls| <= checks
       case ResolverFailed(error) =>
         && Accepted(resolve, visit, calls) && |calls| + 1 < checks
         && |calls| < |order| && resolve(order[|calls|]) == Failed(error)
       case VisitorFailed(error) =>
         && 0 < |calls| < checks && Accepted(resolve, visit, calls[..|calls| - 1])
         && resolve(calls[|calls| - 1]).Found? && visit(calls) == Some(error)
  }

  /** Pushes the references the walk has yet to visit, last one first. */
  method PushReferences(stack: seq<Digest>, refs: seq<Digest>, visited: set<Digest>) returns (pushed: seq<Digest>)
    ensures pushed == stack + Reverse(Unseen(Present(refs), visited))
  {
    pushed := stack;
    var i := |refs|;
    while i > 0
      invariant 0 <= i <= |refs|
      invariant pushed == stack + Reverse(Unseen(Present(refs[i..]), visited))
    {
      i := i - 1;
      assert refs[i..] == [refs[i]] + refs[i + 1..];
      if !IsZero(refs[i]) && refs[i] !in visited {
        pushed := pushed + [refs[i]];
      }
    }
    assert refs[0..] == refs;
  }

  /** The order a walk still owes: the nested search over its stack, top first. */
  ghost function Owed(edges: Edges, support: set<Digest>, stack: seq<Digest>, visited: set<Digest>): seq<Digest>
    requires FiniteSupport(edges, support)
    decreases |stack|
  {
    if |stack| == 0 then [] else
      var top := VisitOne(edges, support, stack[|stack| - 1], visited);
      top + Owed(edges, support, stack[..|stack| - 1], visited + Elems(top))
  }

  lemma OwedSnoc(edges: Edges, support: set<Digest>, rest: seq<Digest>, d: Digest, visited: set<Digest>)
    requires FiniteSupport(edges, support)
    ensures var top := VisitOne(edges, support, d, visited);
            Owed(edges, support, rest + [d], visited) == top + Owed(edges, support, rest, visited + Elems(top))
  {
    assert (rest + [d])[..|rest|] == rest;
  }

  lemma {:induction false} OwedPushed(edges: Edges, support: set<Digest>, rest: seq<Digest>,
                                      pending: seq<Digest>, visited: set<Digest>)
    requires FiniteSupport(edges, support)
    ensures Owed(edges, support, rest + Reverse(pending), visited) ==
            VisitAll(edges, support, pending, visited)
            + Owed(edges, support, rest, visited + Elems(VisitAll(edges, support, pending, visited)))
    decreases |pending|
  {
    if |pending| == 0 {
      assert rest + [] == rest && visited + Elems([]) == visited;
    } else {
      ConcatAssoc(rest, Reverse(pending[1..]), [pending[0]]);
      OwedSnoc(edges, support, rest + Reverse(pending[1..]), pending[0], visited);
      var first := VisitOne(edges, support, pending[0], visited);
      OwedPushed(edges, support, rest, pending[1..], visited + Elems(first));
      var more := VisitAll(edges, support, pending[1..], visited + Elems(first));
      assert visited + Elems(first) + Elems(more) == visited + Elems(first + more);
      ConcatAssoc(first, more, Owed(edges, support, rest, visited + Elems(first + more)));
    }
  }

  lemma OwedAtStart(edges: Edges, support: set<Digest>, stack: seq<Digest>)
    requires FiniteSupport(edges, support)
    ensures Owed(edges, support, stack, {}) == VisitAll(edges, support, Reverse(stack), {})
  {
    ReverseReverse(stack);
    OwedPushed(edges, support, [], Reverse(stack), {});
    assert [] + stack == stack;
    var order := VisitAll(edges, support, Reverse(stack), {});
    assert Owed(edges, support, [], {} + Elems(order)) == [];
    assert order + [] == order;
  }

  lemma OwedSkipped(edges: Edges, support: set<Digest>, stack: seq<Digest>, visited: set<Digest>)
    requires FiniteSupport(edges, support) && |stack| > 0 && stack[|stack| - 1] in visited
    ensures Owed(edges, support, stack, visited) == Owed(edges, support, stack[..|stack| - 1], visited)
  {
    assert visited + Elems([]) == visited;
  }

  lemma OwedTop(edges: Edges, support: set<Digest>, rest: seq<Digest>, d: Digest, visited: set<Digest>)
    requires FiniteSupport(edges, support) && d !in visited
    ensures var below := VisitAll(edges, support, edges(d), visited + {d});
            Owed(edges, support, rest + [d], visited) ==
            [d] + (below + Owed(edges, support, rest, visited + {d} + Elems(below)))
  {
    var below := VisitAll(edges, support, edges(d), visited + {d});
    OwedSnoc(edges, support, rest, d, visited);
    assert visited + Elems([d] + below) == visited + {d} + Elems(below);
    assert VisitOne(edges, support, d, visited) == [d] + below;
  }

  /** One visit pays exactly one digest of what is owed. */
  lemma OwedVisited(edges: Edges, support: set<Digest>, order: seq<Digest>, calls: seq<Digest>,
                    stack: seq<Digest>, visited: set<Digest>)
    requires FiniteSupport(edges, support) && |stack| > 0 && stack[|stack| - 1] !in visited
    requires order == calls + Owed(edges, support, stack, visited)
    ensures var d, rest := stack[|stack| - 1], stack[..|stack| - 1];
            && calls + [d] <= order
            && order == calls + [d]
                        + Owed(edges, support, rest + Reverse(Unseen(edges(d), visited + {d})), visited + {d})
  {
    var d, rest := stack[|stack| - 1], stack[..|stack| - 1];
    assert stack == rest + [d];
    var seen := visited + {d};
    OwedTop(edges, support, rest, d, visited);
    OwedPushed(edges, support, rest, Unseen(edges(d), seen), seen);
    VisitAllSkipsSeen(edges, support, edges(d), seen, seen);
    ConcatAssoc(calls, [d], Owed(edges, support, rest + Reverse(Unseen(edges(d), seen)), seen));
  }

  lemma AcceptedExtend(resolve: NodeResolver, visit: Visitor, calls: seq<Digest>, d: Digest)
    requires Accepted(resolve, visit, calls) && resolve(d).Found? && visit(calls + [d]) == None
    ensures Accepted(resolve, visit, calls + [d])
  {
    assert (calls + [d])[..|calls|] == calls;
  }

  method PushRoots(roots: seq<Digest>) returns (stack: seq<Digest>)
    ensures stack == Present(roots)
  {
    stack := [];
    for i := 0 to |roots|
      invariant stack == Present(roots[..i])
    {
      assert roots[..i + 1] == roots[..i] + [roots[i]];
      PresentAppend(roots[..i], [roots[i]]);
      if !IsZero(roots[i]) {
        stack := stack + [roots[i]];
      }
    }
    assert roots[..|roots|] == roots;
  }

  /** Resolves one digest and hands it to the visitor. */
  method VisitDigest(resolve: NodeResolver, visit: Visitor, ghost order: seq<Digest>, calls: seq<Digest>, d: Digest,
                     ghost done: nat -> bool, ghost checks: nat)
    returns (made: seq<Digest>, stop: Stop)
    requires Accepted(resolve, visit, calls) && calls + [d] <= order
    requires |calls| + 1 < checks && Alive(done, checks)
    ensures stop.Finished? ==> made == calls + [d] && Accepted(resolve, visit, made)
    ensures !stop.Finished? ==> WalkOutcome(resolve, order, visit, done, made, checks, stop)
  {
    assert order[|calls|] == (calls + [d])[|calls|];
    var node := resolve(d);
    if node.Failed? {
      return calls, ResolverFailed(node.error);
    }
    made := calls + [d];
    var refused := visit(made);
    if refused.Some? {
      assert made[..|calls|] == calls;
      return made, VisitorFailed(refused.value);
    }
    AcceptedExtend(resolve, visit, calls, d);
    return made, Finished;
  }

  /** The invariant of the walk: what was visited was accepted after a context
      check each, and together with what the stack owes it is the whole order. */
  ghost predicate Walking(resolve: NodeResolver, support: set<Digest>, visit: Visitor, done: nat -> bool,
                          order: seq<Digest>, calls: seq<Digest>, checks: nat, stack: seq<Digest>, visited: set<Digest>)
    requires FiniteSupport(EdgesOf(resolve), support)
  {
    && order == calls + Owed(EdgesOf(resolve), support, stack, visited)
    && Accepted(resolve, visit, calls)
    && |calls| < checks && Alive(done, checks)
  }

  lemma WalkingStarts(resolve: NodeResolver, support: set<Digest>, visit: Visitor, done: nat -> bool,
                      roots: seq<Digest>)
    requires FiniteSupport(EdgesOf(resolve), support)
    ensures var order := Preorder(resolve, support, roots);
            if done(0) then WalkOutcome(resolve, order, visit, done, [], 0, ContextDone)
            else Walking(resolve, support, visit, done, order, [], 1, Present(roots), {})
  {
    OwedAtStart(EdgesOf(resolve), support, Present(roots));
  }

  lemma WalkingSkips(resolve: NodeResolver, support: set<Digest>, visit: Visitor, done: nat -> bool,
                     order: seq<Digest>, calls: seq<Digest>, checks: nat, stack: seq<Digest>, visited: set<Digest>)
    requires FiniteSupport(EdgesOf(resolve), support) && |stack| > 0 && stack[|stack| - 1] in visited
    requires Walking(resolve, support, visit, done, order, calls, checks, stack, visited) && !done(checks)
    ensures Walking(resolve, support, visit, done, order, calls, checks + 1, stack[..|stack| - 1], visited)
  {
    OwedSkipped(EdgesOf(resolve), support, stack, visited);
    AliveStill(done, checks);
  }

  /** The stack a visit leaves. */
  function Pushed(resolve: NodeResolver, stack: seq<Digest>, visited: set<Digest>): seq<Digest>
    requires |stack| > 0
  {
    var d := stack[|stack| - 1];
    stack[..|stack| - 1] + Reverse(Unseen(Present(resolve(d).References()), visited + {d}))
  }

  /** A visit uses up a digest of the support, or pushes nothing. */
  lemma PushedProgress(resolve: NodeResolver, support: set<Digest>, stack: seq<Digest>, visited: set<Digest>)
    requires FiniteSupport(EdgesOf(resolve), support) && |stack| > 0 && stack[|stack| - 1] !in visited
    ensures var d := stack[|stack| - 1];
            || support - (visited + {d}) < support - visited
            || (support - (visited + {d}) == support - visited && |Pushed(resolve, stack, visited)| < |stack|)
  {
    var d := stack[|stack| - 1];
    if d in support {
      assert d in support - visited;
    } else {
      assert EdgesOf(resolve)(d) == [];
    }
  }

  lemma WalkingVisits(resolve: NodeResolver, support: set<Digest>, visit: Visitor, done: nat -> bool,
                      order: seq<Digest>, calls: seq<Digest>, checks: nat, stack: seq<Digest>, visited: set<Digest>)
    requires FiniteSupport(EdgesOf(resolve), support) && |stack| > 0 && stack[|stack| - 1] !in visited
    requires Walking(resolve, support, visit, done, order, calls, checks, stack, visited) && !done(checks)
    ensures Accepted(resolve, visit, calls) && |calls| < checks && Alive(done, checks + 1)
    ensures var d := stack[|stack| - 1];
            && calls + [d] <= order
            && (Accepted(resolve, visit, calls + [d]) ==>
                  Walking(resolve, support, visit, done, order, calls + [d], checks + 1,
                          Pushed(resolve, stack, visited), visited + {d}))
  {
    OwedVisited(EdgesOf(resolve), support, order, calls, stack, visited);
    AliveStill(done, checks);
  }

  lemma WalkingStops(resolve: NodeResolver, support: set<Digest>, visit: Visitor, done: nat -> bool,
                     order: seq<Digest>, calls: seq<Digest>, checks: nat, stack: seq<Digest>, visited: set<Digest>)
    requires FiniteSupport(EdgesOf(resolve), support)
    requires Walking(resolve, support, visit, done, order, calls, checks, stack, visited)
    ensures done(checks) ==> WalkOutcome(resolve, order, visit, done, calls, checks, ContextDone)
    ensures |stack| == 0 ==> WalkOutcome(resolve, order, visit, done, calls, checks, Finished)
  {
    if |stack| == 0 {
      assert calls + [] == calls;
    }
  }

  /** Visits the popped digest, the context having been found alive once more, and
      pushes its references. */
  method VisitTop(resolve: NodeResolver, visit: Visitor, calls: seq<Digest>, stack: seq<Digest>, visited: set<Digest>,
                  ghost order: seq<Digest>, ghost done: nat -> bool, ghost checks: nat, ghost support: set<Digest>)
    returns (made: seq<Digest>, pushed: seq<Digest>, stop: Stop)
    requires FiniteSupport(EdgesOf(resolve), support) && |stack| > 0 && stack[|stack| - 1] !in visited
    requires Walking(resolve, support, visit, done, order, calls, checks, stack, visited) && !done(checks)
    ensures var seen := visited + {stack[|stack| - 1]};
            stop.Finished? ==>
              && Walking(resolve, support, visit, done, order, made, checks + 1, pushed, seen)
              && (support - seen < support - visited || (support - seen == support - visited && |pushed| < |stack|))
    ensures !stop.Finished? ==> WalkOutcome(resolve, order, visit, done, made, checks + 1, stop)
  {
    var d, rest := stack[|stack| - 1], stack[..|stack| - 1];
    WalkingVisits(resolve, support, visit, done, order, calls, checks, stack, visited);
    PushedProgress(resolve, support, stack, visited);
    pushed := rest;
    made, stop := VisitDigest(resolve, visit, order, calls, d, done, checks + 1);
    if stop.Finished? {
      pushed := PushReferences(rest, resolve(d).References(), visited + {d});
    }
  }

  /** One turn: a digest visited before is dropped, any other is visited. */
  method PopTop(resolve: NodeResolver, visit: Visitor, calls: seq<Digest>, stack: seq<Digest>, visited: set<Digest>,
                ghost order: seq<Digest>, ghost done: nat -> bool, ghost checks: nat, ghost support: set<Digest>)
    returns (made: seq<Digest>, left: seq<Digest>, seen: set<Digest>, stop: Stop, ghost unseen: set<Digest>)
    requires FiniteSupport(EdgesOf(resolve), support) && |stack| > 0
    requires Walking(resolve, support, visit, done, order, calls, checks, stack, visited) && !done(checks)
    ensures unseen == support - seen
    ensures stop.Finished? ==>
              && Walking(resolve, support, visit, done, order, made, checks + 1, left, seen)
              && (unseen < support - visited || (unseen == support - visited && |left| < |stack|))
    ensures !stop.Finished? ==> WalkOutcome(resolve, order, visit, done, made, checks + 1, stop)
  {
    var d := stack[|stack| - 1];
    if d in visited {
      WalkingSkips(resolve, support, visit, done, order, calls, checks, stack, visited);
      return calls, stack[..|stack| - 1], visited, Finished, support - visited;
    }
    made, left, stop := VisitTop(resolve, visit, calls, stack, visited, order, done, checks, support);
    seen, unseen := visited + {d}, support - (visited + {d});
  }

  /** `WalkDigests`: depth first with an explicit stack. It terminates on every
      finite graph, cyclic or shared, and the visitor's calls are exactly the
      nested recursive preorder, cut where the walk was stopped. `done(k)` is the
      answer of the k-th context check; `checks` counts those that found it alive. */
  method WalkDigests(resolve: NodeResolver, roots: seq<Digest>, visit: Visitor,
                     done: nat -> bool, ghost support: set<Digest>)
    returns (calls: seq<Digest>, stop: Stop, checks: nat)
    requires FiniteSupport(EdgesOf(resolve), support)
    ensures WalkOutcome(resolve, Preorder(resolve, support, roots), visit, done, calls, checks, stop)
  {
    ghost var order := Preorder(resolve, support, roots);
    WalkingStarts(resolve, support, visit, done, roots);
    calls, checks := [], 0;
    if done(checks) {
      return calls, ContextDone, checks;
    }
    checks := 1;
    var visited: set<Digest> := {};
    var stack := PushRoots(roots);
    ghost var unseen := support - visited;
    while |stack| > 0
      invariant Walking(resolve, support, visit, done, order, calls, checks, stack, visited)
      invariant unseen == support - visited
      decreases unseen, |stack|
    {
      if done(checks) {
        WalkingStops(resolve, support, visit, done, order, calls, checks, stack, visited);
        return calls, ContextDone, checks;
      }
      calls, stack, visited, stop, unseen :=
        PopTop(resolve, visit, calls, stack, visited, order, done, checks, support);
      checks := checks + 1;
      if !stop.Finished? {
        return calls, stop, checks;
      }
    }
    WalkingStops(resolve, support, visit, done, order, calls, checks, stack, visited);
    return calls, Finished, checks;
  }

  /** What a walk from `roots` may visit: everything their present digests reach. */
  ghost predicate Live(resolve: NodeResolver, roots: seq<Digest>, d: Digest) {
    ReachableFrom(EdgesOf(resolve), Elems(Present(roots)), d)
  }

  /** The preorder lists each live digest exactly once, and is the least closed
      set holding the present roots. */
  lemma PreorderIsLive(resolve: NodeResolver, support: set<Digest>, roots: seq<Digest>)
    requires FiniteSupport(EdgesOf(resolve), support)
    ensures var order := Preorder(resolve, support, roots);
            && NoDuplicates(order)
            && (forall d :: d in order <==> Live(resolve, roots, d))
            && Closed(EdgesOf(resolve), Elems(order))
            && forall s :: Closed(EdgesOf(resolve), s) && Elems(Present(roots)) <= s ==> Elems(order) <= s
  {
    ReverseElems(Present(roots));
    VisitAllIsClosure(EdgesOf(resolve), support, Reverse(Present(roots)));
  }

  lemma {:induction false} AcceptedFound(resolve: NodeResolver, visit: Visitor, calls: seq<Digest>, d: Digest)
    requires Accepted(resolve, visit, calls) && d in calls
    ensures resolve(d).Found?
  {
    if d != calls[|calls| - 1] {
      AcceptedFound(resolve, visit, calls[..|calls| - 1], d);
    }
  }

  /** Membership in an exported `map[string]bool` of hex keys. */
  predicate Holds(keys: map<string, bool>, d: Digest) {
    Text(d) in keys && keys[Text(d)]
  }

  /** The set-building visitor: one key per call. */
  method MarkAll(calls: seq<Digest>) returns (keys: map<string, bool>)
    ensures forall d :: Holds(keys, d) <==> d in calls
    ensures |keys| <= |calls|
  {
    keys := map[];
    for i := 0 to |calls|
      invariant |keys| <= i
      invariant forall d :: Holds(keys, d) <==> d in calls[..i]
    {
      assert calls[..i + 1] == calls[..i] + [calls[i]];
      forall d ensures Text(d) == Text(calls[i]) <==> d == calls[i] {
        TextInjective(d, calls[i]);
      }
      keys := keys[Text(calls[i]) := true];
    }
    assert calls[..|calls|] == calls;
  }

  /** What every reachability answer promises: a returned set holds exactly the
      live digests, all of which could be read; an error names a live digest the
      resolver failed on, or a cancellation. The context was found alive at `checks`
      checks, more than the set has members. */
  ghost predicate ExactlyLive(resolve: NodeResolver, roots: seq<Digest>, done: nat -> bool, checks: nat,
                              r: Result<map<string, bool>>)
  {
    && Alive(done, checks)
    && match r
       case Ok(keys) =>
         && |keys| < checks
         && (forall d :: Holds(keys, d) <==> Live(resolve, roots, d))
         && (forall d :: Live(resolve, roots, d) ==> resolve(d).Found?)
       case Err(error) =>
         || (error == Cancelled && done(checks))
         || exists d :: Live(resolve, roots, d) && resolve(d) == Failed(error)
  }

  lemma OutcomeIsExact(resolve: NodeResolver, support: set<Digest>, roots: seq<Digest>, visit: Visitor,
                       done: nat -> bool, calls: seq<Digest>, checks: nat, stop: Stop)
    requires FiniteSupport(EdgesOf(resolve), support)
    requires WalkOutcome(resolve, Preorder(resolve, support, roots), visit, done, calls, checks, stop)
    ensures stop.Finished? ==>
              forall d :: (d in calls <==> Live(resolve, roots, d)) && (d in calls ==> resolve(d).Found?)
    ensures stop.ResolverFailed? ==> exists d :: Live(resolve, roots, d) && resolve(d) == Failed(stop.error)
  {
    PreorderIsLive(resolve, support, roots);
    if stop.Finished? {
      forall d | d in calls ensures resolve(d).Found? {
        AcceptedFound(resolve, visit, calls, d);
      }
    }
  }

  /** A walk with the set-building visitor, which never refuses. */
  method ReachableThrough(resolve: NodeResolver, roots: seq<Digest>, done: nat -> bool, ghost support: set<Digest>)
    returns (r: Result<map<string, bool>>, checks: nat)
    requires FiniteSupport(EdgesOf(resolve), support)
    ensures ExactlyLive(resolve, roots, done, checks, r)
  {
    var calls, stop;
    calls, stop, checks := WalkDigests(resolve, roots, _ => None, done, support);
    OutcomeIsExact(resolve, support, roots, _ => None, done, calls, checks, stop);
    match stop {
      case Finished =>
        var keys := MarkAll(calls);
        return Ok(keys), checks;
      case ContextDone => return Err(Cancelled), checks;
      case ResolverFailed(error) => return Err(error), checks;
      case VisitorFailed(error) => return Err(error), checks;
    }
  }

  type RefLister = Digest -> Result<seq<Digest>>

  function ListerResolver(lister: RefLister): NodeResolver {
    d => match lister(d)
         case Ok(refs) => Found(None, Some(refs))
         case Err(error) => Failed(error)
  }

  /** `cas.Reachable`. */
  method Reachable(lister: RefLister, roots: seq<Digest>, done: nat -> bool, ghost support: set<Digest>)
    returns (r: Result<map<string, bool>>, checks: nat)
    requires FiniteSupport(EdgesOf(ListerResolver(lister)), support)
    ensures ExactlyLive(ListerResolver(lister), roots, done, checks, r)
  {
    r, checks := ReachableThrough(ListerResolver(lister), roots, done, support);
  }
}
