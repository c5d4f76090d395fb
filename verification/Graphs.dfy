/** Finite object graphs: the textbook nested depth-first search, reachability
    by paths, and the theorem that the search visits exactly what is reachable.
    Nothing here knows about stacks. */
module Graphs {
  import opened Common
  import opened Digests

  /** The present references of an object, in their order. */
  type Edges = Digest -> seq<Digest>

  /** Only the digests of `support` have outgoing edges: the graph is finite,
      whether it is cyclic, shared or neither. */
  ghost predicate FiniteSupport(edges: Edges, support: set<Digest>) {
    forall d :: d !in support ==> edges(d) == []
  }

  /** Preorder of `visit(d)`: nothing if `d` was seen, else `d` followed by its
      references visited in order. */
  ghost function VisitOne(edges: Edges, support: set<Digest>, d: Digest, seen: set<Digest>): seq<Digest>
    requires FiniteSupport(edges, support)
    decreases support - seen, 1, 0
  {
    if d in seen then [] else
      assert d !in support ==> support - (seen + {d}) == support - seen;
      [d] + VisitAll(edges, support, edges(d), seen + {d})
  }

  ghost function VisitAll(edges: Edges, support: set<Digest>, ds: seq<Digest>, seen: set<Digest>): seq<Digest>
    requires FiniteSupport(edges, support)
    decreases support - seen, |ds|, 1
  {
    if |ds| == 0 then [] else
      var first := VisitOne(edges, support, ds[0], seen);
      var seen' := seen + Elems(first);
      assert support - seen' <= support - seen;
      first + VisitAll(edges, support, ds[1..], seen')
  }

  /** The digests of `ds` outside `seen`, in their order. */
  function Unseen(ds: seq<Digest>, seen: set<Digest>): seq<Digest> {
    if |ds| == 0 then []
    else if ds[0] in seen then Unseen(ds[1..], seen)
    else [ds[0]] + Unseen(ds[1..], seen)
  }

  /** Dropping digests already seen does not change the order. */
  lemma {:induction false} VisitAllSkipsSeen(edges: Edges, support: set<Digest>,
                                             ds: seq<Digest>, known: set<Digest>, seen: set<Digest>)
    requires FiniteSupport(edges, support) && known <= seen
    ensures VisitAll(edges, support, Unseen(ds, known), seen) == VisitAll(edges, support, ds, seen)
    decreases |ds|
  {
    if |ds| > 0 {
      var first := VisitOne(edges, support, ds[0], seen);
      VisitAllSkipsSeen(edges, support, ds[1..], known, seen + Elems(first));
      if ds[0] in known {
        assert seen + Elems(first) == seen;
      }
    }
  }

  ghost predicate IsPath(edges: Edges, p: seq<Digest>) {
    |p| > 0 && forall i :: 0 <= i < |p| - 1 ==> p[i + 1] in edges(p[i])
  }

  /** `to` can be reached from `from` by following references. */
  ghost predicate Reaches(edges: Edges, from: Digest, to: Digest) {
    exists p :: IsPath(edges, p) && p[0] == from && p[|p| - 1] == to
  }

  ghost predicate ReachableFrom(edges: Edges, roots: set<Digest>, d: Digest) {
    exists r :: r in roots && Reaches(edges, r, d)
  }

  ghost predicate Closed(edges: Edges, s: set<Digest>) {
    forall d, c :: d in s && c in edges(d) ==> c in s
  }

  lemma ReachesSelf(edges: Edges, d: Digest)
    ensures Reaches(edges, d, d)
  {
    assert IsPath(edges, [d]);
  }

  lemma ReachesStep(edges: Edges, from: Digest, mid: Digest, to: Digest)
    requires Reaches(edges, from, mid) && to in edges(mid)
    ensures Reaches(edges, from, to)
  {
    var p :| IsPath(edges, p) && p[0] == from && p[|p| - 1] == mid;
    assert IsPath(edges, p + [to]);
  }

  lemma {:induction false} PathStaysInClosed(edges: Edges, s: set<Digest>, p: seq<Digest>)
    requires IsPath(edges, p) && Closed(edges, s) && p[0] in s
    ensures p[|p| - 1] in s
    decreases |p|
  {
    if |p| > 1 {
      PathStaysInClosed(edges, s, p[..|p| - 1]);
      assert p[|p| - 2 + 1] in edges(p[|p| - 2]);
    }
  }

  /** What a visit from `seen` does: it lists new digests only, each once; it
      covers its arguments; and the references of what it lists are covered. */
  lemma {:induction false} VisitAllCovers(edges: Edges, support: set<Digest>, ds: seq<Digest>, seen: set<Digest>)
    requires FiniteSupport(edges, support)
    ensures var order := VisitAll(edges, support, ds, seen);
            && NoDuplicates(order)
            && Elems(order) !! seen
            && Elems(ds) <= seen + Elems(order)
            && forall d, c :: d in order && c in edges(d) ==> c in seen + Elems(order)
    decreases support - seen, |ds|
  {
    if |ds| > 0 {
      var d := ds[0];
      var first := VisitOne(edges, support, d, seen);
      var seen' := seen + Elems(first);
      if d !in seen {
        assert d !in support ==> support - (seen + {d}) == support - seen;
        VisitAllCovers(edges, support, edges(d), seen + {d});
        assert first == [d] + VisitAll(edges, support, edges(d), seen + {d});
        assert Elems(first) == {d} + Elems(VisitAll(edges, support, edges(d), seen + {d}));
        NoDuplicatesAppend([d], VisitAll(edges, support, edges(d), seen + {d}));
      } else {
        assert seen' == seen;
      }
      assert support - seen' <= support - seen;
      VisitAllCovers(edges, support, ds[1..], seen');
      var rest := VisitAll(edges, support, ds[1..], seen');
      assert Elems(first + rest) == Elems(first) + Elems(rest);
      assert Elems(ds) == {d} + Elems(ds[1..]);
      NoDuplicatesAppend(first, rest);
    }
  }

  /** A visit only lists what its arguments reach. */
  lemma {:induction false} VisitAllSound(edges: Edges, support: set<Digest>, ds: seq<Digest>,
                                         seen: set<Digest>, roots: set<Digest>, d: Digest)
    requires FiniteSupport(edges, support)
    requires forall x :: x in ds ==> ReachableFrom(edges, roots, x)
    requires d in VisitAll(edges, support, ds, seen)
    ensures ReachableFrom(edges, roots, d)
    decreases support - seen, |ds|
  {
    var first := VisitOne(edges, support, ds[0], seen);
    var seen' := seen + Elems(first);
    assert support - seen' <= support - seen;
    if d !in first {
      VisitAllSound(edges, support, ds[1..], seen', roots, d);
    } else if d != ds[0] {
      forall c | c in edges(ds[0])
        ensures ReachableFrom(edges, roots, c)
      {
        assert ReachableFrom(edges, roots, ds[0]);
        var r :| r in roots && Reaches(edges, r, ds[0]);
        ReachesStep(edges, r, ds[0], c);
      }
      assert ds[0] in support - seen && ds[0] !in support - (seen + {ds[0]});
      VisitAllSound(edges, support, edges(ds[0]), seen + {ds[0]}, roots, d);
    }
  }

  lemma ReachableInClosed(edges: Edges, s: set<Digest>, roots: set<Digest>, d: Digest)
    requires Closed(edges, s) && roots <= s && ReachableFrom(edges, roots, d)
    ensures d in s
  {
    var r :| r in roots && Reaches(edges, r, d);
    var p :| IsPath(edges, p) && p[0] == r && p[|p| - 1] == d;
    PathStaysInClosed(edges, s, p);
  }

  lemma VisitAllExact(edges: Edges, support: set<Digest>, roots: seq<Digest>, d: Digest)
    requires FiniteSupport(edges, support)
    ensures d in VisitAll(edges, support, roots, {}) <==> ReachableFrom(edges, Elems(roots), d)
  {
    var order := VisitAll(edges, support, roots, {});
    if d in order {
      forall x | x in roots
        ensures ReachableFrom(edges, Elems(roots), x)
      {
        ReachesSelf(edges, x);
        assert x in Elems(roots);
      }
      VisitAllSound(edges, support, roots, {}, Elems(roots), d);
    }
    if ReachableFrom(edges, Elems(roots), d) {
      VisitAllClosed(edges, support, roots);
      ReachableInClosed(edges, Elems(order), Elems(roots), d);
    }
  }

  /** The search from `roots` lists each reachable digest exactly once and
      nothing else, and what it lists is the least closed set holding them. */
  lemma VisitAllIsClosure(edges: Edges, support: set<Digest>, roots: seq<Digest>)
    requires FiniteSupport(edges, support)
    ensures var order := VisitAll(edges, support, roots, {});
            && NoDuplicates(order)
            && Elems(roots) <= Elems(order)
            && Closed(edges, Elems(order))
            && (forall s :: Closed(edges, s) && Elems(roots) <= s ==> Elems(order) <= s)
            && (forall d :: d in order <==> ReachableFrom(edges, Elems(roots), d))
  {
    VisitAllClosed(edges, support, roots);
    var order := VisitAll(edges, support, roots, {});
    forall d ensures d in order <==> ReachableFrom(edges, Elems(roots), d) {
      VisitAllExact(edges, support, roots, d);
    }
    forall s | Closed(edges, s) && Elems(roots) <= s
      ensures Elems(order) <= s
    {
      VisitAllLeast(edges, support, roots, s);
    }
  }

  lemma VisitAllClosed(edges: Edges, support: set<Digest>, roots: seq<Digest>)
    requires FiniteSupport(edges, support)
    ensures var order := VisitAll(edges, support, roots, {});
            NoDuplicates(order) && Elems(roots) <= Elems(order) && Closed(edges, Elems(order))
  {
    VisitAllCovers(edges, support, roots, {});
  }

  lemma VisitAllLeast(edges: Edges, support: set<Digest>, roots: seq<Digest>, s: set<Digest>)
    requires FiniteSupport(edges, support) && Closed(edges, s) && Elems(roots) <= s
    ensures Elems(VisitAll(edges, support, roots, {})) <= s
  {
    forall d | d in VisitAll(edges, support, roots, {})
      ensures d in s
    {
      VisitAllExact(edges, support, roots, d);
      ReachableInClosed(edges, s, Elems(roots), d);
    }
  }
}
