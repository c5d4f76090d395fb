/** The whole garbage-collection pipeline on a quiescent store: `Roots`, then
    `Reachable`, then `Sweep`. */
module Collection {
  import opened Common
  import opened Digests
  import opened Graphs
  import opened Reachability
  import opened Backends
  import opened Sweeping
  import opened Refs
  import opened RefNames
  import opened Decimals
  import opened Reflogs
  import ConcurrentSweep

  /** How a client extracts references from stored bytes. */
  type RefsOf = seq<byte> -> Result<seq<Digest>>

  /** The references of an object as the client finds them, read through the
      backend: a failing read fails the lister. */
  function ReadLister(read: ObjectReader, refsOf: RefsOf): RefLister {
    d => match read(d)
         case Ok(bytes) => refsOf(bytes)
         case Err(error) => Err(error)
  }

  /** The graph of the stored objects, whether or not they can be read just now. */
  function StoreLister(objects: map<Digest, Blob>, refsOf: RefsOf): RefLister {
    d => if d in objects then refsOf(objects[d].bytes) else Err(NotFound)
  }

  function StoreEdges(objects: map<Digest, Blob>, refsOf: RefsOf): Edges {
    EdgesOf(ListerResolver(StoreLister(objects, refsOf)))
  }

  function ReadEdges(read: ObjectReader, refsOf: RefsOf): Edges {
    EdgesOf(ListerResolver(ReadLister(read, refsOf)))
  }

  /** `read` gives a stored object's bytes or fails. */
  ghost predicate Reads(read: ObjectReader, objects: map<Digest, Blob>) {
    forall d :: read(d).Ok? ==> d in objects && read(d).value == objects[d].bytes
  }

  /** A store is a finite graph: only what it holds has references. */
  lemma StoreIsFinite(read: ObjectReader, objects: map<Digest, Blob>, refsOf: RefsOf)
    requires Reads(read, objects)
    ensures FiniteSupport(ReadEdges(read, refsOf), objects.Keys)
  {
    forall d | d !in objects
      ensures ReadEdges(read, refsOf)(d) == []
    {
      assert ListerResolver(ReadLister(read, refsOf))(d).Failed?;
    }
  }

  /** Reading shows a part of the stored graph, all of it where reading succeeds. */
  lemma ReadEdgesMeaning(read: ObjectReader, objects: map<Digest, Blob>, refsOf: RefsOf, d: Digest)
    requires Reads(read, objects)
    ensures ListerResolver(ReadLister(read, refsOf))(d).Found? <==> read(d).Ok? && refsOf(read(d).value).Ok?
    ensures ListerResolver(ReadLister(read, refsOf))(d).Found? ==>
              ReadEdges(read, refsOf)(d) == StoreEdges(objects, refsOf)(d)
    ensures ListerResolver(ReadLister(read, refsOf))(d).Failed? ==> ReadEdges(read, refsOf)(d) == []
  {
  }

  /** The verdict in the step model of concurrent sweeping is the one `Sweep` gives
      on the store as it stands at that moment. */
  lemma StepModelJudgesAlike(p: ConcurrentSweep.Setting, s: ConcurrentSweep.State, live: set<Digest>,
                             backend: Backend, marked: map<string, bool>, now: int, d: Digest)
    requires backend.Valid() && (forall call :: backend.fault(call) == None)
    requires s.written == map x | x in backend.objects :: backend.objects[x].written
    requires Holds(marked, d) <==> d in live
    ensures ConcurrentSweep.Dead(p, s, live, now, d) <==>
            Judge(backend, marked, SweepOptions(p.minAge, false), now, d) == Doom
  {
    assert d in s.written <==> d in backend.objects;
  }

  /** Reachable from a root. */
  ghost predicate LiveNow(roots: iset<Digest>, objects: map<Digest, Blob>, refsOf: RefsOf, d: Digest)
  {
    exists r :: r in roots && Reaches(StoreEdges(objects, refsOf), r, d)
  }

  /** A larger graph reaches no less. */
  lemma ReachesMore(a: Edges, b: Edges, from: Digest, to: Digest)
    requires Reaches(a, from, to) && forall d, c :: c in a(d) ==> c in b(d)
    ensures Reaches(b, from, to)
  {
    var p :| IsPath(a, p) && p[0] == from && p[|p| - 1] == to;
    assert IsPath(b, p);
  }

  /** A path leaves the first graph only at a digest where the second has more. */
  lemma {:induction false} PathStaysSame(a: Edges, b: Edges, p: seq<Digest>)
    requires IsPath(b, p) && forall d :: Reaches(a, p[0], d) ==> a(d) == b(d)
    ensures Reaches(a, p[0], p[|p| - 1])
    decreases |p|
  {
    if |p| == 1 {
      ReachesSelf(a, p[0]);
    } else {
      var q := p[..|p| - 1];
      PathStaysSame(a, b, q);
      assert p[|p| - 2 + 1] in b(p[|p| - 2]) && q[|q| - 1] == p[|p| - 2];
      ReachesStep(a, p[0], q[|q| - 1], p[|p| - 1]);
    }
  }

  /** `d` is reachable from a root along what can be read. */
  ghost predicate ReadNow(roots: iset<Digest>, read: ObjectReader, refsOf: RefsOf, d: Digest)
  {
    exists r :: r in roots && Reaches(ReadEdges(read, refsOf), r, d)
  }

  /** What is found by reading is live; and if all of it could be read, it is all
      that is live. */
  lemma ReadIsLiveNow(roots: iset<Digest>, read: ObjectReader, objects: map<Digest, Blob>, refsOf: RefsOf, d: Digest)
    requires Reads(read, objects)
    ensures ReadNow(roots, read, refsOf, d) ==> LiveNow(roots, objects, refsOf, d)
    ensures && (forall x :: ReadNow(roots, read, refsOf, x) ==> ListerResolver(ReadLister(read, refsOf))(x).Found?)
            && LiveNow(roots, objects, refsOf, d)
            ==> ReadNow(roots, read, refsOf, d)
  {
    var part, whole := ReadEdges(read, refsOf), StoreEdges(objects, refsOf);
    forall x
      ensures ListerResolver(ReadLister(read, refsOf))(x).Found? ==> part(x) == whole(x)
      ensures forall c :: c in part(x) ==> c in whole(x)
    {
      ReadEdgesMeaning(read, objects, refsOf, x);
    }
    if ReadNow(roots, read, refsOf, d) {
      var r :| r in roots && Reaches(part, r, d);
      ReachesMore(part, whole, r, d);
    }
    if LiveNow(roots, objects, refsOf, d)
       && forall x :: ReadNow(roots, read, refsOf, x) ==> ListerResolver(ReadLister(read, refsOf))(x).Found? {
      var r :| r in roots && Reaches(whole, r, d);
      var p :| IsPath(whole, p) && p[0] == r && p[|p| - 1] == d;
      assert forall x :: Reaches(part, p[0], x) ==> ReadNow(roots, read, refsOf, x);
      PathStaysSame(part, whole, p);
    }
  }

  /** The walk starts from exactly the roots. */
  lemma LiveIsReadNow(roots: iset<Digest>, read: ObjectReader, refsOf: RefsOf, listed: seq<Digest>, d: Digest)
    requires forall r :: r in listed <==> r in roots
    requires forall r :: r in roots ==> !IsZero(r)
    ensures Live(ListerResolver(ReadLister(read, refsOf)), listed, d) <==> ReadNow(roots, read, refsOf, d)
  {
    forall r ensures r in Present(listed) <==> r in roots {
      PresentMember(listed, r);
    }
  }

  /** What a collection removes from a store without faults. */
  ghost predicate Garbage(roots: iset<Digest>, objects: map<Digest, Blob>, refsOf: RefsOf, opts: SweepOptions,
                          now: int, d: Digest)
  {
    && d in objects && !LiveNow(roots, objects, refsOf, d)
    && (opts.minAge > 0 ==> now - objects[d].written >= opts.minAge)
  }

  /** Every live object is stored and readable, with its references. */
  ghost predicate LiveGraphIntact(roots: iset<Digest>, objects: map<Digest, Blob>, refsOf: RefsOf,
                                  stored: map<Digest, Blob>)
  {
    forall d :: LiveNow(roots, objects, refsOf, d) ==>
      && d in objects && refsOf(objects[d].bytes).Ok?
      && d in stored && stored[d] == objects[d]
      && forall c :: c in StoreEdges(objects, refsOf)(d) ==> c in stored
  }

  lemma LiveStepStays(roots: iset<Digest>, objects: map<Digest, Blob>, refsOf: RefsOf, d: Digest, c: Digest)
    requires LiveNow(roots, objects, refsOf, d) && c in StoreEdges(objects, refsOf)(d)
    ensures LiveNow(roots, objects, refsOf, c)
  {
    var edges := StoreEdges(objects, refsOf);
    var r :| r in roots && Reaches(edges, r, d);
    ReachesStep(edges, r, d, c);
  }

  /** Garbage, found out to be so: the calls that tell do not fail. */
  ghost predicate Reclaimable(roots: iset<Digest>, backend: Backend, refsOf: RefsOf, opts: SweepOptions, now: int,
                              d: Digest)
    reads backend
  {
    && Garbage(roots, backend.objects, refsOf, opts, now, d)
    && backend.fault(Existence(d)).None? && (opts.minAge > 0 ==> backend.fault(Age(d)).None?)
  }

  ghost function ReclaimableSet(roots: iset<Digest>, backend: Backend, refsOf: RefsOf, opts: SweepOptions,
                                now: int): iset<Digest>
    reads backend
  {
    iset d | Reclaimable(roots, backend, refsOf, opts, now, d)
  }

  /** With the live digests marked, the sweep's verdict is this. */
  lemma DoomedIsReclaimable(roots: iset<Digest>, backend: Backend, refsOf: RefsOf, marked: map<string, bool>,
                            opts: SweepOptions, now: int)
    requires backend.Valid()
    requires forall d :: Holds(marked, d) <==> LiveNow(roots, backend.objects, refsOf, d)
    ensures DoomedSet(backend, marked, opts, now) == ReclaimableSet(roots, backend, refsOf, opts, now)
  {
    forall d ensures Doomed(backend, marked, opts, now, d) <==> Reclaimable(roots, backend, refsOf, opts, now, d) {
      JudgeExactly(backend, marked, opts, now, d);
    }
  }

  /** A listed digest that is not live, about which the backend cannot answer. */
  ghost predicate Undecidable(roots: iset<Digest>, backend: Backend, refsOf: RefsOf, opts: SweepOptions, d: Digest,
                              error: Error)
    reads backend
  {
    && backend.Listed(d) && !LiveNow(roots, backend.objects, refsOf, d)
    && (|| (backend.fault(Existence(d)) == Some(error) && error != InvalidDigest)
        || (d in backend.objects && opts.minAge > 0 && backend.fault(Existence(d)).None?
            && backend.fault(Age(d)) == Some(error) && error != NotFound && error != InvalidDigest))
  }

  /** Why a collection stops once the live digests are marked. */
  ghost predicate SweepStops(roots: iset<Digest>, backend: Backend, refsOf: RefsOf, opts: SweepOptions, now: int,
                             error: Error)
    reads backend
  {
    || (error == Unsupported && opts.minAge > 0 && !backend.statter)
    || backend.fault(Listing) == Some(error)
    || (exists d :: Undecidable(roots, backend, refsOf, opts, d, error))
    || (!opts.dryRun
        && exists d :: Reclaimable(roots, backend, refsOf, opts, now, d) && backend.fault(Removal(d)) == Some(error))
  }

  lemma SweepStopsFor(roots: iset<Digest>, backend: Backend, refsOf: RefsOf, marked: map<string, bool>,
                      opts: SweepOptions, now: int, done: nat -> bool, checks: nat, error: Error)
    requires backend.Valid()
    requires forall d :: Holds(marked, d) <==> LiveNow(roots, backend.objects, refsOf, d)
    requires SweepFails(backend, marked, opts, now, done, checks, error)
    ensures (error == Cancelled && done(checks)) || SweepStops(roots, backend, refsOf, opts, now, error)
  {
    forall d
      ensures Judge(backend, marked, opts, now, d) == Abort(error) && backend.Listed(d) ==>
                Undecidable(roots, backend, refsOf, opts, d, error)
      ensures Doomed(backend, marked, opts, now, d) ==> Reclaimable(roots, backend, refsOf, opts, now, d)
    {
      JudgeExactly(backend, marked, opts, now, d);
    }
  }

  /** Why the mark phase fails. */
  ghost predicate MarkFails(roots: iset<Digest>, backend: Backend, refsOf: RefsOf, cancelled: bool, done: nat -> bool,
                            error: Error)
    reads backend
  {
    || (error == Cancelled && (cancelled || exists k: nat :: done(k)))
    || exists d :: LiveNow(roots, backend.objects, refsOf, d) && ReadLister(backend.Reader(), refsOf)(d) == Err(error)
  }

  /** If only garbage is gone, no live reference dangles. */
  lemma SurvivorsIntact(roots: iset<Digest>, objects: map<Digest, Blob>, refsOf: RefsOf, opts: SweepOptions, now: int,
                        stored: map<Digest, Blob>)
    requires LiveStored(roots, objects, refsOf)
    requires forall d :: d in objects && !Garbage(roots, objects, refsOf, opts, now, d) ==>
                         d in stored && stored[d] == objects[d]
    ensures LiveGraphIntact(roots, objects, refsOf, stored)
  {
    forall d, c | LiveNow(roots, objects, refsOf, d) && c in StoreEdges(objects, refsOf)(d)
      ensures c in stored
    {
      LiveStepStays(roots, objects, refsOf, d, c);
    }
  }

  /** Every live object is stored, and its references can be extracted. */
  ghost predicate LiveStored(roots: iset<Digest>, objects: map<Digest, Blob>, refsOf: RefsOf)
  {
    forall d :: LiveNow(roots, objects, refsOf, d) ==> d in objects && refsOf(objects[d].bytes).Ok?
  }

  lemma AllReadIsAllLive(roots: iset<Digest>, read: ObjectReader, objects: map<Digest, Blob>, refsOf: RefsOf)
    requires Reads(read, objects)
    requires forall x :: ReadNow(roots, read, refsOf, x) ==> ListerResolver(ReadLister(read, refsOf))(x).Found?
    ensures LiveStored(roots, objects, refsOf)
    ensures forall d :: ReadNow(roots, read, refsOf, d) <==> LiveNow(roots, objects, refsOf, d)
  {
    forall d
      ensures ReadNow(roots, read, refsOf, d) <==> LiveNow(roots, objects, refsOf, d)
      ensures LiveNow(roots, objects, refsOf, d) ==> d in objects && refsOf(objects[d].bytes).Ok?
    {
      ReadIsLiveNow(roots, read, objects, refsOf, d);
      ReadEdgesMeaning(read, objects, refsOf, d);
    }
  }

  /** An exact walk over what can be read is exact about what is stored. */
  lemma MarkIsExact(roots: iset<Digest>, read: ObjectReader, objects: map<Digest, Blob>, refsOf: RefsOf,
                    listed: seq<Digest>, done: nat -> bool, checks: nat, marked: Result<map<string, bool>>)
    requires Reads(read, objects)
    requires forall r :: r in listed <==> r in roots
    requires forall r :: r in roots ==> !IsZero(r)
    requires ExactlyLive(ListerResolver(ReadLister(read, refsOf)), listed, done, checks, marked)
    ensures marked.Ok? ==> LiveStored(roots, objects, refsOf)
    ensures marked.Ok? ==> forall d :: Holds(marked.value, d) <==> LiveNow(roots, objects, refsOf, d)
    ensures marked.Err? ==>
              || (marked.error == Cancelled && done(checks))
              || exists d :: LiveNow(roots, objects, refsOf, d) && ReadLister(read, refsOf)(d) == Err(marked.error)
  {
    var resolve := ListerResolver(ReadLister(read, refsOf));
    forall d ensures Live(resolve, listed, d) <==> ReadNow(roots, read, refsOf, d) {
      LiveIsReadNow(roots, read, refsOf, listed, d);
    }
    if marked.Ok? {
      AllReadIsAllLive(roots, read, objects, refsOf);
    } else {
      forall d
        ensures ReadNow(roots, read, refsOf, d) ==> LiveNow(roots, objects, refsOf, d)
        ensures resolve(d) == Failed(marked.error) ==> ReadLister(read, refsOf)(d) == Err(marked.error)
      {
        ReadIsLiveNow(roots, read, objects, refsOf, d);
      }
    }
  }

  lemma RootsPresent(refs: RefStore)
    requires refs.Valid()
    ensures forall r :: r in refs.RootSet() ==> !IsZero(r)
  {
    forall name | refs.Listed(name) ensures !IsZero(Newest(refs.History(name))) {
      refs.ReadValueIsNewest(name);
    }
  }

  /** The mark phase: exactly the digests live now, all of them stored; or the
      reason it failed, which is a cancellation or a live object that is missing,
      fails to be read, or has no readable references. */
  method Mark(refs: RefStore, backend: Backend, refsOf: RefsOf, cancelled: bool, done: nat -> bool)
    returns (marked: Result<map<string, bool>>)
    requires refs.Valid() && backend.Valid()
    ensures marked.Ok? ==> LiveStored(refs.RootSet(), backend.objects, refsOf)
    ensures marked.Ok? ==> forall d :: Holds(marked.value, d) <==> LiveNow(refs.RootSet(), backend.objects, refsOf, d)
    ensures marked.Err? ==> MarkFails(refs.RootSet(), backend, refsOf, cancelled, done, marked.error)
  {
    var roots := refs.Roots(cancelled);
    if roots.Err? {
      return Err(roots.error);
    }
    var read := backend.Reader();
    StoreIsFinite(read, backend.objects, refsOf);
    var checks;
    marked, checks := Reachable(ReadLister(read, refsOf), roots.value, done, backend.objects.Keys);
    RootsPresent(refs);
    MarkIsExact(refs.RootSet(), read, backend.objects, refsOf, roots.value, done, checks, marked);
  }

  /** Live objects that are stored and do not fail to be read leave no reason for
      the mark phase to fail. */
  lemma NothingFails(roots: iset<Digest>, backend: Backend, refsOf: RefsOf)
    requires backend.Valid() && LiveStored(roots, backend.objects, refsOf)
    requires forall d :: LiveNow(roots, backend.objects, refsOf, d) ==> backend.fault(Reading(d)) == None
    ensures forall d :: LiveNow(roots, backend.objects, refsOf, d) ==> ReadLister(backend.Reader(), refsOf)(d).Ok?
  {
  }

  /** Everything reclaimable is garbage, and when no call fails the reverse. */
  lemma ReclaimableIsGarbage(roots: iset<Digest>, backend: Backend, refsOf: RefsOf, opts: SweepOptions, now: int)
    ensures var reclaimable := ReclaimableSet(roots, backend, refsOf, opts, now);
            && (forall d :: d in reclaimable ==> Garbage(roots, backend.objects, refsOf, opts, now, d))
            && ((forall call :: backend.fault(call) == None) ==>
                  forall d :: Garbage(roots, backend.objects, refsOf, opts, now, d) ==> d in reclaimable)
  {
  }

  /** `Roots`, `Reachable` and `Sweep` in a row. */
  method CollectGarbage(refs: RefStore, backend: Backend, refsOf: RefsOf, opts: SweepOptions, now: int,
                        cancelled: bool, markDone: nat -> bool, sweepDone: nat -> bool)
    returns (r: Result<seq<Digest>>, ghost listing: seq<Digest>)
    requires refs.Valid() && backend.Valid()
    modifies backend
    ensures backend.Valid()
    // No exit, successful or not, removes or alters anything but garbage.
    ensures forall d :: && d in old(backend.objects)
                        && !Garbage(refs.RootSet(), old(backend.objects), refsOf, opts, now, d) ==>
                          d in backend.objects && backend.objects[d] == old(backend.objects)[d]
    // A completed run left no live reference dangling.
    ensures r.Ok? ==> LiveGraphIntact(refs.RootSet(), old(backend.objects), refsOf, backend.objects)
    // It reports what can be reclaimed in the order and as often as it is listed,
    // and removes it unless the run is dry.
    ensures r.Ok? ==>
              && (forall d :: d in listing <==> old(backend.Listed(d)))
              && r.value == Restrict(listing, old(ReclaimableSet(refs.RootSet(), backend, refsOf, opts, now)))
              && backend.objects == if opts.dryRun then old(backend.objects) else old(backend.objects) - Elems(r.value)
    // When nothing fails that is exactly the garbage.
    ensures r.Ok? && (forall call :: backend.fault(call) == None) ==>
              forall d :: d in r.value <==> Garbage(refs.RootSet(), old(backend.objects), refsOf, opts, now, d)
    // It fails only for a reason.
    ensures r.Err? ==>
              || old(MarkFails(refs.RootSet(), backend, refsOf, cancelled, markDone, r.error))
              || (r.error == Cancelled && exists k: nat :: sweepDone(k))
              || old(SweepStops(refs.RootSet(), backend, refsOf, opts, now, r.error))
    // It completes when the live graph is closed and nothing fails.
    ensures && LiveGraphIntact(refs.RootSet(), old(backend.objects), refsOf, old(backend.objects))
            && !cancelled && (forall k: nat :: !markDone(k) && !sweepDone(k))
            && (forall call :: backend.fault(call) == None)
            && (opts.minAge > 0 ==> backend.statter)
            ==> r.Ok?
  {
    ghost var roots, objects := refs.RootSet(), backend.objects;
    if LiveStored(roots, objects, refsOf) && forall call :: backend.fault(call) == None {
      NothingFails(roots, backend, refsOf);
    }
    var marked := Mark(refs, backend, refsOf, cancelled, markDone);
    if marked.Err? {
      return Err(marked.error), [];
    }
    r, listing := SweepMarked(backend, roots, refsOf, marked.value, opts, now, sweepDone);
    SurvivorsIntact(roots, objects, refsOf, opts, now, backend.objects);
  }

  /** The sweep, with the live digests marked. */
  method SweepMarked(backend: Backend, ghost roots: iset<Digest>, ghost refsOf: RefsOf, marked: map<string, bool>,
                     opts: SweepOptions, now: int, done: nat -> bool)
    returns (r: Result<seq<Digest>>, ghost listing: seq<Digest>)
    requires backend.Valid()
    requires forall d :: Holds(marked, d) <==> LiveNow(roots, backend.objects, refsOf, d)
    modifies backend
    ensures backend.Valid()
    ensures forall d :: && d in old(backend.objects)
                        && !Garbage(roots, old(backend.objects), refsOf, opts, now, d) ==>
                          d in backend.objects && backend.objects[d] == old(backend.objects)[d]
    ensures r.Ok? ==>
              && (forall d :: d in listing <==> old(backend.Listed(d)))
              && r.value == Restrict(listing, old(ReclaimableSet(roots, backend, refsOf, opts, now)))
              && backend.objects == if opts.dryRun then old(backend.objects) else old(backend.objects) - Elems(r.value)
    ensures r.Ok? && (forall call :: backend.fault(call) == None) ==>
              forall d :: d in r.value <==> Garbage(roots, old(backend.objects), refsOf, opts, now, d)
    ensures r.Err? ==>
              || (r.error == Cancelled && exists k: nat :: done(k))
              || old(SweepStops(roots, backend, refsOf, opts, now, r.error))
    ensures && (forall k: nat :: !done(k))
            && (forall call :: backend.fault(call) == None)
            && (opts.minAge > 0 ==> backend.statter)
            ==> r.Ok?
  {
    DoomedIsReclaimable(roots, backend, refsOf, marked, opts, now);
    forall checks, error | SweepFails(backend, marked, opts, now, done, checks, error)
      ensures (error == Cancelled && done(checks)) || SweepStops(roots, backend, refsOf, opts, now, error)
    {
      SweepStopsFor(roots, backend, refsOf, marked, opts, now, done, checks, error);
    }
    ReclaimableIsGarbage(roots, backend, refsOf, opts, now);
    ghost var reclaimable := ReclaimableSet(roots, backend, refsOf, opts, now);
    var checks;
    r, checks, listing := Sweep(backend, marked, opts, now, done);
    RestrictMembers(listing, reclaimable);
  }

  /** `Set` on a name that listings take for a scratch file: accepted, and without
      effect on the roots. */
  method SetHidden(refs: RefStore, name: string, d: Digest, now: int) returns (failed: Option<Error>)
    requires refs.Valid() && InInt64(now) && !IsZero(d)
    requires ValidName(refs.lower, name) && IsTempFile(LastSegment(name))
    modifies refs
    ensures refs.Valid() && failed == None && Newest(refs.History(name)) == d
    ensures refs.RootSet() == old(refs.RootSet())
  {
    refs.RootsByHistory();
    HiddenChange(refs.history, name, refs.History(name) + [Entry(d, Newest(refs.History(name)), now)]);
    failed := refs.Set(name, d, now, false);
    refs.RootsByHistory();
  }

  /** What becomes of an object that only such a ref names, once it is old enough:
      the ref holds the digest, yet the next collection removes the object. */
  method CollectHidden(refs: RefStore, backend: Backend, refsOf: RefsOf, opts: SweepOptions, now: int,
                       name: string, d: Digest)
    returns (r: Result<seq<Digest>>, ghost listing: seq<Digest>)
    requires refs.Valid() && backend.Valid() && InInt64(now)
    requires ValidName(refs.lower, name) && IsTempFile(LastSegment(name))
    requires Garbage(refs.RootSet(), backend.objects, refsOf, opts, now, d) && !opts.dryRun
    requires LiveGraphIntact(refs.RootSet(), backend.objects, refsOf, backend.objects)
    requires (forall call :: backend.fault(call) == None) && (opts.minAge > 0 ==> backend.statter)
    modifies refs, backend
    ensures refs.Valid() && backend.Valid()
    ensures Newest(refs.History(name)) == d
    ensures r.Ok? && d in r.value && d !in backend.objects
  {
    var failed := SetHidden(refs, name, d, now);
    r, listing := CollectGarbage(refs, backend, refsOf, opts, now, false, _ => false, _ => false);
  }
}
