/** Mark-and-sweep reclamation on a quiescent store (cas/sweep.go). */
module Sweeping {
  import opened Common
  import opened Digests
  import opened Backends
  import opened Reachability

  datatype SweepOptions = SweepOptions(minAge: int, dryRun: bool)

  /** What the scan decides about one listed digest. */
  datatype Verdict = Keep | Doom | Abort(error: Error)

  function Judge(backend: Backend, reachable: map<string, bool>, opts: SweepOptions, now: int, d: Digest): Verdict
    reads backend
  {
    if Holds(reachable, d) then Keep else
      match backend.Exists(d)
      case Err(error) => if error == InvalidDigest then Keep else Abort(error)
      case Ok(stored) =>
        if !stored then Keep
        else if opts.minAge <= 0 then Doom
        else
          match backend.ModTime(d)
          case Err(error) => if error == NotFound || error == InvalidDigest then Keep else Abort(error)
          case Ok(written) => if now - written < opts.minAge then Keep else Doom
  }

  /** The digests a sweep reclaims: listed, judged dead. */
  ghost predicate Doomed(backend: Backend, reachable: map<string, bool>, opts: SweepOptions, now: int, d: Digest)
    reads backend
  {
    backend.Listed(d) && Judge(backend, reachable, opts, now, d) == Doom
  }

  ghost function DoomedSet(backend: Backend, reachable: map<string, bool>, opts: SweepOptions, now: int): iset<Digest>
    reads backend
  {
    iset d | Doomed(backend, reachable, opts, now, d)
  }

  /** The verdicts in terms of what is stored and which calls fail. A digest the
      backend cannot address, or that has just gone, is kept; any other failure to
      find out aborts. */
  lemma JudgeExactly(backend: Backend, reachable: map<string, bool>, opts: SweepOptions, now: int, d: Digest)
    ensures var verdict, exists_, age :=
              Judge(backend, reachable, opts, now, d), backend.fault(Existence(d)), backend.fault(Age(d));
            var there := !Holds(reachable, d) && exists_.None? && backend.addressable(d) && d in backend.objects;
            && (verdict == Doom <==>
                  there && (opts.minAge > 0 ==> age.None? && now - backend.objects[d].written >= opts.minAge))
            && (forall error :: verdict == Abort(error) <==>
                  || (!Holds(reachable, d) && exists_ == Some(error) && error != InvalidDigest)
                  || (there && opts.minAge > 0 && age == Some(error) && error != NotFound && error != InvalidDigest))
  {
  }

  /** Without faults, the reclaimed digests are exactly those that are stored,
      unmarked, and at least the minimum age old. */
  lemma DoomedMeaning(backend: Backend, reachable: map<string, bool>, opts: SweepOptions, now: int, d: Digest)
    requires backend.Valid()
    requires forall call :: backend.fault(call) == None
    ensures Doomed(backend, reachable, opts, now, d) <==>
            && backend.Listed(d) && backend.addressable(d) && d in backend.objects
            && !Holds(reachable, d)
            && (opts.minAge > 0 ==> now - backend.objects[d].written >= opts.minAge)
  {
  }

  ghost predicate NoneAborts(backend: Backend, reachable: map<string, bool>, opts: SweepOptions, now: int,
                             digests: seq<Digest>)
    reads backend
  {
    forall d :: d in digests ==> !Judge(backend, reachable, opts, now, d).Abort?
  }

  /** The loop over the listing: a completed one reports the doomed digests in the
      order and as often as they are listed; the first verdict to abort ends it. */
  method Scan(backend: Backend, digests: seq<Digest>, reachable: map<string, bool>, opts: SweepOptions,
              now: int, done: nat -> bool, ghost doom: iset<Digest>)
    returns (r: Result<seq<Digest>>, checks: nat)
    requires forall d :: d in digests ==> (d in doom <==> Judge(backend, reachable, opts, now, d) == Doom)
    ensures checks <= |digests| && Alive(done, checks)
    ensures r.Ok? ==>
              && checks == |digests| && r.value == Restrict(digests, doom)
              && NoneAborts(backend, reachable, opts, now, digests)
    ensures r.Err? ==>
              || (r.error == Cancelled && done(checks) && NoneAborts(backend, reachable, opts, now, digests[..checks]))
              || (checks > 0 && NoneAborts(backend, reachable, opts, now, digests[..checks - 1])
                  && Judge(backend, reachable, opts, now, digests[checks - 1]) == Abort(r.error))
  {
    var doomed: seq<Digest> := [];
    checks := 0;
    for i := 0 to |digests|
      invariant checks == i && Alive(done, checks)
      invariant doomed == Restrict(digests[..i], doom)
      invariant NoneAborts(backend, reachable, opts, now, digests[..i])
    {
      if done(checks) {
        return Err(Cancelled), checks;
      }
      checks := checks + 1;
      var d := digests[i];
      assert digests[..i + 1] == digests[..i] + [d];
      RestrictSnoc(digests[..i], d, doom);
      match Judge(backend, reachable, opts, now, d) {
        case Keep =>
        case Abort(error) =>
          return Err(error), checks;
        case Doom => doomed := doomed + [d];
      }
    }
    assert digests[..|digests|] == digests;
    return Ok(doomed), checks;
  }

  lemma RemoveOneMore(objects: map<Digest, Blob>, doomed: seq<Digest>, i: nat)
    requires i < |doomed|
    ensures objects - Elems(doomed[..i]) - {doomed[i]} == objects - Elems(doomed[..i + 1])
  {
    assert doomed[..i + 1] == doomed[..i] + [doomed[i]];
    assert Elems(doomed[..i + 1]) == Elems(doomed[..i]) + {doomed[i]};
  }

  /** Deletes in order; on an early exit exactly a prefix is gone. */
  method DeleteAll(backend: Backend, doomed: seq<Digest>, first: nat, done: nat -> bool)
    returns (failed: Option<Error>, ghost gone: nat, checks: nat)
    requires backend.Valid() && Alive(done, first)
    requires forall d :: d in doomed ==> backend.addressable(d)
    modifies backend
    ensures backend.Valid() && gone <= |doomed|
    ensures backend.objects == old(backend.objects) - Elems(doomed[..gone])
    ensures Alive(done, checks)
    ensures failed.None? ==> gone == |doomed| && checks == first + gone
    ensures failed.Some? ==>
              || (failed.value == Cancelled && done(checks) && checks == first + gone)
              || (gone < |doomed| && backend.fault(Removal(doomed[gone])) == failed && checks == first + gone + 1)
  {
    gone, checks := 0, first;
    assert backend.objects == backend.objects - Elems(doomed[..0]);
    for i := 0 to |doomed|
      invariant backend.Valid() && gone == i && checks == first + i && Alive(done, checks)
      invariant backend.objects == old(backend.objects) - Elems(doomed[..i])
    {
      if done(checks) {
        return Some(Cancelled), gone, checks;
      }
      checks := checks + 1;
      failed := backend.Delete(doomed[i]);
      if failed.Some? {
        assert doomed[i] in doomed;
        return failed, gone, checks;
      }
      RemoveOneMore(old(backend.objects), doomed, i);
      gone := gone + 1;
    }
    return None, gone, checks;
  }

  /** Why a sweep ends early: a context found done, an age limit the backend cannot
      answer, a failed listing, a listed digest it could not judge, or a doomed one
      it could not remove. */
  ghost predicate SweepFails(backend: Backend, reachable: map<string, bool>, opts: SweepOptions, now: int,
                             done: nat -> bool, checks: nat, error: Error)
    reads backend
  {
    || (error == Cancelled && done(checks))
    || (error == Unsupported && opts.minAge > 0 && !backend.statter)
    || backend.fault(Listing) == Some(error)
    || (exists d :: backend.Listed(d) && Judge(backend, reachable, opts, now, d) == Abort(error))
    || (!opts.dryRun
        && exists d :: Doomed(backend, reachable, opts, now, d) && backend.fault(Removal(d)) == Some(error))
  }

  /** The candidates of a sweep: everything before the first removal. */
  method FindDoomed(backend: Backend, reachable: map<string, bool>, opts: SweepOptions, now: int, done: nat -> bool)
    returns (r: Result<seq<Digest>>, checks: nat, ghost listing: seq<Digest>)
    ensures Alive(done, checks)
    ensures r.Ok? ==>
              && checks == |listing| >= |backend.objects.Keys|
              && (opts.minAge > 0 ==> backend.statter)
              && (forall d :: d in listing <==> backend.Listed(d))
              && NoneAborts(backend, reachable, opts, now, listing)
              && r.value == Restrict(listing, DoomedSet(backend, reachable, opts, now))
    ensures r.Err? ==> SweepFails(backend, reachable, opts, now, done, checks, r.error)
    ensures opts.minAge > 0 && !backend.statter ==> r == Err(Unsupported)
  {
    checks, listing := 0, [];
    if opts.minAge > 0 && !backend.statter {
      return Err(Unsupported), checks, listing;
    }
    var digests := backend.List();
    if digests.Err? {
      return Err(digests.error), checks, listing;
    }
    listing := digests.value;
    CoverLength(backend.objects.Keys, listing);
    r, checks := Scan(backend, digests.value, reachable, opts, now, done, DoomedSet(backend, reachable, opts, now));
  }

  /** Removing some of the candidates leaves everything else as it was. */
  lemma OnlyCandidatesGone(objects: map<Digest, Blob>, doomed: seq<Digest>, gone: nat)
    requires gone <= |doomed|
    ensures var left := objects - Elems(doomed[..gone]);
            && left.Keys <= objects.Keys
            && (forall d :: d in left ==> left[d] == objects[d])
            && (forall d :: d in objects && d !in left ==> d in doomed)
            && (gone == |doomed| ==> left == objects - Elems(doomed))
  {
    assert gone == |doomed| ==> doomed[..gone] == doomed;
  }

  /** Without a failing call or a context found done there is nothing to fail for. */
  lemma NothingToFailFor(backend: Backend, reachable: map<string, bool>, opts: SweepOptions, now: int,
                         done: nat -> bool)
    requires (forall k: nat :: !done(k)) && (forall call :: backend.fault(call) == None)
    requires opts.minAge > 0 ==> backend.statter
    ensures forall checks, error :: !SweepFails(backend, reachable, opts, now, done, checks, error)
  {
  }

  /** `Sweep`. `now` is the one clock reading it takes, after the listing. A
      completed sweep reports the doomed digests in the order and as often as they
      are listed and (unless dry) removes exactly them; a dry run changes nothing;
      every failing or cancelled exit has removed only doomed digests and left every
      other object as it was. The context is looked at once for every listed digest
      and again for every removal. */
  method Sweep(backend: Backend, reachable: map<string, bool>, opts: SweepOptions, now: int, done: nat -> bool)
    returns (r: Result<seq<Digest>>, checks: nat, ghost listing: seq<Digest>)
    requires backend.Valid()
    modifies backend
    ensures backend.Valid()
    ensures Alive(done, checks)
    ensures r.Ok? ==>
              && (forall d :: d in listing <==> old(backend.Listed(d)))
              && r.value == Restrict(listing, old(DoomedSet(backend, reachable, opts, now)))
              && checks == |listing| + (if opts.dryRun then 0 else |r.value|)
              && |old(backend.objects).Keys| <= |listing|
    ensures r.Ok? ==>
              && (forall d :: d in r.value <==> old(Doomed(backend, reachable, opts, now, d)))
              && backend.objects == if opts.dryRun then old(backend.objects) else old(backend.objects) - Elems(r.value)
    ensures r.Ok? ==> forall d :: old(backend.Listed(d)) ==> !old(Judge(backend, reachable, opts, now, d)).Abort?
    ensures backend.objects.Keys <= old(backend.objects).Keys
    ensures forall d :: d in backend.objects ==> backend.objects[d] == old(backend.objects)[d]
    ensures forall d :: d in old(backend.objects) && d !in backend.objects ==>
                        !opts.dryRun && old(Doomed(backend, reachable, opts, now, d))
    ensures r.Err? ==> old(SweepFails(backend, reachable, opts, now, done, checks, r.error))
    ensures opts.minAge > 0 && !backend.statter ==> r == Err(Unsupported) && backend.objects == old(backend.objects)
    ensures && (forall k: nat :: !done(k))
            && (forall call :: backend.fault(call) == None)
            && (opts.minAge > 0 ==> backend.statter)
            ==> r.Ok?
  {
    if (forall k: nat :: !done(k)) && (forall call :: backend.fault(call) == None)
       && (opts.minAge > 0 ==> backend.statter) {
      NothingToFailFor(backend, reachable, opts, now, done);
    }
    r, checks, listing := FindDoomed(backend, reachable, opts, now, done);
    ghost var doom := DoomedSet(backend, reachable, opts, now);
    RestrictMembers(listing, doom);
    if r.Err? || opts.dryRun {
      return;
    }
    var failed; ghost var gone;
    failed, gone, checks := DeleteAll(backend, r.value, checks, done);
    OnlyCandidatesGone(old(backend.objects), r.value, gone);
    if failed.Some? {
      assert gone < |r.value| ==> r.value[gone] in r.value;
      r := Err(failed.value);
    }
  }
}
