/** Sweeping while writers publish: every interleaving of object writes, ref
    updates and the individual steps of a sweep, as one transition system. It
    follows `Roots`, `Reachable` and `Sweep` call by call (cas/refs/refs.go,
    cas/reachability.go, cas/sweep.go). */
module ConcurrentSweep {
  import opened Digests
  import opened Graphs

  /** The agreement between writers and sweeps. `edges` is fixed because content
      addressing fixes what each digest references. */
  datatype Setting = Setting(
    edges: Edges,
    span: nat,        // longest time from reading the roots to the sweep's clock reading
    grace: nat,       // longest time from writing an absent object to publishing it
    minAge: int,      // SweepOptions.MinAge
    exclusive: bool,  // no other sweep deletes meanwhile
    steady: bool,     // a ref is not overwritten or removed between the start of a root read and its own reading
    createdOnly: bool) // a write that found its digest stored does not entitle to publish it

  /** Where the sweep stands. `readAt` is when it began to read the roots; `unread`
      are the refs that existed then and have not been read. */
  datatype Phase =
    | Idle
    | ReadingRoots(readAt: int, unread: set<string>, roots: set<Digest>)
    | Marked(readAt: int, live: set<Digest>)
    | Listed(readAt: int, live: set<Digest>, todo: set<Digest>)
    | Scanning(readAt: int, live: set<Digest>, now: int, todo: set<Digest>, doomed: set<Digest>)

  /** `written` holds the stored objects with their write times; `created` is
      history: when each digest was last written while the store did not hold it
      (or, without `createdOnly`, when it was last written at all). */
  datatype State = State(
    clock: int,
    written: map<Digest, int>,
    created: map<Digest, int>,
    refs: map<string, Digest>,
    phase: Phase)

  datatype Action =
    | Tick(to: int)
    | Write(d: Digest, refresh: bool)
    | Publish(name: string, d: Digest)
    | Unpublish(name: string)
    | BeginRoots
    | ReadRef(name: string)
    | SkipRef(name: string)
    | EndRoots(marked: set<Digest>)
    | List
    | ReadClock
    | Examine(d: Digest)
    | Remove(d: Digest)
    | Leave
    | OtherSweepRemoves(d: Digest)

  ghost predicate Reachable(p: Setting, s: State, d: Digest) {
    ReachableFrom(p.edges, s.refs.Values, d)
  }

  /** The publication rule: everything a new ref exposes is reachable already or
      was created recently enough. */
  ghost predicate MayPublish(p: Setting, s: State, d: Digest) {
    forall x :: Reaches(p.edges, d, x) ==>
      Reachable(p, s, x) || (x in s.created && s.clock - s.created[x] <= p.grace)
  }

  /** The rule about refs that are waiting to be read. */
  predicate MayChange(p: Setting, s: State, name: string) {
    p.steady && s.phase.ReadingRoots? ==> name !in s.phase.unread
  }

  /** `List` walks the directory and reads one value file after another: a ref
      published meanwhile may be read or not, one removed before its directory was
      listed is skipped, and one removed after that fails the walk (`Leave`). */
  ghost predicate Enabled(p: Setting, s: State, a: Action) {
    match a
    case Tick(to) => s.clock <= to
    case Write(_, _) => true
    case Publish(name, d) => MayPublish(p, s, d) && MayChange(p, s, name)
    case Unpublish(name) => MayChange(p, s, name)
    case BeginRoots => s.phase.Idle?
    case ReadRef(name) => s.phase.ReadingRoots? && name in s.refs
    case SkipRef(name) => s.phase.ReadingRoots? && name !in s.refs
    case EndRoots(marked) =>
      && s.phase.ReadingRoots? && s.phase.unread == {}
      && forall x :: x in marked <==> ReachableFrom(p.edges, s.phase.roots, x)
    case List => s.phase.Marked?
    case ReadClock => s.phase.Listed? && s.clock - s.phase.readAt <= p.span
    case Examine(d) => s.phase.Scanning? && d in s.phase.todo
    case Remove(d) => s.phase.Scanning? && s.phase.todo == {} && d in s.phase.doomed
    case Leave => true
    case OtherSweepRemoves(d) =>
      && !p.exclusive && !Reachable(p, s, d)
      && d in s.written && s.clock - s.written[d] >= p.minAge
  }

  /** The sweep's verdict on a listed digest. */
  predicate Dead(p: Setting, s: State, live: set<Digest>, now: int, d: Digest) {
    d !in live && d in s.written && (p.minAge > 0 ==> now - s.written[d] >= p.minAge)
  }

  /** Writing an absent digest stores it now. A digest already stored keeps its
      write time (`PutDedup`) or has it refreshed (`Put` on some backends). */
  function Next(p: Setting, s: State, a: Action): State
    requires Enabled(p, s, a)
  {
    match a
    case Tick(to) => s.(clock := to)
    case Write(d, refresh) =>
      if d !in s.written then s.(written := s.written[d := s.clock], created := s.created[d := s.clock])
      else
        s.(written := if refresh then s.written[d := s.clock] else s.written,
           created := if p.createdOnly then s.created else s.created[d := s.clock])
    case Publish(name, d) => s.(refs := s.refs[name := d])
    case Unpublish(name) => s.(refs := s.refs - {name})
    case BeginRoots => s.(phase := ReadingRoots(s.clock, s.refs.Keys, {}))
    case ReadRef(name) =>
      s.(phase := s.phase.(unread := s.phase.unread - {name}, roots := s.phase.roots + {s.refs[name]}))
    case SkipRef(name) => s.(phase := s.phase.(unread := s.phase.unread - {name}))
    case EndRoots(marked) => s.(phase := Marked(s.phase.readAt, marked))
    case List => s.(phase := Listed(s.phase.readAt, s.phase.live, s.written.Keys))
    case ReadClock => s.(phase := Scanning(s.phase.readAt, s.phase.live, s.clock, s.phase.todo, {}))
    case Examine(d) =>
      var doomed := if Dead(p, s, s.phase.live, s.phase.now, d) then s.phase.doomed + {d} else s.phase.doomed;
      s.(phase := s.phase.(todo := s.phase.todo - {d}, doomed := doomed))
    case Remove(d) =>
      s.(written := s.written - {d}, phase := s.phase.(doomed := s.phase.doomed - {d}))
    case Leave => s.(phase := Idle)
    case OtherSweepRemoves(d) => s.(written := s.written - {d})
  }

  /** No ref reaches a digest the store does not hold. */
  ghost predicate NoDangling(p: Setting, s: State) {
    forall x :: Reachable(p, s, x) ==> x in s.written
  }

  /** Runs start from any store without dangling refs and no sweep under way. */
  ghost predicate Init(p: Setting, s: State) {
    s.phase.Idle? && s.created == map[] && NoDangling(p, s)
  }

  datatype Run = Start(first: State) | Then(before: Run, action: Action)

  ghost function Final(p: Setting, run: Run): (s: State)
    requires Legal(p, run)
    decreases run, 1
  {
    match run
    case Start(first) => first
    case Then(before, action) => Next(p, Final(p, before), action)
  }

  ghost predicate Legal(p: Setting, run: Run)
    decreases run, 0
  {
    match run
    case Start(first) => Init(p, first)
    case Then(before, action) => Legal(p, before) && Enabled(p, Final(p, before), action)
  }

  ghost predicate Safe(p: Setting) {
    forall run :: Legal(p, run) ==> NoDangling(p, Final(p, run))
  }

  // ---- The grace period is long enough -------------------------------------

  /** What the sweep's private state guarantees about digests reachable now: they
      were marked, or created no earlier than `grace` before the roots were read. */
  ghost predicate MarkCovers(p: Setting, s: State, readAt: int, live: set<Digest>) {
    forall x :: Reachable(p, s, x) && x !in live ==> x in s.created && readAt - s.created[x] <= p.grace
  }

  /** The digests a root read has collected or is still bound to collect. */
  ghost function Pending(s: State): set<Digest>
    requires s.phase.ReadingRoots?
  {
    s.phase.roots + set n | n in s.phase.unread && n in s.refs :: s.refs[n]
  }

  /** The same while the roots are being read: what is reachable now will be marked
      or was created recently. */
  ghost predicate ReadCovers(p: Setting, s: State)
    requires s.phase.ReadingRoots?
  {
    forall x :: Reachable(p, s, x) ==>
      ReachableFrom(p.edges, Pending(s), x) || (x in s.created && s.phase.readAt - s.created[x] <= p.grace)
  }

  /** Doomed digests are still stored, unmarked, and were not created recently. */
  ghost predicate DoomedAreOld(p: Setting, s: State) {
    s.phase.Scanning? ==>
      && s.phase.now <= s.clock && s.phase.now - s.phase.readAt <= p.span
      && forall x :: x in s.phase.doomed ==>
           x in s.written && x !in s.phase.live && (x in s.created ==> s.phase.now - s.created[x] >= p.minAge)
  }

  ghost predicate CreationTimes(p: Setting, s: State) {
    forall x :: x in s.created ==>
      && s.created[x] <= s.clock
      && (x in s.written ==> s.created[x] <= s.written[x])
      && (s.clock - s.created[x] <= p.grace ==> x in s.written)
  }

  ghost predicate PhaseCovers(p: Setting, s: State) {
    match s.phase
    case Idle => true
    case ReadingRoots(readAt, _, _) => readAt <= s.clock && ReadCovers(p, s)
    case Marked(readAt, live) => readAt <= s.clock && MarkCovers(p, s, readAt, live)
    case Listed(readAt, live, _) => readAt <= s.clock && MarkCovers(p, s, readAt, live)
    case Scanning(readAt, live, _, _, _) => readAt <= s.clock && MarkCovers(p, s, readAt, live)
  }

  ghost predicate Inv(p: Setting, s: State) {
    NoDangling(p, s) && CreationTimes(p, s) && PhaseCovers(p, s) && DoomedAreOld(p, s)
  }

  /** Publishing makes reachable only what the rule allows. */
  lemma PublishReaches(p: Setting, s: State, name: string, d: Digest, x: Digest)
    requires Reachable(p, s.(refs := s.refs[name := d]), x)
    ensures Reachable(p, s, x) || Reaches(p.edges, d, x)
  {
    var refs := s.refs[name := d];
    var r :| r in refs.Values && Reaches(p.edges, r, x);
    var n :| n in refs && refs[n] == r;
    if n != name {
      assert s.refs[n] in s.refs.Values;
    }
  }

  lemma UnpublishReaches(p: Setting, s: State, name: string, x: Digest)
    requires Reachable(p, s.(refs := s.refs - {name}), x)
    ensures Reachable(p, s, x)
  {
    var refs := s.refs - {name};
    var r :| r in refs.Values && Reaches(p.edges, r, x);
    var n :| n in refs && refs[n] == r;
    assert s.refs[n] in s.refs.Values;
  }

  lemma PublishKeepsInv(p: Setting, s: State, name: string, d: Digest)
    requires p.steady && Inv(p, s) && Enabled(p, s, Publish(name, d))
    ensures Inv(p, Next(p, s, Publish(name, d)))
  {
    var t := Next(p, s, Publish(name, d));
    forall x | Reachable(p, t, x)
      ensures Reachable(p, s, x) || (x in s.created && s.clock - s.created[x] <= p.grace)
    {
      PublishReaches(p, s, name, d, x);
    }
    assert s.phase.ReadingRoots? ==> Pending(t) == Pending(s);
  }

  lemma UnpublishKeepsInv(p: Setting, s: State, name: string)
    requires p.steady && Inv(p, s) && Enabled(p, s, Unpublish(name))
    ensures Inv(p, Next(p, s, Unpublish(name)))
  {
    var t := Next(p, s, Unpublish(name));
    forall x | Reachable(p, t, x)
      ensures Reachable(p, s, x)
    {
      UnpublishReaches(p, s, name, x);
    }
    assert s.phase.ReadingRoots? ==> Pending(t) == Pending(s);
  }

  /** A root read begins with every ref waiting. */
  lemma BeginRootsKeepsInv(p: Setting, s: State)
    requires Inv(p, s) && s.phase.Idle?
    ensures Inv(p, Next(p, s, BeginRoots))
  {
    var t := Next(p, s, BeginRoots);
    assert Pending(t) == s.refs.Values;
  }

  /** Reading a ref moves its digest from those waiting to those collected. */
  lemma ReadRefKeepsInv(p: Setting, s: State, name: string)
    requires Inv(p, s) && Enabled(p, s, ReadRef(name))
    ensures Inv(p, Next(p, s, ReadRef(name)))
  {
    var t := Next(p, s, ReadRef(name));
    assert Pending(s) <= Pending(t);
    forall x | ReachableFrom(p.edges, Pending(s), x) ensures ReachableFrom(p.edges, Pending(t), x) {
    }
  }

  lemma SkipRefKeepsInv(p: Setting, s: State, name: string)
    requires Inv(p, s) && Enabled(p, s, SkipRef(name))
    ensures Inv(p, Next(p, s, SkipRef(name)))
  {
    assert Pending(Next(p, s, SkipRef(name))) == Pending(s);
  }

  /** With nothing left to read, the mark set covers what the read covered. */
  lemma EndRootsKeepsInv(p: Setting, s: State, marked: set<Digest>)
    requires Inv(p, s) && Enabled(p, s, EndRoots(marked))
    ensures Inv(p, Next(p, s, EndRoots(marked)))
  {
    assert Pending(s) == s.phase.roots;
    assert forall x :: Reachable(p, Next(p, s, EndRoots(marked)), x) <==> Reachable(p, s, x);
  }

  /** The heart of the argument: what the sweep removes is not reachable now and
      is past every window in which it could still be published. */
  lemma RemoveKeepsInv(p: Setting, s: State, d: Digest)
    requires p.span + p.grace < p.minAge
    requires Inv(p, s) && Enabled(p, s, Remove(d))
    ensures Inv(p, Next(p, s, Remove(d)))
  {
    assert !Reachable(p, s, d);
    var t := Next(p, s, Remove(d));
    assert forall x :: Reachable(p, t, x) <==> Reachable(p, s, x);
  }

  lemma WriteKeepsInv(p: Setting, s: State, d: Digest, refresh: bool)
    requires p.createdOnly && Inv(p, s)
    ensures Inv(p, Next(p, s, Write(d, refresh)))
  {
    var t := Next(p, s, Write(d, refresh));
    assert forall x :: Reachable(p, t, x) <==> Reachable(p, s, x);
  }

  lemma ExamineKeepsInv(p: Setting, s: State, d: Digest)
    requires p.minAge > 0 && Inv(p, s) && Enabled(p, s, Examine(d))
    ensures Inv(p, Next(p, s, Examine(d)))
  {
    var t := Next(p, s, Examine(d));
    assert forall x :: Reachable(p, t, x) <==> Reachable(p, s, x);
  }

  /** The discipline that makes concurrent sweeping safe. */
  predicate Disciplined(p: Setting) {
    p.exclusive && p.steady && p.createdOnly && p.span + p.grace < p.minAge
  }

  lemma StepKeepsInv(p: Setting, s: State, a: Action)
    requires Disciplined(p)
    requires Inv(p, s) && Enabled(p, s, a)
    ensures Inv(p, Next(p, s, a))
  {
    match a
    case Publish(name, d) => PublishKeepsInv(p, s, name, d);
    case Unpublish(name) => UnpublishKeepsInv(p, s, name);
    case Remove(d) => RemoveKeepsInv(p, s, d);
    case Write(d, refresh) => WriteKeepsInv(p, s, d, refresh);
    case Examine(d) => ExamineKeepsInv(p, s, d);
    case BeginRoots => BeginRootsKeepsInv(p, s);
    case ReadRef(name) => ReadRefKeepsInv(p, s, name);
    case SkipRef(name) => SkipRefKeepsInv(p, s, name);
    case EndRoots(marked) => EndRootsKeepsInv(p, s, marked);
    case OtherSweepRemoves(_) => assert false;
    case _ =>
      var t := Next(p, s, a);
      assert forall x :: Reachable(p, t, x) <==> Reachable(p, s, x);
  }

  lemma {:induction false} RunKeepsInv(p: Setting, run: Run)
    requires Disciplined(p)
    requires Legal(p, run)
    ensures Inv(p, Final(p, run))
  {
    match run
    case Start(_) =>
    case Then(before, action) =>
      RunKeepsInv(p, before);
      StepKeepsInv(p, Final(p, before), action);
  }

  // ---- And every part of the condition is needed ----------------------------

  lemma LeafReaches(edges: Edges, leaf: Digest, x: Digest)
    requires edges(leaf) == [] && Reaches(edges, leaf, x)
    ensures x == leaf
  {
    var path :| IsPath(edges, path) && path[0] == leaf && path[|path| - 1] == x;
    PathStaysInClosed(edges, {leaf}, path);
  }

  lemma LeafRootsReach(edges: Edges, roots: set<Digest>, x: Digest)
    requires forall r :: r in roots ==> edges(r) == []
    ensures ReachableFrom(edges, roots, x) <==> x in roots
  {
    if ReachableFrom(edges, roots, x) {
      var r :| r in roots && Reaches(edges, r, x);
      LeafReaches(edges, r, x);
    }
    if x in roots {
      ReachesSelf(edges, x);
    }
  }

  /** Continues a run by one step. */
  lemma Extend(p: Setting, run: Run, s: State, a: Action) returns (longer: Run, t: State)
    requires Legal(p, run) && Final(p, run) == s && Enabled(p, s, a)
    ensures Legal(p, longer) && t == Next(p, s, a) && Final(p, longer) == t
  {
    longer, t := Then(run, a), Next(p, s, a);
  }

  /** Writes one object into an empty store at time zero. */
  lemma CreateLeaf(p: Setting, leaf: Digest) returns (run: Run, s: State)
    ensures Legal(p, run) && Final(p, run) == s
    ensures s == State(0, map[leaf := 0], map[leaf := 0], map[], Idle)
  {
    s := State(0, map[], map[], map[], Idle);
    run := Start(s);
    run, s := Extend(p, run, s, Write(leaf, false));
  }

  /** A root read without refs marks nothing. */
  lemma MarkNothing(p: Setting, run0: Run, s0: State) returns (run: Run, s: State)
    requires Legal(p, run0) && Final(p, run0) == s0 && s0.phase.Idle? && s0.refs == map[]
    ensures Legal(p, run) && Final(p, run) == s
    ensures s == s0.(phase := Marked(s0.clock, {}))
  {
    run, s := Extend(p, run0, s0, BeginRoots);
    run, s := Extend(p, run, s, EndRoots({}));
  }

  /** An unpublished object of a given age, and a sweep that has just marked. */
  lemma MarkAround(p: Setting, leaf: Digest, age: nat) returns (run: Run, s: State)
    ensures Legal(p, run) && Final(p, run) == s
    ensures s == State(age, map[leaf := 0], map[leaf := 0], map[], Marked(age, {}))
  {
    run, s := CreateLeaf(p, leaf);
    run, s := Extend(p, run, s, Tick(age));
    run, s := MarkNothing(p, run, s);
  }

  /** Once the sweep has marked without it, a published old leaf is removed. */
  lemma SweepLeaf(p: Setting, run0: Run, s0: State, leaf: Digest, now: int) returns (run: Run, s: State)
    requires Legal(p, run0) && Final(p, run0) == s0
    requires s0.phase.Marked? && leaf !in s0.phase.live && s0.written.Keys == {leaf}
    requires s0.clock <= now && now - s0.phase.readAt <= p.span && now - s0.written[leaf] >= p.minAge
    ensures Legal(p, run) && Final(p, run) == s
    ensures s.phase.Scanning? && s.phase.todo == {} && s.phase.doomed == {leaf}
    ensures s.refs == s0.refs && s.clock == now && s.written == s0.written
  {
    run, s := Extend(p, run0, s0, Tick(now));
    run, s := Extend(p, run, s, List);
    run, s := Extend(p, run, s, ReadClock);
    run, s := Extend(p, run, s, Examine(leaf));
  }

  lemma RemoveLeaf(p: Setting, run0: Run, s0: State, leaf: Digest)
    requires Legal(p, run0) && Final(p, run0) == s0
    requires s0.phase.Scanning? && s0.phase.todo == {} && leaf in s0.phase.doomed
    requires leaf in s0.refs.Values
    ensures !Safe(p)
  {
    var run, s := Extend(p, run0, s0, Remove(leaf));
    ReachesSelf(p.edges, leaf);
    assert Reachable(p, s, leaf);
    assert !NoDangling(p, Final(p, run));
  }

  lemma MayPublishCreatedLeaf(p: Setting, s: State, leaf: Digest)
    requires p.edges(leaf) == [] && leaf in s.created && s.clock - s.created[leaf] <= p.grace
    ensures MayPublish(p, s, leaf)
  {
    forall x | Reaches(p.edges, leaf, x) ensures x == leaf {
      LeafReaches(p.edges, leaf, x);
    }
  }

  lemma MayPublishReachableLeaf(p: Setting, s: State, leaf: Digest)
    requires p.edges(leaf) == [] && leaf in s.refs.Values
    ensures MayPublish(p, s, leaf)
  {
    forall x | Reaches(p.edges, leaf, x) ensures Reachable(p, s, x) {
      LeafReaches(p.edges, leaf, x);
    }
  }

  /** An object created at time zero and published as late as the rule allows,
      just after the roots were read, is old enough to be swept. */
  lemma ShortGraceIsUnsafe(p: Setting, leaf: Digest)
    requires p.edges(leaf) == [] && p.span + p.grace >= p.minAge
    ensures !Safe(p)
  {
    var run, s := MarkAround(p, leaf, p.grace);
    MayPublishCreatedLeaf(p, s, leaf);
    run, s := Extend(p, run, s, Publish("main", leaf));
    assert s.refs["main"] in s.refs.Values;
    run, s := SweepLeaf(p, run, s, leaf, p.grace + p.span);
    RemoveLeaf(p, run, s, leaf);
  }

  /** Two overlapping sweeps are unsafe whatever the ages: the other removes a
      doomed object, a writer creates it anew and publishes it, and this sweep
      removes it again. */
  lemma OverlappingSweepsAreUnsafe(p: Setting, leaf: Digest)
    requires p.edges(leaf) == [] && !p.exclusive
    ensures !Safe(p)
  {
    var age := if p.minAge > 0 then p.minAge else 0;
    var run, s := MarkAround(p, leaf, age);
    run, s := SweepLeaf(p, run, s, leaf, age);
    run, s := Extend(p, run, s, OtherSweepRemoves(leaf));
    run, s := Extend(p, run, s, Write(leaf, false));
    MayPublishCreatedLeaf(p, s, leaf);
    run, s := Extend(p, run, s, Publish("main", leaf));
    assert s.refs["main"] in s.refs.Values;
    RemoveLeaf(p, run, s, leaf);
  }

  /** A root read in progress: "a" has been read, "b" and "c" have not. */
  lemma HalfReadRoots(p: Setting, leaf: Digest, other: Digest, age: int) returns (run: Run, s: State)
    requires p.edges(leaf) == [] && p.edges(other) == [] && leaf != other && !p.steady
    ensures Legal(p, run) && Final(p, run) == s
    ensures s == State(age, map[leaf := 0, other := 0], map[],
                       map["a" := other, "b" := leaf, "c" := other], ReadingRoots(age, {"b", "c"}, {other}))
  {
    s := State(age, map[leaf := 0, other := 0], map[], map["a" := other, "b" := leaf, "c" := other], Idle);
    run := Start(s);
    forall x | Reachable(p, s, x) ensures x in s.written { LeafRootsReach(p.edges, s.refs.Values, x); }
    run, s := Extend(p, run, s, BeginRoots);
    run, s := Extend(p, run, s, ReadRef("a"));
    assert s.phase.unread == {"b", "c"};
  }

  /** Then "b" is renamed to "a", which was read before. */
  lemma MoveRef(p: Setting, leaf: Digest, other: Digest, age: int) returns (run: Run, s: State)
    requires p.edges(leaf) == [] && p.edges(other) == [] && leaf != other && !p.steady
    ensures Legal(p, run) && Final(p, run) == s
    ensures s == State(age, map[leaf := 0, other := 0], map[],
                       map["a" := leaf, "c" := other], ReadingRoots(age, {"b", "c"}, {other}))
  {
    run, s := HalfReadRoots(p, leaf, other, age);
    assert s.refs["b"] in s.refs.Values;
    MayPublishReachableLeaf(p, s, leaf);
    run, s := Extend(p, run, s, Publish("a", leaf));
    run, s := Extend(p, run, s, Unpublish("b"));
  }

  /** The rest of the root read then misses what "b" named. */
  lemma MissMovedRef(p: Setting, leaf: Digest, other: Digest, age: int) returns (run: Run, s: State)
    requires p.edges(leaf) == [] && p.edges(other) == [] && leaf != other && !p.steady
    ensures Legal(p, run) && Final(p, run) == s
    ensures s == State(age, map[leaf := 0, other := 0], map[],
                       map["a" := leaf, "c" := other], Marked(age, {other}))
  {
    run, s := MoveRef(p, leaf, other, age);
    run, s := Extend(p, run, s, SkipRef("b"));
    run, s := Extend(p, run, s, ReadRef("c"));
    assert s.phase.unread == {} && s.phase.roots == {other};
    forall x ensures x in {other} <==> ReachableFrom(p.edges, {other}, x) { LeafRootsReach(p.edges, {other}, x); }
    run, s := Extend(p, run, s, EndRoots({other}));
  }

  /** Changing refs that are waiting to be read is unsafe whatever the ages. */
  lemma MovedRefsAreUnsafe(p: Setting, leaf: Digest, other: Digest)
    requires p.edges(leaf) == [] && p.edges(other) == [] && leaf != other && !p.steady
    ensures !Safe(p)
  {
    var run, s := MissMovedRef(p, leaf, other, if p.minAge > 0 then p.minAge else 0);
    run, s := Extend(p, run, s, List);
    run, s := Extend(p, run, s, ReadClock);
    run, s := Extend(p, run, s, Examine(other));
    run, s := Extend(p, run, s, Examine(leaf));
    assert s.phase.todo == {};
    assert s.refs["a"] in s.refs.Values;
    RemoveLeaf(p, run, s, leaf);
  }

  /** The same object written once more: the write is skipped, its time is noted. */
  lemma WriteAgain(p: Setting, leaf: Digest, age: nat) returns (run: Run, s: State)
    requires !p.createdOnly
    ensures Legal(p, run) && Final(p, run) == s
    ensures s == State(age, map[leaf := 0], map[leaf := age], map[], Marked(age, {}))
  {
    run, s := MarkAround(p, leaf, age);
    run, s := Extend(p, run, s, Write(leaf, false));
  }

  /** Counting a deduplicated write as recent is unsafe whatever the ages: the
      skipped write leaves the old write time in place. */
  lemma DeduplicatedWritesAreUnsafe(p: Setting, leaf: Digest)
    requires p.edges(leaf) == [] && !p.createdOnly
    ensures !Safe(p)
  {
    var age := if p.minAge > 0 then p.minAge else 0;
    var run, s := WriteAgain(p, leaf, age);
    MayPublishCreatedLeaf(p, s, leaf);
    run, s := Extend(p, run, s, Publish("main", leaf));
    assert s.refs["main"] in s.refs.Values;
    run, s := SweepLeaf(p, run, s, leaf, age);
    RemoveLeaf(p, run, s, leaf);
  }

  /** The exact condition: refs never dangle, in any interleaving, if and only if
      sweeps are exclusive, no ref changes while it waits to be read as a root, only
      created objects are published unreferenced, and the minimum age exceeds the
      mark span plus the publication grace. Equality is not enough. */
  lemma SafeExactly(p: Setting, leaf: Digest, other: Digest)
    requires p.edges(leaf) == [] && p.edges(other) == [] && leaf != other
    ensures Safe(p) <==> Disciplined(p)
  {
    if Disciplined(p) {
      forall run | Legal(p, run) ensures NoDangling(p, Final(p, run)) {
        RunKeepsInv(p, run);
      }
    } else if !p.steady {
      MovedRefsAreUnsafe(p, leaf, other);
    } else if !p.exclusive {
      OverlappingSweepsAreUnsafe(p, leaf);
    } else if !p.createdOnly {
      DeduplicatedWritesAreUnsafe(p, leaf);
    } else {
      ShortGraceIsUnsafe(p, leaf);
    }
  }
}
