/** Cross-type resolution and reachability (cas/repo/repo.go). */
module Registries {
  import opened Common
  import opened Digests
  import opened Graphs
  import opened Reachability
  import opened Backends
  import opened Envelopes

  /** What a decoder returns: an object (seen through its references), nil, or a
      failure. */
  datatype Decoding = Object(refs: seq<Digest>) | NilObject | Undecodable(error: Error)

  /** A decoder reads what it needs through the backend. */
  type Decoder = (ObjectReader, Digest) -> Decoding

  /** What `Resolve` returns. */
  datatype Resolved = Decoded(refs: seq<Digest>) | UnknownObject(typeName: Name) | Unreadable(error: Error)

  const NIL_DECODED := Other(3)

  class Registry {
    const backend: Backend
    /** The hasher's answer about a digest. */
    const validate: Digest -> Option<Error>
    /** Which errors, a backend's, hasher's or decoder's, hold an unknown-type error
        somewhere in their chain. */
    const carries: Error -> bool
    var decoders: map<Name, Decoder>

    constructor (backend: Backend, validate: Digest -> Option<Error>, carries: Error -> bool)
      ensures this.backend == backend && this.validate == validate && this.carries == carries && decoders == map[]
    {
      this.backend := backend;
      this.validate := validate;
      this.carries := carries;
      decoders := map[];
    }

    function Snapshot(): View
      reads this, backend
    {
      View(backend.Reader(), validate, carries, decoders)
    }

    /** `Register`: one decoder per type name, decided once. */
    method Register(typeName: Name, decode: Option<Decoder>) returns (ok: bool)
      modifies this`decoders
      ensures ok <==> typeName != [] && decode.Some? && typeName !in old(decoders)
      ensures decoders == if ok then old(decoders)[typeName := decode.value] else old(decoders)
    {
      if typeName == [] || decode.None? || typeName in decoders.Keys {
        return false;
      }
      decoders := decoders[typeName := decode.value];
      return true;
    }
  }

  /** The parts of a registry a resolution reads. */
  datatype View = View(read: ObjectReader, validate: Digest -> Option<Error>, carries: Error -> bool,
                       decoders: map<Name, Decoder>)
  {

    /** `cas.HeaderType`: the type name from the bounded header read. */
    function HeaderType(d: Digest): Result<Name> {
      var bytes :- read(d);
      var h :- BoundedHeader(bytes);
      Ok(h.TypeName())
    }

    /** `Resolve`. */
    function Resolve(d: Digest): Resolved {
      if IsZero(d) then Unreadable(InvalidDigest)
      else if validate(d).Some? then Unreadable(validate(d).value)
      else
        match HeaderType(d)
        case Err(error) => Unreadable(error)
        case Ok(typeName) =>
          if typeName !in decoders then UnknownObject(typeName) else
            match decoders[typeName](read, d)
            case Object(refs) => Decoded(refs)
            case NilObject => Unreadable(NIL_DECODED)
            case Undecodable(error) => Unreadable(error)
    }

    /** `resolveNode`: a failure with an unknown-type error anywhere in its chain makes
        a leaf, every other one aborts. */
    function NodeAt(d: Digest): Resolution {
      match Resolve(d)
      case Decoded(refs) => Found(Some(refs), None)
      case UnknownObject(_) => Found(Some([]), None)
      case Unreadable(error) => if carries(error) then Found(Some([]), None) else Failed(error)
    }

    function Resolver(): NodeResolver {
      d => NodeAt(d)
    }

    /** Stored, with a readable header, and of an unregistered type or decodable. */
    ghost predicate Intact(d: Digest) {
      && !IsZero(d) && validate(d).None? && HeaderType(d).Ok?
      && (HeaderType(d).value in decoders ==> decoders[HeaderType(d).value](read, d).Object?)
    }

    /** The graph reachability is about: an object whose type is not registered is
        a leaf, any other has the references its decoder reports. */
    ghost predicate References(d: Digest, c: Digest) {
      && Intact(d) && HeaderType(d).value in decoders
      && !IsZero(c) && c in decoders[HeaderType(d).value](read, d).refs
    }

    /** Not resolved, but the failure, wherever it comes from, carries an unknown-type
        error. */
    ghost predicate Masked(d: Digest) {
      Resolve(d).Unreadable? && carries(Resolve(d).error)
    }
  }

  lemma ViewIsFinite(v: View, stored: set<Digest>)
    requires forall d :: d !in stored ==> v.read(d).Err?
    ensures FiniteSupport(EdgesOf(v.Resolver()), stored)
  {
    forall d | d !in stored
      ensures EdgesOf(v.Resolver())(d) == []
    {
      assert v.HeaderType(d).Err?;
      assert v.Resolver()(d) == v.NodeAt(d) && v.NodeAt(d).References() == [];
    }
  }

  /** What the walk follows and where it stops, in terms of the stored objects: it
      passes intact and masked objects, and follows exactly their references, of
      which a masked one has none. */
  lemma EdgesMeaning(v: View, d: Digest, c: Digest)
    ensures v.Resolver()(d).Found? <==> v.Intact(d) || v.Masked(d)
    ensures c in EdgesOf(v.Resolver())(d) <==> v.References(d, c)
  {
    PresentMember(v.Resolver()(d).References(), c);
  }

  /** The dispatch is by the type name of the object's own envelope. */
  lemma DispatchByType(v: View, d: Digest, data: seq<byte>)
    requires v.read(d) == Ok(data)
    ensures v.HeaderType(d).Ok? <==> BoundedHeader(data).Ok?
    ensures v.HeaderType(d).Ok? && DecodeEnvelope(data).Ok? ==>
              v.HeaderType(d).value == DecodeEnvelope(data).value.typeName
  {
    if BoundedHeader(data).Ok? && DecodeEnvelope(data).Ok? {
      HeaderNamesType(data);
    }
  }

  /** The decoder registered under `typ` finds `c` among the references of `d`. */
  ghost predicate Reports(v: View, typ: Name, d: Digest, c: Digest) {
    typ in v.decoders && v.decoders[typ](v.read, d).Object? && !IsZero(c) && c in v.decoders[typ](v.read, d).refs
  }

  /** A stored frame has the references the decoder of its type reports, and none if
      that type is not registered. */
  lemma FrameReferences(v: View, d: Digest, c: Digest, codec: Name, typ: Name, payload: seq<byte>)
    requires !IsZero(d) && v.validate(d).None? && v.read(d) == Ok(Frame(codec, typ, payload))
    requires AT in typ && |codec| <= MAX_PEEK_NAME && |typ| <= MAX_PEEK_NAME
    requires |HeaderBytes(codec, typ)| <= HEADER_PREFIX_LIMIT
    ensures v.References(d, c) <==> Reports(v, typ, d, c)
    ensures v.Intact(d) <==> (typ in v.decoders ==> v.decoders[typ](v.read, d).Object?)
    ensures typ !in v.decoders ==> v.Resolve(d) == UnknownObject(typ)
  {
    BoundedHeaderOfFrame(codec, typ, payload);
    assert v.HeaderType(d) == Ok(typ);
  }

  /** The same for an object of the version 1 format, whose legacy type name counts as
      its version 1. */
  lemma Version1References(v: View, d: Digest, c: Digest, typ: Name, payload: seq<byte>)
    requires !IsZero(d) && v.validate(d).None?
    requires v.read(d) == Ok([VERSION_1] + LengthPrefixed(typ) + LengthPrefixed(payload))
    requires typ != [] && |typ| <= MAX_PEEK_NAME
    ensures var reported := if AT in typ then typ else typ + [AT, 49];
            && (v.References(d, c) <==> Reports(v, reported, d, c))
            && (v.Intact(d) <==> (reported in v.decoders ==> v.decoders[reported](v.read, d).Object?))
            && (reported !in v.decoders ==> v.Resolve(d) == UnknownObject(reported))
  {
    BoundedHeaderOfVersion1(typ, payload);
  }

  ghost predicate IsTrail(v: View, trail: seq<Digest>) {
    |trail| > 0 && forall i :: 0 <= i < |trail| - 1 ==> v.References(trail[i], trail[i + 1])
  }

  /** A trail of references leads from a present root to `d`. */
  ghost predicate Linked(v: View, roots: seq<Digest>, d: Digest) {
    exists trail :: IsTrail(v, trail) && trail[0] in roots && !IsZero(trail[0]) && trail[|trail| - 1] == d
  }

  lemma TrailIsPath(v: View, trail: seq<Digest>)
    ensures IsTrail(v, trail) <==> IsPath(EdgesOf(v.Resolver()), trail)
  {
    forall i | 0 <= i < |trail| - 1
      ensures v.References(trail[i], trail[i + 1]) <==> trail[i + 1] in EdgesOf(v.Resolver())(trail[i])
    {
      EdgesMeaning(v, trail[i], trail[i + 1]);
    }
  }

  lemma LiveIsLinked(v: View, roots: seq<Digest>, d: Digest)
    ensures Live(v.Resolver(), roots, d) <==> Linked(v, roots, d)
  {
    var edges := EdgesOf(v.Resolver());
    if Live(v.Resolver(), roots, d) {
      var r :| r in Elems(Present(roots)) && Reaches(edges, r, d);
      var path :| IsPath(edges, path) && path[0] == r && path[|path| - 1] == d;
      TrailIsPath(v, path);
      PresentMember(roots, r);
    }
    if Linked(v, roots, d) {
      var trail :| IsTrail(v, trail) && trail[0] in roots && !IsZero(trail[0]) && trail[|trail| - 1] == d;
      TrailIsPath(v, trail);
      PresentMember(roots, trail[0]);
      assert trail[0] in Elems(Present(roots)) && Reaches(edges, trail[0], d);
    }
  }

  /** What `repo.Reachable` promises. A returned set holds exactly what trails of
      references from the present roots lead to, unregistered objects included as
      leaves; it is closed, and everything on the trails is intact or masked. So it
      never silently under-counts if and only if nothing on them is masked; and an
      object that is neither intact nor masked yields an error and no set. */
  ghost predicate ExactlyLinked(v: View, roots: seq<Digest>, done: nat -> bool, checks: nat,
                                r: Result<map<string, bool>>)
  {
    && Alive(done, checks)
    && match r
       case Ok(keys) => |keys| < checks && LinkedSet(v, roots, keys)
       case Err(error) => (error == Cancelled && done(checks)) || LinkedFailure(v, roots, error)
  }

  ghost predicate LinkedSet(v: View, roots: seq<Digest>, keys: map<string, bool>) {
    && (forall d :: Holds(keys, d) <==> Linked(v, roots, d))
    && (forall d :: d in roots && !IsZero(d) ==> Holds(keys, d))
    && (forall d, c :: Holds(keys, d) && v.References(d, c) ==> Holds(keys, c))
    && (forall d :: Linked(v, roots, d) ==> v.Intact(d) || v.Masked(d))
    && ((forall d :: Holds(keys, d) ==> v.Intact(d)) <==> (forall d :: Linked(v, roots, d) ==> !v.Masked(d)))
  }

  ghost predicate LinkedFailure(v: View, roots: seq<Digest>, error: Error) {
    exists d :: Linked(v, roots, d) && !v.Intact(d) && !v.Masked(d) && v.Resolve(d) == Unreadable(error)
  }

  lemma LiveMeansLinked(v: View, roots: seq<Digest>, done: nat -> bool, checks: nat, r: Result<map<string, bool>>)
    requires ExactlyLive(v.Resolver(), roots, done, checks, r)
    ensures ExactlyLinked(v, roots, done, checks, r)
  {
    match r
    case Ok(keys) =>
      KeysAreLinked(v, roots, keys);
    case Err(error) =>
      FailureIsLinked(v, roots, error);
  }

  lemma KeysAreLinked(v: View, roots: seq<Digest>, keys: map<string, bool>)
    requires forall d :: Holds(keys, d) <==> Live(v.Resolver(), roots, d)
    requires forall d :: Live(v.Resolver(), roots, d) ==> v.Resolver()(d).Found?
    ensures LinkedSet(v, roots, keys)
  {
    forall d ensures Live(v.Resolver(), roots, d) <==> Linked(v, roots, d) {
      LiveIsLinked(v, roots, d);
    }
    HeldIsClosed(v, roots, keys);
    HeldIsPassed(v, roots, keys);
  }

  /** A failing resolution on the walk's way, as the contract names it. */
  lemma FailureIsLinked(v: View, roots: seq<Digest>, error: Error)
    ensures (exists d :: Live(v.Resolver(), roots, d) && v.Resolver()(d) == Failed(error)) ==>
              LinkedFailure(v, roots, error)
  {
    if d :| Live(v.Resolver(), roots, d) && v.Resolver()(d) == Failed(error) {
      LiveIsLinked(v, roots, d);
      EdgesMeaning(v, d, []);
      assert v.Resolve(d) == Unreadable(error);
    }
  }

  lemma HeldIsClosed(v: View, roots: seq<Digest>, keys: map<string, bool>)
    requires forall d :: Holds(keys, d) <==> Linked(v, roots, d)
    ensures forall d :: d in roots && !IsZero(d) ==> Holds(keys, d)
    ensures forall d, c :: Holds(keys, d) && v.References(d, c) ==> Holds(keys, c)
  {
    forall d, c
      ensures d in roots && !IsZero(d) ==> Holds(keys, d)
      ensures Holds(keys, d) && v.References(d, c) ==> Holds(keys, c)
    {
      LinkedIsClosed(v, roots, d, c);
    }
  }

  lemma HeldIsPassed(v: View, roots: seq<Digest>, keys: map<string, bool>)
    requires forall d :: Holds(keys, d) <==> Linked(v, roots, d)
    requires forall d :: Linked(v, roots, d) ==> v.Resolver()(d).Found?
    ensures forall d :: Linked(v, roots, d) ==> v.Intact(d) || v.Masked(d)
    ensures (forall d :: Holds(keys, d) ==> v.Intact(d)) <==> (forall d :: Linked(v, roots, d) ==> !v.Masked(d))
  {
    forall d ensures v.Resolver()(d).Found? <==> v.Intact(d) || v.Masked(d) {
      EdgesMeaning(v, d, []);
    }
    assert forall d :: v.Masked(d) ==> !v.Intact(d);
  }

  /** Present roots are held, and what a held object references is held. */
  lemma LinkedIsClosed(v: View, roots: seq<Digest>, d: Digest, c: Digest)
    ensures d in roots && !IsZero(d) ==> Linked(v, roots, d)
    ensures Linked(v, roots, d) && v.References(d, c) ==> Linked(v, roots, c)
  {
    if d in roots && !IsZero(d) {
      assert IsTrail(v, [d]);
    }
    if Linked(v, roots, d) && v.References(d, c) {
      var trail :| IsTrail(v, trail) && trail[0] in roots && !IsZero(trail[0]) && trail[|trail| - 1] == d;
      assert IsTrail(v, trail + [c]);
    }
  }

  /** `repo.Reachable`. */
  method Reachable(registry: Registry, roots: seq<Digest>, done: nat -> bool)
    returns (r: Result<map<string, bool>>, checks: nat)
    ensures ExactlyLinked(registry.Snapshot(), roots, done, checks, r)
  {
    var v := registry.Snapshot();
    ViewIsFinite(v, registry.backend.objects.Keys);
    r, checks := ReachableThrough(v.Resolver(), roots, done, registry.backend.objects.Keys);
    LiveMeansLinked(v, roots, done, checks, r);
  }

  /** Three ways to be masked: the hasher's refusal, the failed read of the header, or
      the registered decoder's failure carries the error. Nothing else does. */
  lemma MaskedExactly(v: View, d: Digest)
    requires !IsZero(d) && !v.carries(NIL_DECODED)
    ensures v.Masked(d) <==>
            || (v.validate(d).Some? && v.carries(v.validate(d).value))
            || (v.validate(d).None? && v.HeaderType(d).Err? && v.carries(v.HeaderType(d).error))
            || (v.validate(d).None? && v.HeaderType(d).Ok? && v.HeaderType(d).value in v.decoders
                && var r := v.decoders[v.HeaderType(d).value](v.read, d); r.Undecodable? && v.carries(r.error))
  {
  }

  /** The failing family: a masked object is a leaf of the walk although it could
      not be read, so a root naming it yields a set that holds it and leaves out
      whatever it references. */
  lemma WrappedUnknownTypeIsALeaf(v: View, d: Digest, done: nat -> bool, checks: nat, r: Result<map<string, bool>>)
    requires v.Masked(d) && !IsZero(d)
    requires ExactlyLinked(v, [d], done, checks, r) && !done(checks)
    ensures !v.Intact(d) && r.Ok? && forall c :: Holds(r.value, c) <==> c == d
  {
    forall c ensures Linked(v, [d], c) <==> c == d {
      MaskedLinksNothing(v, d, c);
    }
  }

  lemma LeafTrail(v: View, trail: seq<Digest>)
    requires IsTrail(v, trail) && |trail| > 1
    ensures exists x :: v.References(trail[0], x)
  {
    assert v.References(trail[0], trail[0 + 1]);
  }

  lemma MaskedLinksNothing(v: View, d: Digest, c: Digest)
    requires v.Masked(d) && !IsZero(d)
    ensures Linked(v, [d], c) <==> c == d
  {
    assert forall x :: !v.References(d, x);
    LinkedIsClosed(v, [d], d, c);
    if Linked(v, [d], c) {
      var trail :| IsTrail(v, trail) && trail[0] in [d] && !IsZero(trail[0]) && trail[|trail| - 1] == c;
      if |trail| > 1 {
        LeafTrail(v, trail);
      }
    }
  }
}
