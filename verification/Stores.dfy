/** Typed stores over one backend (cas/store.go) and its integrity check
    (cas/verifier.go). The hash is any function from bytes to digests. */
module Stores {
  import opened Common
  import opened Digests
  import opened Backends
  import opened Envelopes

  type Hash = seq<byte> -> Digest

  /** The client's algorithm: the digest of bytes, the bytes it fails to hash, and
      what it says about a digest it could not have produced. */
  datatype Hasher = Hasher(digest: Hash, fault: seq<byte> -> Option<Error>, validate: Digest -> Option<Error>) {
    /** The guard every store operation applies to a key. */
    function Check(d: Digest): Option<Error> {
      if IsZero(d) then Some(InvalidDigest) else validate(d)
    }

    predicate Accepts(d: Digest) {
      Check(d).None?
    }
  }

  /** A codec for T: encoding may fail, and decoding may fail or yield nil. */
  datatype Codec<!T> = Codec(name: Name, encode: T -> Result<seq<byte>>, decode: seq<byte> -> Result<T>)

  /** What the store asks of an object: its type name, its own invariant, and
      whether it is nil. */
  datatype Model<!T> = Model(typeOf: T -> Name, sound: T -> bool, isNil: T -> bool)

  const NIL_OBJECT := Other(1)
  const UNSOUND_OBJECT := Other(2)

  /** The bytes under each key, without write times. */
  function Contents(objects: map<Digest, Blob>): map<Digest, seq<byte>> {
    map d | d in objects :: objects[d].bytes
  }

  /** Every stored byte string hashes to its key. */
  ghost predicate Hashed(hash: Hash, objects: map<Digest, Blob>) {
    forall d :: d in objects ==> hash(objects[d].bytes) == d
  }

  /** What one store operation, of any type, does to the shared backend. */
  datatype Op = Wrote(data: seq<byte>, now: int) | Deduplicated(data: seq<byte>, now: int) | Deleted(d: Digest)

  function Apply(hash: Hash, objects: map<Digest, Blob>, op: Op): map<Digest, Blob> {
    match op
    case Wrote(data, now) => objects[hash(data) := Blob(data, now)]
    case Deduplicated(data, now) =>
      if hash(data) in objects then objects else objects[hash(data) := Blob(data, now)]
    case Deleted(d) => objects - {d}
  }

  class Store<T(==)> {
    const backend: Backend
    const codec: Codec<T>
    const model: Model<T>
    const hasher: Hasher

    constructor (backend: Backend, codec: Codec<T>, model: Model<T>, hasher: Hasher)
      ensures this.backend == backend && this.codec == codec && this.model == model && this.hasher == hasher
    {
      this.backend := backend;
      this.codec := codec;
      this.model := model;
      this.hasher := hasher;
    }

    /** The stored form of an object, if it has one. */
    function Stored(obj: T): Result<seq<byte>> {
      if model.isNil(obj) then Err(NIL_OBJECT)
      else if !model.sound(obj) then Err(UNSOUND_OBJECT)
      else
        match codec.encode(obj)
        case Err(error) => Err(error)
        case Ok(payload) =>
          if AT !in model.typeOf(obj) then Err(UnknownType) else
          var data := Frame(codec.name, model.typeOf(obj), payload);
          if hasher.fault(data).Some? then Err(hasher.fault(data).value)
          else
            match hasher.Check(hasher.digest(data))
            case Some(error) => Err(error)
            case None => Ok(data)
    }

    /** Lengths Go can represent. */
    ghost predicate Sized(obj: T) {
      && GoSized(codec.name) && GoSized(model.typeOf(obj))
      && (codec.encode(obj).Ok? ==> GoSized(codec.encode(obj).value))
    }

    /** Valid, encodable, of a versioned type, hashable, and with a usable digest. */
    ghost predicate Storable(obj: T) {
      && !model.isNil(obj) && model.sound(obj) && codec.encode(obj).Ok? && AT in model.typeOf(obj)
      && var data := Frame(codec.name, model.typeOf(obj), codec.encode(obj).value);
         hasher.fault(data).None? && hasher.Accepts(hasher.digest(data))
    }

    /** What the stored form is worth: exactly the storable objects have one, and
        any reader gets the type, the codec and the payload back from it. */
    lemma StoredMeaning(obj: T)
      ensures Stored(obj).Ok? <==> Storable(obj)
      ensures Storable(obj) && Sized(obj) ==>
                DecodeEnvelope(Stored(obj).value)
                == Ok(Envelope(model.typeOf(obj), codec.name, codec.encode(obj).value))
    {
      if Storable(obj) && Sized(obj) {
        var payload := codec.encode(obj).value;
        FrameRoundTrip(codec.name, model.typeOf(obj), payload, []);
        assert Frame(codec.name, model.typeOf(obj), payload) + [] == Frame(codec.name, model.typeOf(obj), payload);
      }
    }

    /** Which step is reported when several would refuse: the first, of the nil check,
        the object's own validation, the codec, the type name, the hasher, and the
        hasher's check of the digest. */
    lemma RefusedFirst(obj: T)
      ensures model.isNil(obj) ==> Stored(obj) == Err(NIL_OBJECT)
      ensures !model.isNil(obj) && !model.sound(obj) ==> Stored(obj) == Err(UNSOUND_OBJECT)
      ensures !model.isNil(obj) && model.sound(obj) && codec.encode(obj).Err? ==>
                Stored(obj) == Err(codec.encode(obj).error)
      ensures !model.isNil(obj) && model.sound(obj) && codec.encode(obj).Ok? ==>
                var data := Frame(codec.name, model.typeOf(obj), codec.encode(obj).value);
                && (AT !in model.typeOf(obj) ==> Stored(obj) == Err(UnknownType))
                && (AT in model.typeOf(obj) && hasher.fault(data).Some? ==>
                      Stored(obj) == Err(hasher.fault(data).value))
                && (AT in model.typeOf(obj) && hasher.fault(data).None? && !hasher.Accepts(hasher.digest(data)) ==>
                      Stored(obj) == Err(hasher.Check(hasher.digest(data)).value))
    {
    }

    /** `encoded`: validation, encoding, framing, hashing and the key check. The
        bytes decode to the object's type, the store's codec and the payload, their
        digest is a usable key, and only what is not storable is refused. */
    method Encoded(obj: T) returns (r: Result<seq<byte>>)
      ensures r.Ok? <==> Storable(obj)
      ensures r.Ok? && Sized(obj) ==>
                DecodeEnvelope(r.value) == Ok(Envelope(model.typeOf(obj), codec.name, codec.encode(obj).value))
      ensures r.Ok? ==> hasher.Accepts(hasher.digest(r.value))
      ensures r == Stored(obj)
    {
      StoredMeaning(obj);
      if model.isNil(obj) {
        return Err(NIL_OBJECT);
      }
      if !model.sound(obj) {
        return Err(UNSOUND_OBJECT);
      }
      var payload := codec.encode(obj);
      if payload.Err? {
        return Err(payload.error);
      }
      r := EncodeEnvelope(codec.name, model.typeOf(obj), payload.value);
      if r.Err? {
        return r;
      }
      var refused := hasher.fault(r.value);
      if refused.None? {
        refused := hasher.Check(hasher.digest(r.value));
      }
      if refused.Some? {
        return Err(refused.value);
      }
    }

    /** What `Put` answers: the object's digest, unless the context is done, the
        object has no stored form, or the backend cannot write it. */
    function PutAnswer(obj: T, cancelled: bool): Result<Digest> {
      if cancelled then Err(Cancelled) else
        match Stored(obj)
        case Err(error) => Err(error)
        case Ok(data) =>
          match backend.WriteFault(hasher.digest(data))
          case Some(error) => Err(error)
          case None => Ok(hasher.digest(data))
    }

    /** What `PutDedup` answers: the same, but only an object found absent is
        written, and finding out may fail. */
    function DedupAnswer(obj: T, cancelled: bool): Result<Digest>
      reads backend
    {
      if cancelled then Err(Cancelled) else
        match Stored(obj)
        case Err(error) => Err(error)
        case Ok(data) =>
          match backend.Exists(hasher.digest(data))
          case Err(error) => Err(error)
          case Ok(true) => Ok(hasher.digest(data))
          case Ok(false) => PutAnswer(obj, false)
    }

    /** `Put`: a successful write stores the object's bytes under their digest. */
    method Put(obj: T, now: int, cancelled: bool) returns (r: Result<Digest>)
      requires backend.Valid()
      modifies backend
      ensures backend.Valid()
      ensures r == PutAnswer(obj, cancelled)
      ensures r.Ok? <==>
                && !cancelled && Stored(obj).Ok?
                && var d := hasher.digest(Stored(obj).value);
                   backend.fault(Writing(d)).None? && backend.addressable(d)
      ensures r.Ok? ==>
                && Stored(obj).Ok? && r.value == hasher.digest(Stored(obj).value)
                && backend.objects == Apply(hasher.digest, old(backend.objects), Wrote(Stored(obj).value, now))
                && backend.objects == old(backend.objects)[r.value := Blob(Stored(obj).value, now)]
      ensures r.Err? ==> backend.objects == old(backend.objects)
    {
      if cancelled {
        return Err(Cancelled);
      }
      var data := Encoded(obj);
      if data.Err? {
        return Err(data.error);
      }
      var d := hasher.digest(data.value);
      var failed := backend.Put(d, data.value, now);
      if failed.Some? {
        return Err(failed.value);
      }
      return Ok(d);
    }

    /** `PutDedup`: a digest already stored is left as it is, write time included. */
    method PutDedup(obj: T, now: int, cancelled: bool) returns (r: Result<Digest>, existed: bool)
      requires backend.Valid()
      modifies backend
      ensures backend.Valid()
      ensures r == old(DedupAnswer(obj, cancelled))
      ensures r.Ok? <==>
                && !cancelled && Stored(obj).Ok?
                && var d := hasher.digest(Stored(obj).value);
                   && backend.fault(Existence(d)).None? && backend.addressable(d)
                   && (d in old(backend.objects) || backend.fault(Writing(d)).None?)
      ensures r.Err? ==> !existed
      ensures r.Ok? ==>
                && Stored(obj).Ok? && r.value == hasher.digest(Stored(obj).value)
                && (existed <==> r.value in old(backend.objects))
                && backend.objects == Apply(hasher.digest, old(backend.objects), Deduplicated(Stored(obj).value, now))
                && backend.objects == if existed then old(backend.objects)
                                      else old(backend.objects)[r.value := Blob(Stored(obj).value, now)]
      ensures r.Err? ==> backend.objects == old(backend.objects)
    {
      existed := false;
      if cancelled {
        return Err(Cancelled), false;
      }
      var data := Encoded(obj);
      if data.Err? {
        return Err(data.error), false;
      }
      var d := hasher.digest(data.value);
      var stored := backend.Exists(d);
      if stored.Err? {
        return Err(stored.error), false;
      }
      if stored.value {
        return Ok(d), true;
      }
      var failed := backend.Put(d, data.value, now);
      if failed.Some? {
        return Err(failed.value), false;
      }
      return Ok(d), false;
    }

    /** `checkCodec`: a difference is reported only when both sides declare a tag. */
    predicate CodecAgrees(env: Envelope) {
      codec.name == [] || env.codec == [] || env.codec == codec.name
    }

    /** What `Get` makes of an object's bytes. */
    function Open(data: seq<byte>): Result<T> {
      match DecodeEnvelope(data)
      case Err(error) => Err(error)
      case Ok(env) =>
        if !CodecAgrees(env) then Err(CodecMismatch)
        else
          match codec.decode(env.data)
          case Err(_) => Err(Corrupt)
          case Ok(v) =>
            if model.isNil(v) then Err(Corrupt)
            else if model.typeOf(v) != env.typeName then Err(UnknownType)
            else if !model.sound(v) then Err(Corrupt)
            else Ok(v)
    }

    /** What is handed back and what is refused, for an envelope of any origin: the
        payload's object if neither tag contradicts the other and it is not nil,
        sound, and of the type the envelope names; otherwise the reason. */
    lemma OpenExactly(data: seq<byte>, env: Envelope, v: T)
      requires DecodeEnvelope(data) == Ok(env)
      ensures var agree, made := codec.name == [] || env.codec == [] || env.codec == codec.name, codec.decode(env.data);
              && (Open(data) == Ok(v) <==>
                    agree && made == Ok(v) && !model.isNil(v) && model.typeOf(v) == env.typeName && model.sound(v))
              && (Open(data) == Err(CodecMismatch) <==> !agree)
              && (Open(data) == Err(UnknownType) <==>
                    agree && made.Ok? && !model.isNil(made.value) && model.typeOf(made.value) != env.typeName)
              && (Open(data).Ok? || Open(data).error in {CodecMismatch, UnknownType, Corrupt})
    {
    }

    /** Bytes that are no envelope are reported as damage. */
    lemma DamageIsCorrupt(data: seq<byte>)
      requires DecodeEnvelope(data).Err?
      ensures Open(data) == Err(Corrupt)
    {
    }

    /** An object of the version 1 format, which names no codec, is read by a store
        with any codec; a legacy type name counts as its version 1. */
    lemma LegacyRead(typ: Name, payload: seq<byte>, v: T)
      requires typ != [] && GoSized(typ) && GoSized(payload)
      ensures Open([VERSION_1] + LengthPrefixed(typ) + LengthPrefixed(payload)) == Ok(v) <==>
              && codec.decode(payload) == Ok(v) && !model.isNil(v) && model.sound(v)
              && model.typeOf(v) == if AT in typ then typ else typ + [AT, 49]
    {
      var data := [VERSION_1] + LengthPrefixed(typ) + LengthPrefixed(payload);
      Version1Decodes(typ, payload, []);
      assert data + [] == data;
      OpenExactly(data, DecodeEnvelope(data).value, v);
    }

    /** `Get`. */
    function Get(d: Digest, cancelled: bool): Result<T>
      reads backend
    {
      if cancelled then Err(Cancelled)
      else if hasher.Check(d).Some? then Err(hasher.Check(d).value)
      else
        match backend.Get(d)
        case Err(error) => Err(error)
        case Ok(data) => Open(data)
    }

    /** What is reported when nothing can be opened: the context first, then an
        unusable key, then the backend's failure, and not found for a missing
        object. */
    lemma GetRefuses(d: Digest, cancelled: bool)
      ensures cancelled ==> Get(d, cancelled) == Err(Cancelled)
      ensures !cancelled && IsZero(d) ==> Get(d, cancelled) == Err(InvalidDigest)
      ensures !cancelled && !IsZero(d) && hasher.validate(d).Some? ==>
                Get(d, cancelled) == Err(hasher.validate(d).value)
      ensures !cancelled && hasher.Accepts(d) ==>
                && (backend.fault(Reading(d)).Some? ==> Get(d, cancelled) == Err(backend.fault(Reading(d)).value))
                && (backend.fault(Reading(d)).None? && backend.addressable(d) && d !in backend.objects ==>
                      Get(d, cancelled) == Err(NotFound))
                && (backend.fault(Reading(d)).None? && backend.addressable(d) && d in backend.objects ==>
                      Get(d, cancelled) == Open(backend.objects[d].bytes))
    {
    }

    /** `Delete`: a missing object is a no-op. */
    method Delete(d: Digest) returns (failed: Option<Error>)
      requires backend.Valid()
      modifies backend
      ensures backend.Valid()
      ensures failed == if hasher.Check(d).Some? then hasher.Check(d) else backend.RemovalFault(d)
      ensures failed.None? <==> hasher.Accepts(d) && backend.addressable(d) && backend.fault(Removal(d)).None?
      ensures backend.objects ==
              if failed.None? then Apply(hasher.digest, old(backend.objects), Deleted(d)) else old(backend.objects)
      ensures failed.None? ==> backend.objects == old(backend.objects) - {d}
    {
      failed := hasher.Check(d);
      if failed.None? {
        failed := backend.Delete(d);
      }
    }

    /** The codec gives this object back. */
    ghost predicate RoundTrips(obj: T) {
      codec.encode(obj).Ok? && codec.decode(codec.encode(obj).value) == Ok(obj)
    }

    /** What a store writes it can open again, as the same object. */
    lemma StoredOpens(obj: T)
      requires Stored(obj).Ok? && RoundTrips(obj)
      requires Sized(obj)
      ensures Open(Stored(obj).value) == Ok(obj)
    {
      StoredMeaning(obj);
    }

    /** Wherever the object's bytes are stored under their digest, it is read back. */
    lemma FetchStored(obj: T)
      requires Stored(obj).Ok? && RoundTrips(obj) && backend.Valid()
      requires Sized(obj)
      requires var d := hasher.digest(Stored(obj).value);
               d in backend.objects && backend.objects[d].bytes == Stored(obj).value
      ensures var d := hasher.digest(Stored(obj).value);
              backend.fault(Reading(d)).None? ==> Get(d, false) == Ok(obj)
    {
      StoredOpens(obj);
    }
  }

  /** What one store makes of an object another wrote: it is handed back exactly when
      the tags are equal or one is empty and the payload decodes to a sound object,
      not nil, of the type that was written; differing codec tags are reported as
      such, before the payload is looked at. */
  lemma CrossStoreRead<A, B>(a: Store<A>, b: Store<B>, obj: A, v: B)
    requires a.Stored(obj).Ok?
    requires a.Sized(obj)
    ensures var r := b.Open(a.Stored(obj).value);
            && (r == Ok(v) <==>
                  && (a.codec.name == [] || b.codec.name == [] || a.codec.name == b.codec.name)
                  && b.codec.decode(a.codec.encode(obj).value) == Ok(v)
                  && !b.model.isNil(v) && b.model.sound(v) && b.model.typeOf(v) == a.model.typeOf(obj))
            && (r == Err(CodecMismatch) <==> a.codec.name != [] && b.codec.name != [] && a.codec.name != b.codec.name)
            && (r.Ok? ==>
                  && b.model.typeOf(r.value) == a.model.typeOf(obj)
                  && b.model.sound(r.value) && !b.model.isNil(r.value))
            && (r == Err(UnknownType) ==> b.codec.decode(a.codec.encode(obj).value).Ok?)
  {
    a.StoredMeaning(obj);
    var data := a.Stored(obj).value;
    b.OpenExactly(data, DecodeEnvelope(data).value, v);
  }

  /** Without collisions an address stands for one type, codec and payload, whichever
      stores computed it: equal content has one address, any difference another. */
  lemma AddressIdentifies<A, B>(a: Store<A>, b: Store<B>, x: A, y: B)
    requires a.Stored(x).Ok? && a.Sized(x) && b.Stored(y).Ok? && b.Sized(y)
    requires a.hasher.digest == b.hasher.digest && CollisionFree(a.hasher.digest)
    ensures a.hasher.digest(a.Stored(x).value) == b.hasher.digest(b.Stored(y).value) <==>
            && a.codec.name == b.codec.name && a.model.typeOf(x) == b.model.typeOf(y)
            && a.codec.encode(x) == b.codec.encode(y)
  {
    a.StoredMeaning(x);
    b.StoredMeaning(y);
  }

  /** Storing an object and reading its digest back returns the object, whether
      `Put` wrote it or `PutDedup` found it stored by anyone; and both happen unless
      the context is done, the object is not storable, or a call made fails. */
  method StoreAndFetch<T(==)>(store: Store<T>, obj: T, now: int, dedup: bool, cancelled: bool)
    returns (d: Result<Digest>, back: Result<T>)
    requires store.backend.Valid() && Hashed(store.hasher.digest, store.backend.objects)
    requires CollisionFree(store.hasher.digest)
    requires store.RoundTrips(obj)
    requires store.Sized(obj)
    modifies store.backend
    ensures store.backend.Valid() && Hashed(store.hasher.digest, store.backend.objects)
    ensures d == old(if dedup then store.DedupAnswer(obj, cancelled) else store.PutAnswer(obj, cancelled))
    ensures d.Ok? && store.backend.fault(Reading(d.value)).None? ==> back == Ok(obj)
    ensures d.Ok? && store.backend.fault(Reading(d.value)).Some? ==>
              back == Err(store.backend.fault(Reading(d.value)).value)
    ensures d.Err? ==> back == Err(d.error)
    ensures && !cancelled && store.Storable(obj)
            && (forall call :: store.backend.fault(call) == None)
            && store.backend.addressable(store.hasher.digest(store.Stored(obj).value))
            ==> d == Ok(store.hasher.digest(store.Stored(obj).value)) && back == Ok(obj)
  {
    store.StoredMeaning(obj);
    if dedup {
      var existed;
      d, existed := store.PutDedup(obj, now, cancelled);
    } else {
      d := store.Put(obj, now, cancelled);
    }
    if d.Err? {
      return d, Err(d.error);
    }
    store.FetchStored(obj);
    back := store.Get(d.value, false);
  }

  // ---- Runs by any number of stores ------------------------------------------------

  function Run(hash: Hash, objects: map<Digest, Blob>, ops: seq<Op>): map<Digest, Blob>
    decreases |ops|
  {
    if |ops| == 0 then objects else Run(hash, Apply(hash, objects, ops[0]), ops[1..])
  }

  /** Whatever the stores do, stored bytes hash to their keys. */
  lemma {:induction false} RunKeepsHashed(hash: Hash, objects: map<Digest, Blob>, ops: seq<Op>)
    requires Hashed(hash, objects)
    ensures Hashed(hash, Run(hash, objects, ops))
    decreases |ops|
  {
    if |ops| > 0 {
      RunKeepsHashed(hash, Apply(hash, objects, ops[0]), ops[1..]);
    }
  }

  ghost predicate CollisionFree(hash: Hash) {
    forall a, b :: hash(a) == hash(b) ==> a == b
  }

  /** Without collisions a key never changes its bytes, even across deletion and
      rewriting, and whether each write checked for the object first makes no
      difference to what is stored. */
  lemma ContentsNeverChange(hash: Hash, before: seq<Op>, after: seq<Op>, d: Digest)
    requires CollisionFree(hash)
    ensures var early := Run(hash, map[], before);
            var late := Run(hash, early, after);
            d in early && d in late ==> early[d].bytes == late[d].bytes
  {
    RunKeepsHashed(hash, map[], before);
    RunKeepsHashed(hash, Run(hash, map[], before), after);
  }

  function Unchecked(op: Op): Op {
    match op
    case Deduplicated(data, now) => Wrote(data, now)
    case _ => op
  }

  function UncheckedAll(ops: seq<Op>): seq<Op> {
    if |ops| == 0 then [] else [Unchecked(ops[0])] + UncheckedAll(ops[1..])
  }

  lemma ApplyContents(hash: Hash, a: map<Digest, Blob>, b: map<Digest, Blob>, op: Op)
    requires CollisionFree(hash) && Hashed(hash, a) && Contents(a) == Contents(b)
    ensures Contents(Apply(hash, a, op)) == Contents(Apply(hash, b, Unchecked(op)))
  {
    match op
    case Wrote(data, now) =>
      ContentsPut(a, hash(data), data, now);
      ContentsPut(b, hash(data), data, now);
    case Deduplicated(data, now) =>
      ContentsPut(a, hash(data), data, now);
      ContentsPut(b, hash(data), data, now);
      if hash(data) in a {
        assert a[hash(data)].bytes == data && Contents(a)[hash(data) := data] == Contents(a);
      }
    case Deleted(d) =>
      ContentsDrop(a, d);
      ContentsDrop(b, d);
  }

  lemma ContentsPut(objects: map<Digest, Blob>, d: Digest, data: seq<byte>, now: int)
    ensures Contents(objects[d := Blob(data, now)]) == Contents(objects)[d := data]
  {
  }

  lemma ContentsDrop(objects: map<Digest, Blob>, d: Digest)
    ensures Contents(objects - {d}) == Contents(objects) - {d}
  {
  }

  lemma {:induction false} DedupIsTransparent(hash: Hash, a: map<Digest, Blob>, b: map<Digest, Blob>, ops: seq<Op>)
    requires CollisionFree(hash) && Hashed(hash, a) && Contents(a) == Contents(b)
    ensures Contents(Run(hash, a, ops)) == Contents(Run(hash, b, UncheckedAll(ops)))
    decreases |ops|
  {
    if |ops| > 0 {
      ApplyContents(hash, a, b, ops[0]);
      assert UncheckedAll(ops)[1..] == UncheckedAll(ops[1..]);
      DedupIsTransparent(hash, Apply(hash, a, ops[0]), Apply(hash, b, Unchecked(ops[0])), ops[1..]);
    }
  }

  // ---- Verification -----------------------------------------------------------------

  /** What `Verify` answers for one digest, once its context check has passed. */
  function Verdict(backend: Backend, hasher: Hasher, d: Digest): Option<Error>
    reads backend
  {
    if hasher.Check(d).Some? then hasher.Check(d)
    else
      match backend.Get(d)
      case Err(error) => Some(error)
      case Ok(data) =>
        if hasher.fault(data).Some? then hasher.fault(data)
        else if Equal(hasher.digest(data), d) then None
        else Some(DigestMismatch)
  }

  datatype Report = Report(checked: nat, bad: seq<Digest>)

  /** The key is usable, and the stored bytes hash to it. */
  ghost predicate Genuine(backend: Backend, hasher: Hasher, d: Digest)
    reads backend
  {
    && hasher.Accepts(d) && backend.Get(d).Ok?
    && hasher.fault(backend.Get(d).value).None? && hasher.digest(backend.Get(d).value) == d
  }

  /** The stored bytes of `d` hash to something else, or the hasher or the backend
      reports a mismatch itself. */
  ghost predicate Mismatched(backend: Backend, hasher: Hasher, d: Digest)
    reads backend
  {
    || hasher.Check(d) == Some(DigestMismatch)
    || (hasher.Accepts(d) &&
        match backend.Get(d)
        case Err(error) => error == DigestMismatch
        case Ok(data) =>
          || hasher.fault(data) == Some(DigestMismatch)
          || (hasher.fault(data).None? && hasher.digest(data) != d))
  }

  ghost function MismatchedSet(backend: Backend, hasher: Hasher): iset<Digest>
    reads backend
  {
    iset d | Mismatched(backend, hasher, d)
  }

  lemma VerdictMeaning(backend: Backend, hasher: Hasher, d: Digest)
    ensures Verdict(backend, hasher, d).None? <==> Genuine(backend, hasher, d)
    ensures Verdict(backend, hasher, d) == Some(DigestMismatch) <==> Mismatched(backend, hasher, d)
  {
  }

  /** `Verify`, with the answer of its own context check. */
  method Verify(backend: Backend, hasher: Hasher, d: Digest, cancelled: bool) returns (failed: Option<Error>)
    ensures failed == if cancelled then Some(Cancelled) else Verdict(backend, hasher, d)
    ensures failed.None? <==> !cancelled && Genuine(backend, hasher, d)
    ensures failed == Some(DigestMismatch) <==> !cancelled && Mismatched(backend, hasher, d)
  {
    VerdictMeaning(backend, hasher, d);
    if cancelled {
      return Some(Cancelled);
    }
    failed := hasher.Check(d);
    if failed.Some? {
      return failed;
    }
    var data := backend.Get(d);
    if data.Err? {
      return Some(data.error);
    }
    failed := hasher.fault(data.value);
    if failed.None? && !Equal(hasher.digest(data.value), d) {
      failed := Some(DigestMismatch);
    }
  }

  /** The loop over the listing, with two context checks for every digest. */
  method VerifyEach(backend: Backend, hasher: Hasher, ds: seq<Digest>, done: nat -> bool)
    returns (report: Report, failed: Option<Error>, checks: nat)
    ensures Alive(done, checks) && checks <= 2 * report.checked <= checks + 1 && report.checked <= |ds|
    ensures report.bad == Restrict(ds[..checks / 2], MismatchedSet(backend, hasher))
    ensures failed.None? ==>
              && report.checked == |ds| && checks == 2 * |ds|
              && (forall d :: d in ds ==> Mismatched(backend, hasher, d) || Genuine(backend, hasher, d))
    ensures failed.Some? ==>
              || (failed.value == Cancelled && done(checks))
              || (failed.value != DigestMismatch && report.checked > 0
                  && Verdict(backend, hasher, ds[report.checked - 1]) == failed)
  {
    report, checks := Report(0, []), 0;
    ghost var mismatched := MismatchedSet(backend, hasher);
    for i := 0 to |ds|
      invariant report.checked == i && checks == 2 * i && Alive(done, checks)
      invariant report.bad == Restrict(ds[..i], mismatched)
      invariant forall d :: d in ds[..i] ==> Mismatched(backend, hasher, d) || Genuine(backend, hasher, d)
    {
      if done(checks) {
        return report, Some(Cancelled), checks;
      }
      checks := checks + 1;
      var d := ds[i];
      assert ds[..i + 1] == ds[..i] + [d];
      RestrictSnoc(ds[..i], d, mismatched);
      report := report.(checked := report.checked + 1);
      var verdict := Verify(backend, hasher, d, done(checks));
      if !done(checks) {
        checks := checks + 1;
      }
      if verdict == Some(DigestMismatch) {
        report := report.(bad := report.bad + [d]);
      } else if verdict.Some? {
        return report, verdict, checks;
      }
    }
    assert ds[..|ds|] == ds;
    return report, None, checks;
  }

  /** `VerifyAll`: a completed run lists exactly the listed digests whose bytes do
      not match, in the order and as often as they are listed, every other one being
      genuine; an aborted run lists the mismatches met so far and names why it
      stopped. */
  method VerifyAll(backend: Backend, hasher: Hasher, done: nat -> bool)
    returns (report: Report, failed: Option<Error>, ghost listing: seq<Digest>, checks: nat)
    ensures Alive(done, checks) && checks <= 2 * report.checked <= checks + 1 && report.checked <= |listing|
    ensures report.bad == Restrict(listing[..checks / 2], MismatchedSet(backend, hasher))
    ensures failed.None? ==>
              && report.checked == |listing| && checks == 2 * |listing|
              && (forall d :: d in listing <==> backend.Listed(d))
              && (forall d :: d in report.bad <==> backend.Listed(d) && Mismatched(backend, hasher, d))
              && (forall d :: backend.Listed(d) && d !in report.bad ==> Genuine(backend, hasher, d))
    ensures forall d :: d in report.bad ==> backend.Listed(d) && Mismatched(backend, hasher, d)
    ensures failed.Some? ==>
              || (failed.value == Cancelled && done(checks))
              || (backend.fault(Listing) == failed && listing == [])
              || (failed.value != DigestMismatch && report.checked > 0
                  && Verdict(backend, hasher, listing[report.checked - 1]) == failed)
  {
    report, listing, checks := Report(0, []), [], 0;
    var digests := backend.List();
    if digests.Err? {
      return report, Some(digests.error), listing, checks;
    }
    listing := digests.value;
    report, failed, checks := VerifyEach(backend, hasher, digests.value, done);
    RestrictMembers(listing[..checks / 2], MismatchedSet(backend, hasher));
    assert failed.None? ==> listing[..checks / 2] == listing;
  }
}
