/** Byte storage behind the minimal Backend interface (cas/backend.go): a finite
    map from digest to bytes and write time. */
module Backends {
  import opened Common
  import opened Digests

  datatype Blob = Blob(bytes: seq<byte>, written: int)

  /** One call a backend may fail. */
  datatype Call =
    | Listing
    | Existence(of: Digest)
    | Age(of: Digest)
    | Removal(of: Digest)
    | Reading(of: Digest)
    | Writing(of: Digest)

  /** What reading each digest returns at one moment. */
  type ObjectReader = Digest -> Result<seq<byte>>

  class Backend {
    var objects: map<Digest, Blob>
    /** Further digest-named entries `List` reports: stray or phantom names, some
        of which may repeat a stored digest. */
    const strays: seq<Digest>
    /** The keys this backend's layout can address. */
    const addressable: Digest -> bool
    /** Whether the optional Statter interface is implemented. */
    const statter: bool
    const fault: Call -> Option<Error>

    ghost predicate Valid()
      reads this
    {
      forall d :: d in objects ==> addressable(d) && !IsZero(d)
    }

    constructor (strays: seq<Digest>, addressable: Digest -> bool, statter: bool, fault: Call -> Option<Error>)
      ensures Valid() && objects == map[]
      ensures this.strays == strays && this.addressable == addressable
      ensures this.statter == statter && this.fault == fault
    {
      objects := map[];
      this.strays := strays;
      this.addressable := addressable;
      this.statter := statter;
      this.fault := fault;
    }

    ghost predicate Listed(d: Digest)
      reads this
    {
      d in objects || d in strays
    }

    /** Every listed digest, in an order the backend chooses. */
    method List() returns (r: Result<seq<Digest>>)
      ensures fault(Listing).Some? ==> r == Err(fault(Listing).value)
      ensures fault(Listing).None? ==> r.Ok? && forall d :: d in r.value <==> Listed(d)
    {
      if fault(Listing).Some? {
        return Err(fault(Listing).value);
      }
      var ds := strays;
      var todo := objects.Keys;
      while todo != {}
        invariant todo <= objects.Keys
        invariant forall d :: d in ds <==> d in strays || d in objects.Keys - todo
        decreases todo
      {
        var d :| d in todo;
        ds := ds + [d];
        todo := todo - {d};
      }
      return Ok(ds);
    }

    function Exists(d: Digest): Result<bool>
      reads this
    {
      match fault(Existence(d))
      case Some(error) => Err(error)
      case None => if addressable(d) then Ok(d in objects) else Err(InvalidDigest)
    }

    function ModTime(d: Digest): Result<int>
      reads this
    {
      match fault(Age(d))
      case Some(error) => Err(error)
      case None =>
        if !addressable(d) then Err(InvalidDigest)
        else if d in objects then Ok(objects[d].written)
        else Err(NotFound)
    }

    function Get(d: Digest): Result<seq<byte>>
      reads this
    {
      match fault(Reading(d))
      case Some(error) => Err(error)
      case None =>
        if !addressable(d) then Err(InvalidDigest)
        else if d in objects then Ok(objects[d].bytes)
        else Err(NotFound)
    }

    /** `Get` for every digest, at this moment. */
    function Reader(): (read: ObjectReader)
      reads this
      ensures forall d :: read(d) == Get(d)
    {
      var stored := objects;
      d => match fault(Reading(d))
           case Some(error) => Err(error)
           case None =>
             if !addressable(d) then Err(InvalidDigest)
             else if d in stored then Ok(stored[d].bytes)
             else Err(NotFound)
    }

    /** Why a removal or a write under this key fails, if it does. */
    function RemovalFault(d: Digest): Option<Error> {
      if fault(Removal(d)).Some? then fault(Removal(d))
      else if addressable(d) then None
      else Some(InvalidDigest)
    }

    function WriteFault(d: Digest): Option<Error> {
      if fault(Writing(d)).Some? then fault(Writing(d))
      else if addressable(d) && !IsZero(d) then None
      else Some(InvalidDigest)
    }

    /** Removing a missing object is a no-op; a failed removal removes nothing. */
    method Delete(d: Digest) returns (failed: Option<Error>)
      requires Valid()
      modifies this
      ensures Valid()
      ensures failed == RemovalFault(d)
      ensures objects == if failed.None? then old(objects) - {d} else old(objects)
    {
      if fault(Removal(d)).Some? {
        return Some(fault(Removal(d)).value);
      }
      if !addressable(d) {
        return Some(InvalidDigest);
      }
      objects := objects - {d};
      return None;
    }

    /** Storing bytes under a key: the write time is the time of the call. */
    method Put(d: Digest, bytes: seq<byte>, now: int) returns (failed: Option<Error>)
      requires Valid()
      modifies this
      ensures Valid()
      ensures failed == WriteFault(d)
      ensures objects == if failed.None? then old(objects)[d := Blob(bytes, now)] else old(objects)
    {
      if fault(Writing(d)).Some? {
        return Some(fault(Writing(d)).value);
      }
      if !addressable(d) || IsZero(d) {
        return Some(InvalidDigest);
      }
      objects := objects[d := Blob(bytes, now)];
      return None;
    }
  }
}
