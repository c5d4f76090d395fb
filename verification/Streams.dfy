/** Byte sources and sinks under every chunking (Go's io.Reader and io.Writer). */
module Streams {
  import opened Common

  /** How a source reports that it has no more bytes. */
  datatype End = EndOfFile | Broken(error: Error)

  function MinNat(a: nat, b: nat): nat {
    if a < b then a else b
  }

  /** A reader whose chunking is arbitrary: read k returns at most `chunks[k]`
      bytes (possibly none), later reads as many as fit. A limit models
      io.LimitReader. */
  class Source {
    const data: seq<byte>
    const end: End
    /** Whether the end is reported along with the last bytes or after them. */
    const eager: bool
    const chunks: seq<nat>
    const limit: Option<nat>
    var pos: nat
    var turn: nat

    constructor (data: seq<byte>, end: End, eager: bool, chunks: seq<nat>, limit: Option<nat>)
      ensures this.data == data && this.end == end && this.eager == eager
      ensures this.chunks == chunks && this.limit == limit
      ensures pos == 0 && turn == 0
    {
      this.data := data;
      this.end := end;
      this.eager := eager;
      this.chunks := chunks;
      this.limit := limit;
      pos := 0;
      turn := 0;
    }

    /** Every byte a reader can get out of the source. */
    function Supply(): seq<byte> {
      match limit
      case None => data
      case Some(n) => data[..MinNat(n, |data|)]
    }

    ghost predicate Valid()
      reads this
    {
      pos <= |Supply()|
    }

    /** Reads left before the source must deliver or end. */
    ghost function Patience(): nat
      reads this
      requires Valid()
    {
      (if turn < |chunks| then |chunks| - turn else 0) + |Supply()| - pos
    }

    method Read(max: nat) returns (got: seq<byte>, stop: Option<End>)
      requires Valid() && max > 0
      modifies this
      ensures Valid() && old(pos) <= pos
      ensures got == Supply()[old(pos)..pos] && |got| <= max && turn == old(turn) + 1
      ensures stop.Some? ==> pos == |Supply()| && (stop.value == end || (limit.Some? && stop == Some(EndOfFile)))
      ensures stop.None? ==> Patience() < old(Patience())
    {
      var room := if turn < |chunks| then MinNat(max, chunks[turn]) else max;
      turn := turn + 1;
      if limit.Some? && pos == limit.value {
        return [], Some(EndOfFile);
      }
      var n := MinNat(room, |Supply()| - pos);
      got := Supply()[pos..pos + n];
      pos := pos + n;
      stop := if pos == |data| && (eager || (n == 0 && room > 0)) then Some(end) else None;
    }

    /** `io.ReadFull`: enough bytes win over an error that comes with them. */
    method ReadFull(want: nat) returns (got: seq<byte>, ok: bool)
      requires Valid()
      modifies this
      ensures Valid()
      ensures ok <==> old(pos) + want <= |Supply()|
      ensures ok ==> pos == old(pos) + want && got == Supply()[old(pos)..pos]
      ensures !ok ==> pos == |Supply()|
    {
      got := [];
      while |got| < want
        invariant Valid() && |got| <= want && pos == old(pos) + |got|
        invariant got == Supply()[old(pos)..pos]
        decreases Patience()
      {
        var more, stop := Read(want - |got|);
        got := got + more;
        if stop.Some? {
          return got, |got| == want;
        }
      }
      return got, true;
    }
  }
}
