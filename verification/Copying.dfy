/** The byte-copy loops every backend shares (cas/backend/stream.go,
    cas/backend/context.go). `done(k)` is the answer of the k-th context check. */
module Copying {
  import opened Common
  import opened Streams

  const COPY_BUF_SIZE: nat := 32 * 1024
  const MAX_PREALLOC: nat := 64 * 1024 * 1024
  const SHORT_WRITE := Other(4)

  /** A writer that may take fewer bytes than it is given, and may fail. */
  class Sink {
    var written: seq<byte>
    var turn: nat
    const takes: nat -> nat
    const fault: nat -> Option<Error>

    constructor (takes: nat -> nat, fault: nat -> Option<Error>)
      ensures written == [] && turn == 0 && this.takes == takes && this.fault == fault
    {
      written, turn := [], 0;
      this.takes := takes;
      this.fault := fault;
    }

    method Write(p: seq<byte>) returns (n: nat, failed: Option<Error>)
      modifies this
      ensures n <= |p| && written == old(written) + p[..n]
      ensures n == MinNat(|p|, takes(old(turn))) && failed == fault(old(turn)) && turn == old(turn) + 1
    {
      n := MinNat(|p|, takes(turn));
      failed := fault(turn);
      written := written + p[..n];
      turn := turn + 1;
    }
  }

  /** Writes `from` to `to` were taken without a failure, `least` bytes at a time. */
  ghost predicate Willing(sink: Sink, from: nat, to: int, least: nat) {
    forall k: nat :: from <= k < to ==> sink.fault(k) == None && sink.takes(k) >= least
  }

  /** Write `k` ends a copy: it failed, or took fewer than `least` bytes. */
  ghost predicate WriteStops(sink: Sink, k: nat, least: nat, failed: Error) {
    sink.fault(k) == Some(failed) || (sink.fault(k) == None && sink.takes(k) < least && failed == SHORT_WRITE)
  }

  /** `WriteAll`: on every exit a prefix of the data has been written, on success
      all of it. Each write follows a look at the context that found it alive, and
      one that finds it done is the last. It ends early only for a context found
      done, or a last write that failed or took nothing. */
  method WriteAll(sink: Sink, data: seq<byte>, done: nat -> bool)
    returns (failed: Option<Error>, ghost n: nat, checks: nat)
    modifies sink
    ensures n <= |data| && sink.written == old(sink.written) + data[..n]
    ensures sink.turn == old(sink.turn) + checks && Alive(done, checks)
    ensures failed.None? ==> n == |data|
    ensures failed.None? ==> Willing(sink, old(sink.turn), sink.turn, 1)
    ensures failed.Some? ==>
              || (failed.value == Cancelled && done(checks) && Willing(sink, old(sink.turn), sink.turn, 1))
              || (checks > 0 && WriteStops(sink, sink.turn - 1, 1, failed.value)
                  && Willing(sink, old(sink.turn), sink.turn - 1, 1))
    ensures && (forall k: nat :: !done(k))
            && (forall k: nat :: sink.fault(k) == None && sink.takes(k) > 0)
            ==> failed.None?
  {
    var rest := data;
    checks := 0;
    n := 0;
    assert data[..0] == [] && old(sink.written) + [] == sink.written;
    while |rest| > 0
      invariant n + |rest| == |data| && rest == data[n..]
      invariant sink.written == old(sink.written) + data[..n]
      invariant sink.turn == old(sink.turn) + checks && Alive(done, checks)
      invariant Willing(sink, old(sink.turn), sink.turn, 1)
      decreases |rest|
    {
      if done(checks) {
        return Some(Cancelled), n, checks;
      }
      checks := checks + 1;
      var took, error := sink.Write(rest);
      PrefixGrows(old(sink.written), data, n, took);
      n := n + took;
      rest := rest[took..];
      if error.Some? {
        return error, n, checks;
      }
      if took == 0 {
        return Some(SHORT_WRITE), n, checks;
      }
    }
    return None, n, checks;
  }

  lemma PrefixGrows(before: seq<byte>, data: seq<byte>, n: nat, more: nat)
    requires n + more <= |data|
    ensures before + data[..n] + data[n..][..more] == before + data[..n + more]
    ensures data[n..][more..] == data[n + more..]
  {
    assert data[..n] + data[n..][..more] == data[..n + more];
    ConcatAssoc(before, data[..n], data[n..][..more]);
  }

  lemma SliceGrows(before: seq<byte>, supply: seq<byte>, from: nat, n: nat, took: nat)
    requires from + n + took <= |supply|
    ensures before + supply[from..from + n] + supply[from + n..from + n + took]
            == before + supply[from..from + n + took]
  {
    assert supply[from..from + n] + supply[from + n..from + n + took] == supply[from..from + n + took];
    ConcatAssoc(before, supply[from..from + n], supply[from + n..from + n + took]);
  }

  /** How a copy that began with the sink at `first` may be broken off: the last
      write failed or took too little, or the source broke after its last byte. Only
      a bad write loses bytes that were read. */
  ghost predicate Breaks(src: Source, sink: Sink, first: nat, lost: bool, failed: Error)
    reads src, sink
  {
    || (sink.turn > first && WriteStops(sink, sink.turn - 1, COPY_BUF_SIZE, failed))
    || (src.end == Broken(failed) && src.pos == |src.Supply()| && !lost)
  }

  /** One read, and one write of what it returned; taking less than all of it is an
      error. `more` says whether the copy goes on. */
  method Transfer(src: Source, sink: Sink) returns (took: nat, failed: Option<Error>, more: bool)
    requires src.Valid()
    modifies src, sink
    ensures src.Valid() && src.turn == old(src.turn) + 1 && old(src.pos) + took <= src.pos
    ensures sink.written == old(sink.written) + src.Supply()[old(src.pos)..old(src.pos) + took]
    ensures old(sink.turn) <= sink.turn <= old(sink.turn) + 1
    ensures failed.None? ==> old(src.pos) + took == src.pos && Willing(sink, old(sink.turn), sink.turn, 0)
    ensures more ==> failed.None? && src.Patience() < old(src.Patience())
    ensures !more && failed.None? ==> (src.end.EndOfFile? || src.limit.Some?) && src.pos == |src.Supply()|
    ensures failed.Some? ==>
              && Breaks(src, sink, old(sink.turn), old(src.pos) + took < src.pos, failed.value)
              && Willing(sink, old(sink.turn), sink.turn - 1, 0)
  {
    ghost var supply, from := src.Supply(), src.pos;
    var got, stop := src.Read(COPY_BUF_SIZE);
    took := 0;
    if |got| > 0 {
      var error;
      took, error := sink.Write(got);
      assert supply[from..src.pos][..took] == supply[from..from + took];
      if error.Some? {
        return took, error, false;
      }
      if took < |got| {
        return took, Some(SHORT_WRITE), false;
      }
    } else {
      assert sink.written == old(sink.written) + supply[from..from];
    }
    if stop.Some? {
      return took, if stop.value.EndOfFile? then None else Some(stop.value.error), false;
    }
    return took, None, true;
  }

  /** `ContextReader.WriteTo`: under every chunking, short write, failure and
      cancellation, exactly the first `n` bytes the source delivers have been
      written, where `n` is the count it reports; and on a clean return the source
      is exhausted and all of it was written. Each read follows a look at the context
      that found it alive. It returns cleanly unless the context is found done, the
      last write failed or was short, or the source broke. */
  method WriteTo(src: Source, sink: Sink, done: nat -> bool) returns (n: nat, failed: Option<Error>, checks: nat)
    requires src.Valid()
    modifies src, sink
    ensures src.Valid() && old(src.pos) + n <= src.pos
    ensures sink.written == old(sink.written) + src.Supply()[old(src.pos)..old(src.pos) + n]
    ensures failed.None? ==>
              && (src.end.EndOfFile? || src.limit.Some?)
              && old(src.pos) + n == src.pos == |src.Supply()|
              && Willing(sink, old(sink.turn), sink.turn, 0)
    ensures src.turn == old(src.turn) + checks && Alive(done, checks)
    ensures old(sink.turn) <= sink.turn <= old(sink.turn) + checks
    ensures failed.Some? ==>
              && Willing(sink, old(sink.turn), sink.turn - 1, 0)
              && (|| (failed.value == Cancelled && done(checks) && old(src.pos) + n == src.pos)
                  || (checks > 0 && Breaks(src, sink, old(sink.turn), old(src.pos) + n < src.pos, failed.value)))
    ensures && (forall k: nat :: !done(k)) && src.end.EndOfFile?
            && (forall k: nat :: sink.fault(k) == None && sink.takes(k) >= COPY_BUF_SIZE)
            ==> failed.None?
  {
    n := 0;
    checks := 0;
    ghost var supply, from, before, first := src.Supply(), src.pos, sink.written, sink.turn;
    assert before + supply[from..from] == before;
    while true
      invariant src.Valid() && src.pos == from + n <= |supply|
      invariant sink.written == before + supply[from..from + n]
      invariant src.turn == old(src.turn) + checks && Alive(done, checks)
      invariant first <= sink.turn <= first + checks && Willing(sink, first, sink.turn, 0)
      decreases src.Patience()
    {
      if done(checks) {
        return n, Some(Cancelled), checks;
      }
      checks := checks + 1;
      var took, more;
      took, failed, more := Transfer(src, sink);
      SliceGrows(before, supply, from, n, took);
      n := n + took;
      if !more {
        return n, failed, checks;
      }
    }
  }

  /** One read through a ContextReader. */
  method ReadUnlessDone(src: Source, max: nat, cancelled: bool) returns (got: seq<byte>, stop: Option<End>)
    requires src.Valid() && max > 0
    modifies src
    ensures src.Valid() && old(src.pos) <= src.pos && got == src.Supply()[old(src.pos)..src.pos] && |got| <= max
    ensures cancelled ==> got == [] && stop == Some(Broken(Cancelled))
    ensures src.turn == old(src.turn) + if cancelled then 0 else 1
    ensures !cancelled && stop.Some? ==>
              src.pos == |src.Supply()| && (stop.value == src.end || (src.limit.Some? && stop == Some(EndOfFile)))
    ensures stop.None? ==> src.Patience() < old(src.Patience())
  {
    if cancelled {
      return [], Some(Broken(Cancelled));
    }
    got, stop := src.Read(max);
  }

  /** `ReadWhole`, and `io.ReadAll` for a reader without a hint. The hint sizes the
      first buffer only; a full buffer is probed with one byte and then grown by
      `growth`, as `append` chooses. Whatever the chunking, hint and growth: the
      bytes returned are exactly those delivered, and on success that is everything
      the source holds. The context is looked at before the first read and again
      before each. */
  method ReadWhole(src: Source, declared: int, known: Option<nat>, growth: nat -> nat, done: nat -> bool)
    returns (buf: seq<byte>, failed: Option<Error>, checks: nat)
    requires src.Valid()
    modifies src
    ensures src.Valid() && old(src.pos) <= src.pos && buf == src.Supply()[old(src.pos)..src.pos]
    ensures failed.None? ==> src.pos == |src.Supply()| && (src.end.EndOfFile? || src.limit.Some?)
    ensures failed.Some? ==>
              || (failed.value == Cancelled && done(checks))
              || (src.end == Broken(failed.value) && checks > 0 && src.pos == |src.Supply()|)
    ensures Alive(done, checks) && src.turn == old(src.turn) + if checks == 0 then 0 else checks - 1
  {
    buf, checks := [], 0;
    if done(checks) {
      return buf, Some(Cancelled), checks;
    }
    var hint := declared;
    if hint <= 0 && known.Some? {
      hint := known.value;
    }
    if hint > MAX_PREALLOC {
      hint := MAX_PREALLOC;
    }
    var capacity: nat := if hint <= 0 then 0 else hint;
    checks := 1;
    while true
      invariant src.Valid() && old(src.pos) <= src.pos && buf == src.Supply()[old(src.pos)..src.pos]
      invariant |buf| <= capacity && checks > 0
      invariant Alive(done, checks) && src.turn == old(src.turn) + checks - 1
      decreases src.Patience()
    {
      var room := if |buf| < capacity then capacity - |buf| else 1;
      var got, stop := ReadUnlessDone(src, room, done(checks));
      buf := buf + got;
      if |buf| > capacity {
        capacity := |buf| + growth(checks);
      }
      if !done(checks) {
        checks := checks + 1;
      }
      if stop.Some? {
        return buf, if stop.value.EndOfFile? then None else Some(stop.value.error), checks;
      }
    }
  }
}
