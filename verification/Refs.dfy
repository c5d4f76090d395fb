/** Named pointers with a reflog each (cas/refs/refs.go): one value file and one
    append-only log file per name, modelled as two maps of file contents. */
module Refs {
  import opened Common
  import opened Digests
  import opened Decimals
  import opened Texts
  import opened RefNames
  import opened Reflogs

  datatype Ref = Ref(name: string, digest: Digest)

  /** The digest the newest entry left the ref at; absent if none did. */
  function Newest(entries: seq<Entry>): Digest {
    if |entries| == 0 then [] else entries[|entries| - 1].digest
  }

  /** Each entry replaced what the one before it set, the first one nothing. */
  ghost predicate Chained(entries: seq<Entry>) {
    forall i :: 0 <= i < |entries| ==> entries[i].prior == Newest(entries[..i])
  }

  lemma ChainedSnoc(entries: seq<Entry>, e: Entry)
    requires Chained(entries) && e.prior == Newest(entries)
    ensures Chained(entries + [e])
  {
    var more := entries + [e];
    forall i | 0 <= i < |more|
      ensures more[i].prior == Newest(more[..i])
    {
      assert more[..i] == entries[..i];
      assert entries[..|entries|] == entries;
    }
  }

  lemma {:induction false} LogTextSnoc(entries: seq<Entry>, e: Entry)
    ensures LogText(entries + [e]) == LogText(entries) + Line(e)
  {
    if |entries| == 0 {
      assert LogText([e]) == Line(e) + LogText([e][1..]);
    } else {
      LogTextSnoc(entries[1..], e);
      assert (entries + [e])[0] == entries[0] && (entries + [e])[1..] == entries[1..] + [e];
      ConcatAssoc(Line(entries[0]), LogText(entries[1..]), Line(e));
    }
  }

  /** A value file holds the digest's text and a newline, and reads back. */
  lemma ValueReadsBack(d: Digest)
    requires !IsZero(d)
    ensures ParseDigest(TrimSpace(Text(d) + "\n")) == Ok(d)
  {
    var s := Text(d) + "\n";
    assert TrimLeft(s) == s;
    assert s[..|s| - 1] == Text(d);
    assert TrimRight(s) == Text(d);
    ParseDigestExact(Text(d), d);
  }

  function Lookup(files: map<string, string>, name: string): Option<string> {
    if name in files then Some(files[name]) else None
  }

  function EntriesOf(log: Option<string>): seq<Entry> {
    if log.Some? then ParseLog(log.value) else []
  }

  function ValueFile(d: Digest): Option<string> {
    if IsZero(d) then None else Some(Text(d) + "\n")
  }

  function LogFile(entries: seq<Entry>): Option<string> {
    if |entries| == 0 then None else Some(LogText(entries))
  }

  /** A history a crash-free run can produce: chained, with representable times. */
  ghost predicate Proper(entries: seq<Entry>) {
    Timed(entries) && Chained(entries)
  }

  ghost function HistoryOf(history: map<string, seq<Entry>>, name: string): seq<Entry> {
    if name in history then history[name] else []
  }

  ghost predicate Tell(log: Option<string>, value: Option<string>, entries: seq<Entry>) {
    Proper(entries) && log == LogFile(entries) && value == ValueFile(Newest(entries))
  }

  /** The files say exactly what the history says: each log is what its entries
      print as, and each value file holds the newest entry's digest, or is missing
      if that is absent. */
  ghost predicate FilesTell(logs: map<string, string>, values: map<string, string>, history: map<string, seq<Entry>>) {
    forall name :: Tell(Lookup(logs, name), Lookup(values, name), HistoryOf(history, name))
  }

  /** The digests histories leave at names a listing reports. */
  ghost function RootsOf(history: map<string, seq<Entry>>): iset<Digest> {
    iset d, name | !IsTempFile(LastSegment(name)) && d == Newest(HistoryOf(history, name)) && !IsZero(d) :: d
  }

  /** A change to a name no listing reports adds no root and takes none away. */
  lemma HiddenChange(history: map<string, seq<Entry>>, hidden: string, entries: seq<Entry>)
    requires IsTempFile(LastSegment(hidden))
    ensures RootsOf(history[hidden := entries]) == RootsOf(history)
  {
    var changed := history[hidden := entries];
    assert forall name :: name != hidden ==> HistoryOf(changed, name) == HistoryOf(history, name);
  }

  function LogsAfter(logs: map<string, string>, name: string, e: Entry): map<string, string> {
    logs[name := (if name in logs then logs[name] else "") + Line(e)]
  }

  function ValuesAfter(values: map<string, string>, name: string, d: Digest): map<string, string> {
    if IsZero(d) then values - {name} else values[name := Text(d) + "\n"]
  }

  lemma TellChange(log: Option<string>, value: Option<string>, entries: seq<Entry>, e: Entry)
    requires Tell(log, value, entries) && e.prior == Newest(entries) && InInt64(e.time)
    ensures Tell(Some((if log.Some? then log.value else "") + Line(e)), ValueFile(e.digest), entries + [e])
  {
    LogTextSnoc(entries, e);
    ChainedSnoc(entries, e);
    assert Newest(entries + [e]) == e.digest;
  }

  /** Logging a change from the current value, with the value file the change
      calls for, extends that name's history and no other. */
  lemma ChangeIsTold(logs: map<string, string>, values: map<string, string>, history: map<string, seq<Entry>>,
                     name: string, e: Entry)
    requires FilesTell(logs, values, history)
    requires e.prior == Newest(HistoryOf(history, name)) && InInt64(e.time)
    ensures FilesTell(LogsAfter(logs, name, e), ValuesAfter(values, name, e.digest),
                      history[name := HistoryOf(history, name) + [e]])
  {
    var entries := HistoryOf(history, name);
    TellChange(Lookup(logs, name), Lookup(values, name), entries, e);
    var logs', values' := LogsAfter(logs, name, e), ValuesAfter(values, name, e.digest);
    var history' := history[name := entries + [e]];
    forall other ensures Tell(Lookup(logs', other), Lookup(values', other), HistoryOf(history', other)) {
      if other != name {
        assert Tell(Lookup(logs, other), Lookup(values, other), HistoryOf(history, other));
      }
    }
  }

  /** The log file parses back to the entries written. */
  lemma LogParsesBack(entries: seq<Entry>)
    requires Proper(entries)
    ensures EntriesOf(LogFile(entries)) == entries
  {
    ParseComplete(entries);
  }

  method ReverseInPlace(a: array<Entry>)
    modifies a
    ensures a[..] == Reverse(old(a[..]))
  {
    ghost var before := a[..];
    var i, j := 0, a.Length - 1;
    while i < j
      invariant 0 <= i <= j + 1 && i + j == a.Length - 1
      invariant forall k :: 0 <= k < i || j < k < a.Length ==> a[k] == before[a.Length - 1 - k]
      invariant forall k :: i <= k <= j ==> a[k] == before[k]
    {
      a[i], a[j] := a[j], a[i];
      i, j := i + 1, j - 1;
    }
    ReversedIs(a[..], before);
  }

  function Limited(entries: seq<Entry>, limit: int): seq<Entry> {
    if 0 < limit < |entries| then entries[..limit] else entries
  }

  /** The newest entries, newest first, and a positive limit on their number. */
  ghost predicate NewestShown(shown: seq<Entry>, entries: seq<Entry>, limit: int) {
    && |shown| == (if limit > 0 && limit < |entries| then limit else |entries|)
    && forall k :: 0 <= k < |shown| ==> shown[k] == entries[|entries| - 1 - k]
  }

  lemma NewestFirst(entries: seq<Entry>, limit: int)
    ensures NewestShown(Limited(Reverse(entries), limit), entries, limit)
  {
    var mirrored := seq(|entries|, i requires 0 <= i < |entries| => entries[|entries| - 1 - i]);
    ReversedIs(mirrored, entries);
  }

  class RefStore {
    const lower: Casing
    var values: map<string, string>
    var logs: map<string, string>
    /** The changes made so far, oldest first. */
    ghost var history: map<string, seq<Entry>>

    ghost function History(name: string): seq<Entry>
      reads this
    {
      HistoryOf(history, name)
    }

    ghost predicate Valid()
      reads this
    {
      FilesTell(logs, values, history)
    }

    constructor (lower: Casing)
      ensures Valid() && forall name :: History(name) == []
    {
      this.lower := lower;
      values, logs, history := map[], map[], map[];
    }

    function ReadValue(name: string): Result<Digest>
      reads this
    {
      if name in values then ParseDigest(TrimSpace(values[name])) else Err(NotFound)
    }

    lemma ReadValueIsNewest(name: string)
      requires Valid()
      ensures ReadValue(name) ==
              if IsZero(Newest(History(name))) then Err(NotFound) else Ok(Newest(History(name)))
      ensures name in values <==> !IsZero(Newest(History(name)))
    {
      assert Tell(Lookup(logs, name), Lookup(values, name), History(name));
      if name in values {
        ValueReadsBack(Newest(History(name)));
      }
    }

    /** `Get`: the newest entry's digest, or not found when it is absent. */
    method Get(name: string, cancelled: bool) returns (r: Result<Digest>)
      requires Valid()
      ensures r == if cancelled then Err(Cancelled)
                   else if !ValidName(lower, name) then Err(InvalidName)
                   else if IsZero(Newest(History(name))) then Err(NotFound)
                   else Ok(Newest(History(name)))
    {
      if cancelled {
        return Err(Cancelled);
      }
      if !ValidName(lower, name) {
        return Err(InvalidName);
      }
      ReadValueIsNewest(name);
      return ReadValue(name);
    }

    /** `appendLog`. */
    method AppendLog(name: string, prior: Digest, next: Digest, now: int)
      modifies this`logs
      ensures logs == LogsAfter(old(logs), name, Entry(next, prior, now))
    {
      var line := Format(now) + "\t" + Text(next) + "\t" + Text(prior) + "\n";
      logs := logs[name := (if name in logs then logs[name] else "") + line];
    }

    /** What `Set` does under its lock. */
    method Replace(name: string, d: Digest, now: int)
      requires Valid() && InInt64(now) && !IsZero(d)
      modifies this
      ensures Valid()
      ensures history == old(history)[name := old(History(name)) + [Entry(d, Newest(old(History(name))), now)]]
    {
      ReadValueIsNewest(name);
      var read := ReadValue(name);
      var prior := if read.Ok? then read.value else [];
      ChangeIsTold(logs, values, history, name, Entry(d, prior, now));
      values := values[name := Text(d) + "\n"];
      AppendLog(name, prior, d, now);
      history := history[name := History(name) + [Entry(d, prior, now)]];
    }

    /** `Set`: the value is replaced, then the change is logged. */
    method Set(name: string, d: Digest, now: int, cancelled: bool) returns (failed: Option<Error>)
      requires Valid() && InInt64(now)
      modifies this
      ensures Valid()
      ensures failed == if cancelled then Some(Cancelled)
                        else if !ValidName(lower, name) then Some(InvalidName)
                        else if IsZero(d) then Some(InvalidDigest)
                        else None
      ensures failed.Some? ==> values == old(values) && logs == old(logs)
      ensures history == if failed.Some? then old(history)
                         else old(history)[name := old(History(name)) + [Entry(d, Newest(old(History(name))), now)]]
    {
      if cancelled {
        return Some(Cancelled);
      }
      if !ValidName(lower, name) {
        return Some(InvalidName);
      }
      if IsZero(d) {
        return Some(InvalidDigest);
      }
      Replace(name, d, now);
      return None;
    }

    /** `Delete`: the tombstone is logged, then the value removed; deleting a name
        that is not set changes nothing. */
    method Delete(name: string, now: int, cancelled: bool) returns (failed: Option<Error>)
      requires Valid() && InInt64(now)
      modifies this
      ensures Valid()
      ensures failed == if cancelled then Some(Cancelled)
                        else if !ValidName(lower, name) then Some(InvalidName)
                        else None
      ensures failed.Some? ==> values == old(values) && logs == old(logs)
      ensures var was := Newest(old(History(name)));
              history == if failed.Some? || IsZero(was) then old(history)
                         else old(history)[name := old(History(name)) + [Entry([], was, now)]]
    {
      if cancelled {
        return Some(Cancelled);
      }
      if !ValidName(lower, name) {
        return Some(InvalidName);
      }
      ReadValueIsNewest(name);
      var read := ReadValue(name);
      if read.Err? {
        return None;
      }
      ChangeIsTold(logs, values, history, name, Entry([], read.value, now));
      AppendLog(name, read.value, [], now);
      values := values - {name};
      history := history[name := History(name) + [Entry([], read.value, now)]];
      return None;
    }

    /** The log file, parsed; a missing one is an empty log. */
    method ReadLog(name: string) returns (entries: seq<Entry>)
      requires Valid()
      ensures entries == History(name)
    {
      assert Tell(Lookup(logs, name), Lookup(values, name), History(name));
      LogParsesBack(History(name));
      if name !in logs {
        return [];
      }
      entries := ParseAll(logs[name]);
    }

    /** `Log`: the history newest first, at most `limit` entries if it is positive. */
    method Log(name: string, limit: int, cancelled: bool) returns (r: Result<seq<Entry>>)
      requires Valid()
      ensures r == if cancelled then Err(Cancelled)
                   else if !ValidName(lower, name) then Err(InvalidName)
                   else Ok(Limited(Reverse(History(name)), limit))
      ensures r.Ok? ==> NewestShown(r.value, History(name), limit)
    {
      if cancelled {
        return Err(Cancelled);
      }
      if !ValidName(lower, name) {
        return Err(InvalidName);
      }
      var entries := ReadLog(name);
      var a := new Entry[|entries|](i requires 0 <= i < |entries| => entries[i]);
      assert a[..] == entries;
      ReverseInPlace(a);
      NewestFirst(History(name), limit);
      return Ok(Limited(a[..], limit));
    }

    /** `Previous`: what the newest entry replaced. */
    method Previous(name: string, cancelled: bool) returns (r: Result<Digest>)
      requires Valid()
      ensures var entries := History(name);
              r == if cancelled then Err(Cancelled)
                   else if !ValidName(lower, name) then Err(InvalidName)
                   else if |entries| < 2 || IsZero(entries[|entries| - 2].digest) then Err(NotFound)
                   else Ok(entries[|entries| - 2].digest)
    {
      assert Tell(Lookup(logs, name), Lookup(values, name), History(name));
      ghost var entries := History(name);
      var top := Log(name, 1, cancelled);
      if top.Err? {
        return Err(top.error);
      }
      if |entries| > 0 {
        ReverseFirst(entries);
        assert entries[|entries| - 1].prior == Newest(entries[..|entries| - 1]);
      }
      if |top.value| == 0 || IsZero(top.value[0].prior) {
        return Err(NotFound);
      }
      return Ok(top.value[0].prior);
    }

    /** The refs a listing reports: those whose file name is not temp-shaped. */
    ghost predicate Listed(name: string)
      reads this
    {
      name in values && !IsTempFile(LastSegment(name))
    }

    /** `d` is the digest of a listed ref. */
    ghost predicate Rooted(d: Digest)
      reads this
    {
      exists name :: Listed(name) && d == Newest(History(name))
    }

    /** The digests of the listed refs: the roots of a collection. */
    ghost function RootSet(): iset<Digest>
      reads this
    {
      iset d | Rooted(d)
    }

    lemma RootsByHistory()
      requires Valid()
      ensures RootSet() == RootsOf(history)
    {
      forall name ensures name in values <==> !IsZero(Newest(History(name))) {
        ReadValueIsNewest(name);
      }
    }

    method List() returns (refs: seq<Ref>)
      requires Valid()
      ensures forall name, d :: Ref(name, d) in refs <==> Listed(name) && d == Newest(History(name))
    {
      refs := [];
      var todo := values.Keys;
      while todo != {}
        invariant todo <= values.Keys
        invariant forall name, d :: Ref(name, d) in refs <==>
                    name !in todo && Listed(name) && d == Newest(History(name))
        decreases todo
      {
        var name :| name in todo;
        todo := todo - {name};
        if !IsTempFile(LastSegment(name)) {
          ReadValueIsNewest(name);
          refs := refs + [Ref(name, ReadValue(name).value)];
        }
      }
    }

    /** `Roots`: the digests of exactly the listed refs. A ref whose last name
        segment is temp-shaped, which `Set` accepts, contributes no root. */
    method Roots(cancelled: bool) returns (r: Result<seq<Digest>>)
      requires Valid()
      ensures cancelled ==> r == Err(Cancelled)
      ensures !cancelled ==>
                r.Ok? && forall d :: d in r.value <==> Rooted(d)
    {
      if cancelled {
        return Err(Cancelled);
      }
      var refs := List();
      var roots: seq<Digest> := [];
      for i := 0 to |refs|
        invariant forall d :: d in roots <==> exists name :: Ref(name, d) in refs[..i]
      {
        assert refs[..i + 1] == refs[..i] + [refs[i]];
        assert refs[i] == Ref(refs[i].name, refs[i].digest) && refs[i] in refs;
        ReadValueIsNewest(refs[i].name);
        if !IsZero(refs[i].digest) {
          roots := roots + [refs[i].digest];
        }
      }
      assert refs[..|refs|] == refs;
      forall d ensures d in roots <==> Rooted(d) {
        assert forall name :: Ref(name, d) in refs <==> Listed(name) && d == Newest(History(name));
      }
      return Ok(roots);
    }
  }
}
