/** The reflog text format (cas/refs/refs.go): one line per change,
    "<unix nanoseconds>\t<new digest>\t<old digest>\n", printed by `appendLog` and
    read leniently by `parseLog`. */
module Reflogs {
  import opened Common
  import opened Digests
  import opened Decimals
  import opened Texts

  /** A change: the digest set (absent for a deletion), what it replaced, when. */
  datatype Entry = Entry(digest: Digest, prior: Digest, time: int)

  // ---- Printing ------------------------------------------------------------------

  function Stamp(e: Entry): string {
    Format(e.time) + "\t"
  }

  function Head(e: Entry): string {
    Stamp(e) + Text(e.digest) + "\t"
  }

  function Body(e: Entry): string {
    Head(e) + Text(e.prior)
  }

  function Line(e: Entry): string {
    Body(e) + "\n"
  }

  function LogText(entries: seq<Entry>): string {
    if |entries| == 0 then "" else Line(entries[0]) + LogText(entries[1..])
  }

  /** One line, character by character: a change at -12 from the digest 0x0f to 0xa5. */
  lemma LineText()
    ensures Line(Entry([165], [15], -12)) == "-12\ta5\t0f\n"
  {
    assert Digits(12) == "12" && Format(-12) == "-12";
    assert Text([165]) == "a5" && Text([15]) == "0f";
  }

  // ---- Parsing -------------------------------------------------------------------

  /** `strings.Split(s, "\n")`. */
  function Lines(s: string): seq<string>
    decreases |s|
  {
    var i := Index(s, '\n');
    if i == |s| then [s] else [s[..i]] + Lines(s[i + 1..])
  }

  /** One line: exactly three tab-separated fields with a valid timestamp and
      digests. The third field is whatever follows the second tab. */
  function ParseLine(line: string): Option<Entry> {
    var i := Index(line, '\t');
    if i == |line| then None else
    var rest := line[i + 1..];
    var j := Index(rest, '\t');
    if j == |rest| then None else
    match ParseInt(line[..i])
    case None => None
    case Some(time) =>
      match UnmarshalText(rest[..j])
      case Err(_) => None
      case Ok(digest) =>
        match UnmarshalText(rest[j + 1..])
        case Err(_) => None
        case Ok(prior) => Some(Entry(digest, prior, time))
  }

  function OptionSeq<T>(o: Option<T>): seq<T> {
    if o.Some? then [o.value] else []
  }

  function ParseLines(lines: seq<string>): seq<Entry> {
    if |lines| == 0 then [] else OptionSeq(ParseLine(lines[0])) + ParseLines(lines[1..])
  }

  /** `parseLog`. The empty line fails like any line without two tabs. */
  function ParseLog(data: string): seq<Entry> {
    ParseLines(Lines(data))
  }

  method ParseAll(data: string) returns (entries: seq<Entry>)
    ensures entries == ParseLog(data)
  {
    var lines := Lines(data);
    entries := [];
    for i := 0 to |lines|
      invariant entries + ParseLines(lines[i..]) == ParseLines(lines)
    {
      ParseLinesStep(lines, i);
      ConcatAssoc(entries, OptionSeq(ParseLine(lines[i])), ParseLines(lines[i + 1..]));
      if lines[i] == "" {
        continue;
      }
      var e := ParseLine(lines[i]);
      if e.Some? {
        entries := entries + [e.value];
      }
    }
    assert lines[|lines|..] == [];
  }

  lemma ParseLinesStep(lines: seq<string>, i: nat)
    requires i < |lines|
    ensures ParseLines(lines[i..]) == OptionSeq(ParseLine(lines[i])) + ParseLines(lines[i + 1..])
  {
    assert lines[i..][1..] == lines[i + 1..];
  }

  /** A finished line parses on its own. */
  lemma ParseLogLine(line: string, rest: string)
    requires Free(line, '\n')
    ensures ParseLog(line + "\n" + rest) == OptionSeq(ParseLine(line)) + ParseLog(rest)
  {
    var s := line + "\n" + rest;
    IndexAt(line, '\n', rest);
    assert s[..|line|] == line && s[|line| + 1..] == rest;
    assert Lines(s) == [line] + Lines(rest);
    assert ([line] + Lines(rest))[1..] == Lines(rest);
  }

  /** An unfinished last line. */
  lemma ParseLogTail(line: string)
    requires Free(line, '\n')
    ensures ParseLog(line) == OptionSeq(ParseLine(line))
  {
    assert Index(line, '\n') == |line|;
    assert Lines(line) == [line];
    assert ParseLines([line]) == OptionSeq(ParseLine(line)) + ParseLines([line][1..]);
  }

  lemma ParseLineFields(stamp: string, digest: string, prior: string)
    requires Free(stamp, '\t') && Free(digest, '\t')
    ensures ParseLine(stamp + "\t" + digest + "\t" + prior) ==
            match ParseInt(stamp)
            case None => None
            case Some(time) =>
              match UnmarshalText(digest)
              case Err(_) => None
              case Ok(d) =>
                match UnmarshalText(prior)
                case Err(_) => None
                case Ok(p) => Some(Entry(d, p, time))
  {
    var line, rest := stamp + "\t" + digest + "\t" + prior, digest + "\t" + prior;
    assert line == stamp + "\t" + rest;
    IndexAt(stamp, '\t', rest);
    assert line[..|stamp|] == stamp && line[|stamp| + 1..] == rest;
    IndexAt(digest, '\t', prior);
    assert rest[..|digest|] == digest && rest[|digest| + 1..] == prior;
  }

  lemma TextFree(d: Digest)
    ensures Free(Text(d), '\t') && Free(Text(d), '\n')
  {
  }

  lemma StampFree(t: int)
    ensures Free(Format(t), '\t') && Free(Format(t), '\n')
  {
    FormatChars(t);
  }

  lemma BodyFree(e: Entry)
    ensures Free(Body(e), '\n')
  {
    StampFree(e.time);
    TextFree(e.digest);
    TextFree(e.prior);
  }

  /** A printed line parses back to its entry. */
  lemma ParseBody(e: Entry)
    requires InInt64(e.time)
    ensures ParseLine(Body(e)) == Some(e)
  {
    StampFree(e.time);
    TextFree(e.digest);
    ParseLineFields(Format(e.time), Text(e.digest), Text(e.prior));
    FormatRoundTrip(e.time);
    ParseDigestExact(Text(e.digest), e.digest);
    ParseDigestExact(Text(e.prior), e.prior);
  }

  /** Which lines are read, and as what: an integer, a tab, the text of a digest or
      nothing, a tab, and again the text of a digest or nothing. */
  lemma ParseLineExactly(line: string, e: Entry)
    ensures ParseLine(line) == Some(e) <==>
            exists stamp :: ParseInt(stamp) == Some(e.time) && LineOf(stamp, e) == line && Free(stamp, '\t')
  {
    if ParseLine(line) == Some(e) {
      var stamp := SplitLine(line, e);
    }
    if stamp :| ParseInt(stamp) == Some(e.time) && LineOf(stamp, e) == line && Free(stamp, '\t') {
      TextFree(e.digest);
      ParseLineFields(stamp, Text(e.digest), Text(e.prior));
      ParseDigestExact(Text(e.digest), e.digest);
      ParseDigestExact(Text(e.prior), e.prior);
    }
  }

  function LineOf(stamp: string, e: Entry): string {
    stamp + "\t" + Text(e.digest) + "\t" + Text(e.prior)
  }

  lemma SplitLine(line: string, e: Entry) returns (stamp: string)
    requires ParseLine(line) == Some(e)
    ensures ParseInt(stamp) == Some(e.time) && LineOf(stamp, e) == line && Free(stamp, '\t')
  {
    var i := Index(line, '\t');
    var rest := line[i + 1..];
    var j := Index(rest, '\t');
    stamp := line[..i];
    IndexFirst(line, '\t');
    CutAt(line, i);
    CutAt(rest, j);
    ParseDigestExact(rest[..j], e.digest);
    ParseDigestExact(rest[j + 1..], e.prior);
    ConcatAssoc(stamp + "\t", Text(e.digest) + "\t", Text(e.prior));
    ConcatAssoc(stamp + "\t", Text(e.digest), "\t");
  }

  ghost predicate Timed(entries: seq<Entry>) {
    forall i :: 0 <= i < |entries| ==> InInt64(entries[i].time)
  }

  /** Complete lines are recovered exactly, whatever follows them. */
  lemma {:induction false} ParsePrinted(entries: seq<Entry>, tail: string)
    requires Timed(entries)
    ensures ParseLog(LogText(entries) + tail) == entries + ParseLog(tail)
  {
    if |entries| == 0 {
      assert LogText(entries) + tail == tail;
    } else {
      var e, rest := entries[0], LogText(entries[1..]) + tail;
      assert LogText(entries) + tail == Body(e) + "\n" + rest;
      BodyFree(e);
      ParseLogLine(Body(e), rest);
      ParseBody(e);
      ParsePrinted(entries[1..], tail);
      ConcatAssoc([e], entries[1..], ParseLog(tail));
      assert entries == [e] + entries[1..];
    }
  }

  /** A log of complete appends parses back to the entries appended. */
  lemma ParseComplete(entries: seq<Entry>)
    requires Timed(entries)
    ensures ParseLog(LogText(entries)) == entries
  {
    ParsePrinted(entries, "");
    ParseLogTail("");
    assert LogText(entries) + "" == LogText(entries) && entries + [] == entries;
  }

  // ---- A crash in the middle of an append ----------------------------------------------

  lemma {:induction false} TextPrefix(d: Digest, j: nat)
    requires j <= |d|
    ensures Text(d)[..2 * j] == Text(d[..j])
  {
    if j > 0 {
      TextPrefix(d[1..], j - 1);
      assert d[..j][1..] == d[1..][..j - 1];
    }
  }

  /** What the parser makes of the first `k` bytes of an entry's line: nothing
      until both tabs are written, and then an entry with the right time and digest
      whenever whole bytes of the old digest are there. */
  function Torn(e: Entry, k: nat): seq<Entry>
    requires k <= |Body(e)|
  {
    var m := k - |Head(e)|;
    if m >= 0 && m % 2 == 0 then [Entry(e.digest, e.prior[..m / 2], e.time)] else []
  }

  lemma TornHead(e: Entry, k: nat)
    requires k < |Head(e)|
    ensures ParseLine(Head(e)[..k]) == None
  {
    StampFree(e.time);
    TextFree(e.digest);
    var stamp, p := Format(e.time), Head(e)[..k];
    if k <= |stamp| {
      assert forall i :: 0 <= i < k ==> p[i] == stamp[i];
      assert Index(p, '\t') == |p|;
    } else {
      var rest := Text(e.digest)[..k - |stamp| - 1];
      assert p == stamp + "\t" + rest;
      IndexAt(stamp, '\t', rest);
      assert p[|stamp| + 1..] == rest && Index(rest, '\t') == |rest|;
    }
  }

  lemma TornBody(e: Entry, m: nat)
    requires m <= |Text(e.prior)| && InInt64(e.time)
    ensures OptionSeq(ParseLine(Head(e) + Text(e.prior)[..m])) ==
            if m % 2 == 0 then [Entry(e.digest, e.prior[..m / 2], e.time)] else []
  {
    StampFree(e.time);
    TextFree(e.digest);
    ParseLineFields(Format(e.time), Text(e.digest), Text(e.prior)[..m]);
    FormatRoundTrip(e.time);
    ParseDigestExact(Text(e.digest), e.digest);
    if m % 2 == 0 {
      TextPrefix(e.prior, m / 2);
      ParseDigestExact(Text(e.prior)[..m], e.prior[..m / 2]);
    }
  }

  lemma TornLine(e: Entry, k: nat)
    requires k <= |Body(e)| && InInt64(e.time)
    ensures OptionSeq(ParseLine(Body(e)[..k])) == Torn(e, k)
  {
    if k < |Head(e)| {
      assert Body(e)[..k] == Head(e)[..k];
      TornHead(e, k);
    } else {
      var m := k - |Head(e)|;
      assert Body(e)[..k] == Head(e) + Text(e.prior)[..m];
      TornBody(e, m);
    }
  }

  /** A reflog whose last append was cut at any byte yields every earlier entry
      unchanged and at most one more, with the torn line's time and digest. */
  lemma TornLog(entries: seq<Entry>, e: Entry, k: nat)
    requires Timed(entries) && InInt64(e.time) && k <= |Body(e)|
    ensures ParseLog(LogText(entries) + Body(e)[..k]) == entries + Torn(e, k)
  {
    ParsePrinted(entries, Body(e)[..k]);
    BodyFree(e);
    ParseLogTail(Body(e)[..k]);
    TornLine(e, k);
  }

  /** The line a torn append leaves once the next append completes it: a tear
      inside the timestamp prepends its digits to the next timestamp; a later tear
      loses the next entry. */
  function Fused(e: Entry, k: nat, f: Entry): seq<Entry>
    requires k <= |Body(e)|
  {
    if k > |Format(e.time)| then [] else
      match ParseInt(Format(e.time)[..k] + Format(f.time))
      case None => []
      case Some(time) => [Entry(f.digest, f.prior, time)]
  }

  /** A tab in the third field is never part of a digest. */
  lemma ExtraTab(stamp: string, digest: string, before: string, after: string)
    requires Free(stamp, '\t') && Free(digest, '\t')
    ensures ParseLine(stamp + "\t" + digest + "\t" + (before + "\t" + after)) == None
  {
    var prior := before + "\t" + after;
    ParseLineFields(stamp, digest, prior);
    assert prior[|before|] == '\t';
  }

  /** What an entry becomes when its line was begun by torn text. */
  function FusedWith(torn: string, f: Entry): seq<Entry> {
    if !Free(torn, '\t') then [] else
      match ParseInt(torn + Format(f.time))
      case None => []
      case Some(time) => [Entry(f.digest, f.prior, time)]
  }

  lemma FusedStamp(torn: string, f: Entry)
    requires Free(torn, '\t')
    ensures OptionSeq(ParseLine(torn + Body(f))) == FusedWith(torn, f)
  {
    var stamp := torn + Format(f.time);
    StampFree(f.time);
    TextFree(f.digest);
    assert torn + Body(f) == stamp + "\t" + Text(f.digest) + "\t" + Text(f.prior);
    ParseLineFields(stamp, Text(f.digest), Text(f.prior));
    ParseDigestExact(Text(f.digest), f.digest);
    ParseDigestExact(Text(f.prior), f.prior);
  }

  lemma FusedDigest(stamp: string, digest: string, f: Entry)
    requires Free(stamp, '\t') && Free(digest, '\t')
    ensures ParseLine(stamp + "\t" + digest + Body(f)) == None
  {
    StampFree(f.time);
    ExtraTab(stamp, digest + Format(f.time), Text(f.digest), Text(f.prior));
    var before, after := Format(f.time), Text(f.digest) + "\t" + Text(f.prior);
    assert Body(f) == before + "\t" + after;
    assert stamp + "\t" + digest + Body(f) == stamp + "\t" + (digest + before) + "\t" + after;
  }

  lemma FusedPrior(stamp: string, digest: string, prior: string, f: Entry)
    requires Free(stamp, '\t') && Free(digest, '\t')
    ensures ParseLine(stamp + "\t" + digest + "\t" + prior + Body(f)) == None
  {
    var before, after := Format(f.time), Text(f.digest) + "\t" + Text(f.prior);
    ExtraTab(stamp, digest, prior + before, after);
    assert Body(f) == before + "\t" + after;
    assert prior + Body(f) == prior + before + "\t" + after;
    ConcatAssoc(stamp + "\t" + digest + "\t", prior, Body(f));
  }

  /** A text with a tab splits at its first one. */
  lemma SplitAtTab(s: string)
    requires !Free(s, '\t')
    ensures var i := Index(s, '\t'); i < |s| && Free(s[..i], '\t') && s == s[..i] + "\t" + s[i + 1..]
  {
    IndexFirst(s, '\t');
    assert s[..|s|] == s;
    CutAt(s, Index(s, '\t'));
  }

  lemma FusedLater(torn: string, f: Entry)
    requires !Free(torn, '\t')
    ensures ParseLine(torn + Body(f)) == None
  {
    SplitAtTab(torn);
    var i := Index(torn, '\t');
    var rest := torn[i + 1..];
    if Free(rest, '\t') {
      FusedDigest(torn[..i], rest, f);
    } else {
      SplitAtTab(rest);
      var j := Index(rest, '\t');
      ConcatAssoc(torn[..i] + "\t", rest[..j] + "\t", rest[j + 1..]);
      ConcatAssoc(torn[..i] + "\t", rest[..j], "\t");
      FusedPrior(torn[..i], rest[..j], rest[j + 1..], f);
    }
  }

  lemma FusedLine(torn: string, f: Entry)
    ensures OptionSeq(ParseLine(torn + Body(f))) == FusedWith(torn, f)
  {
    if Free(torn, '\t') {
      FusedStamp(torn, f);
    } else {
      FusedLater(torn, f);
    }
  }

  lemma FusedAfterCut(e: Entry, k: nat, f: Entry)
    requires k <= |Body(e)|
    ensures FusedWith(Body(e)[..k], f) == Fused(e, k, f)
  {
    var stamp := Format(e.time);
    StampFree(e.time);
    if k <= |stamp| {
      assert Body(e)[..k] == stamp[..k];
    } else {
      assert Body(e)[..k][|stamp|] == '\t';
    }
  }

  lemma JoinLine(torn: string, f: Entry, later: seq<Entry>)
    ensures torn + LogText([f] + later) == torn + Body(f) + "\n" + LogText(later)
  {
    assert ([f] + later)[1..] == later;
    ConcatAssoc(torn, Line(f), LogText(later));
    ConcatAssoc(torn, Body(f), "\n");
  }

  /** After a crash that cut the append of `e` at any byte, and any number of
      complete appends since, everything before and everything after the entry
      fused with the torn line is recovered exactly. */
  lemma AppendAfterTear(entries: seq<Entry>, e: Entry, k: nat, f: Entry, later: seq<Entry>)
    requires Timed(entries) && Timed(later) && k <= |Body(e)|
    ensures ParseLog(LogText(entries) + (Body(e)[..k] + LogText([f] + later))) == entries + (Fused(e, k, f) + later)
  {
    var torn := Body(e)[..k];
    ParsePrinted(entries, torn + LogText([f] + later));
    JoinLine(torn, f, later);
    BodyFree(e);
    BodyFree(f);
    ParseLogLine(torn + Body(f), LogText(later));
    FusedLine(torn, f);
    FusedAfterCut(e, k, f);
    ParseComplete(later);
  }

  // ---- Any number of crashes -------------------------------------------------------------

  /** An append that was completed, or cut after `k` bytes. */
  datatype Append = Complete(e: Entry) | Cut(e: Entry, k: nat)

  function Written(a: Append): string {
    match a
    case Complete(e) => Line(e)
    case Cut(e, k) => if k <= |Body(e)| then Body(e)[..k] else Body(e)
  }

  function WrittenAll(appends: seq<Append>): string {
    if |appends| == 0 then "" else Written(appends[0]) + WrittenAll(appends[1..])
  }

  /** What is recovered when `torn` is what cut appends left on the current line: a
      complete append ends the line and is fused with it, and a torn last line is
      parsed as it stands. */
  function Recovered(torn: string, appends: seq<Append>): seq<Entry>
    decreases |appends|
  {
    if |appends| == 0 then OptionSeq(ParseLine(torn)) else
      match appends[0]
      case Complete(f) => FusedWith(torn, f) + Recovered("", appends[1..])
      case Cut(_, _) => Recovered(torn + Written(appends[0]), appends[1..])
  }

  /** A log written through any number of crashes, each cutting its append at any
      byte, parses to exactly that. */
  lemma {:induction false} TornAppends(torn: string, appends: seq<Append>)
    requires Free(torn, '\n')
    ensures ParseLog(torn + WrittenAll(appends)) == Recovered(torn, appends)
    decreases |appends|
  {
    if |appends| == 0 {
      ParseLogTail(torn);
      assert torn + "" == torn;
    } else {
      var rest := WrittenAll(appends[1..]);
      BodyFree(appends[0].e);
      match appends[0]
      case Complete(f) =>
        assert torn + (Line(f) + rest) == torn + Body(f) + "\n" + rest;
        ParseLogLine(torn + Body(f), rest);
        FusedLine(torn, f);
        TornAppends("", appends[1..]);
        assert "" + rest == rest;
      case Cut(_, _) =>
        ConcatAssoc(torn, Written(appends[0]), rest);
        TornAppends(torn + Written(appends[0]), appends[1..]);
    }
  }

  ghost predicate TimedAll(appends: seq<Append>) {
    forall i :: 0 <= i < |appends| && appends[i].Complete? ==> InInt64(appends[i].e.time)
  }

  /** A complete append on a line of its own is recovered as it is. */
  lemma FusedWithNothing(f: Entry)
    requires InInt64(f.time)
    ensures FusedWith("", f) == [f]
  {
    FusedLine("", f);
    assert "" + Body(f) == Body(f);
    ParseBody(f);
  }

  /** Every complete append that does not directly follow a cut one is recovered. */
  lemma {:induction false} UntornSurvive(torn: string, appends: seq<Append>, i: nat)
    requires TimedAll(appends) && i < |appends| && appends[i].Complete?
    requires if i == 0 then torn == "" else appends[i - 1].Complete?
    ensures appends[i].e in Recovered(torn, appends)
    decreases |appends|
  {
    if i == 0 {
      FusedWithNothing(appends[0].e);
    } else {
      var rest := appends[1..];
      assert appends[i] == rest[i - 1];
      UntornSurvive(if appends[0].Complete? then "" else torn + Written(appends[0]), rest, i - 1);
    }
  }

  function Count(appends: seq<Append>, complete: bool): nat {
    if |appends| == 0 then 0
    else (if appends[0].Complete? == complete then 1 else 0) + Count(appends[1..], complete)
  }

  /** So no crash costs more than one complete append, and none adds more than one
      entry in all. */
  lemma {:induction false} LossBounded(torn: string, appends: seq<Append>)
    requires TimedAll(appends)
    ensures var kept, begun := |Recovered(torn, appends)|, if torn == "" then 0 else 1;
            Count(appends, true) <= kept + Count(appends, false) + begun && kept <= Count(appends, true) + 1
    decreases |appends|
  {
    if |appends| > 0 {
      var rest := appends[1..];
      match appends[0]
      case Complete(f) =>
        FusedWithNothing(f);
        LossBounded("", rest);
      case Cut(_, _) =>
        LossBounded(torn + Written(appends[0]), rest);
    }
  }
}
