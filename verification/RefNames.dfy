/** Which names a ref may have (cas/refs/refs.go) and which files a listing takes
    for scratch files (cas/internal/atomicfile/atomicfile.go). */
module RefNames {
  import opened Common
  import opened Decimals
  import opened Texts

  const RESERVED_CHARS := "<>:\"|?*\\"

  const DEVICES := {
    "con", "prn", "aux", "nul",
    "com0", "com1", "com2", "com3", "com4", "com5", "com6", "com7", "com8", "com9",
    "lpt0", "lpt1", "lpt2", "lpt3", "lpt4", "lpt5", "lpt6", "lpt7", "lpt8", "lpt9"
  }

  /** The part after the last slash. */
  function LastSegment(name: string): string
    decreases |name|
  {
    var i := Index(name, '/');
    if i == |name| then name else LastSegment(name[i + 1..])
  }

  predicate IsControl(c: char) {
    c < ' ' || c == '\U{7f}'
  }

  /** The part before the first dot. */
  function Stem(part: string): string {
    part[..Index(part, '.')]
  }

  predicate ValidSegment(lower: Casing, part: string) {
    && part != "" && part[0] != '.'
    && !HasSuffix(part, ".lock") && !HasSuffix(part, " ") && !HasSuffix(part, ".")
    && (forall i :: 0 <= i < |part| ==> part[i] !in RESERVED_CHARS)
    && ToLower(lower, Stem(part)) !in DEVICES
  }

  /** Every part between slashes passes. */
  predicate EachPart(name: string, ok: string -> bool)
    decreases |name|
  {
    var i := Index(name, '/');
    ok(name[..i]) && (i < |name| ==> EachPart(name[i + 1..], ok))
  }

  /** `ValidateName`. Absolute paths of either kind of system have an empty part or a
      reserved character. */
  predicate ValidName(lower: Casing, name: string) {
    && (forall i :: 0 <= i < |name| ==> !IsControl(name[i]))
    && EachPart(name, PartRule(lower))
  }

  function PartRule(lower: Casing): string -> bool {
    part => ValidSegment(lower, part)
  }

  // ---- The rules on the characters of a name ----------------------------------------

  /** A part of the name begins at `p`. */
  ghost predicate Starts(name: string, p: nat) {
    p <= |name| && (p == 0 || name[p - 1] == '/')
  }

  /** A part of the name ends before `e`. */
  ghost predicate Ends(name: string, e: nat) {
    e <= |name| && (e == |name| || name[e] == '/')
  }

  /** From `p`, where a part begins, to `q` there is no dot, and `q` is a dot or the
      part's end. */
  ghost predicate StemAt(name: string, p: nat, q: nat) {
    && Starts(name, p) && p <= q <= |name|
    && (Ends(name, q) || name[q] == '.')
    && Free(name[p..q], '.') && Free(name[p..q], '/')
  }

  /** The rules as a reader of names would put them: no control or reserved character;
      no part empty or starting with a dot, so in particular no leading, trailing or
      doubled slash and no "." or ".."; no part ending in ".lock", a space or a dot;
      and no device name up to the first dot of a part. */
  ghost predicate Portable(lower: Casing, name: string) {
    && (forall i :: 0 <= i < |name| ==> !IsControl(name[i]) && name[i] !in RESERVED_CHARS)
    && (forall p: nat :: Starts(name, p) ==> !Ends(name, p) && name[p] != '.')
    && (forall e: nat :: 0 < e && Ends(name, e) ==>
          name[e - 1] != ' ' && name[e - 1] != '.' && !(e >= 5 && name[e - 5..e] == ".lock"))
    && (forall p: nat, q: nat :: StemAt(name, p, q) ==> ToLower(lower, name[p..q]) !in DEVICES)
  }

  /** `e` is the end of the part that begins at `p`. */
  ghost predicate Part(name: string, p: nat, e: nat) {
    Starts(name, p) && Ends(name, e) && p <= e && Free(name[p..e], '/')
  }

  /** The parts after a slash are the parts of what follows it. */
  lemma PartAfter(name: string, i: nat, rest: string, q: nat, e: nat)
    requires i < |name| && name[i] == '/' && rest == name[i + 1..] && q <= e <= |rest|
    ensures Part(rest, q, e) <==> Part(name, i + 1 + q, i + 1 + e)
    ensures rest[q..e] == name[i + 1 + q..i + 1 + e]
  {
    assert rest[q..e] == name[i + 1 + q..i + 1 + e];
    assert Starts(rest, q) <==> Starts(name, i + 1 + q) by {
      assert q > 0 ==> rest[q - 1] == name[i + q];
    }
    assert Ends(rest, e) <==> Ends(name, i + 1 + e) by {
      assert e < |rest| ==> rest[e] == name[i + 1 + e];
    }
  }

  lemma FirstPart(name: string, e: nat)
    requires Part(name, 0, e)
    ensures e == Index(name, '/')
  {
    assert name[0..e] == name[..e];
    IndexIs(name, '/', e);
  }

  lemma EachPartStep(name: string, ok: string -> bool, i: nat, rest: string)
    requires i == Index(name, '/') < |name| && rest == name[i + 1..]
    ensures EachPart(name, ok) <==> ok(name[..i]) && EachPart(rest, ok)
  {
  }

  lemma {:induction false} PartPasses(name: string, ok: string -> bool, p: nat, e: nat, part: string)
    requires EachPart(name, ok) && Part(name, p, e) && part == name[p..e]
    ensures ok(part)
    decreases |name|
  {
    var i := Index(name, '/');
    if p == 0 {
      FirstPart(name, e);
    } else {
      IndexBefore(name, '/', p - 1);
      var rest := name[i + 1..];
      EachPartStep(name, ok, i, rest);
      PartAfter(name, i, rest, p - i - 1, e - i - 1);
      PartPasses(rest, ok, p - i - 1, e - i - 1, part);
    }
  }

  lemma PartIsValid(lower: Casing, name: string, p: nat, e: nat)
    requires ValidName(lower, name) && Part(name, p, e)
    ensures ValidSegment(lower, name[p..e])
  {
    PartPasses(name, PartRule(lower), p, e, name[p..e]);
  }

  lemma {:induction false} PartsAreAll(name: string, ok: string -> bool)
    requires forall p: nat, e: nat :: Part(name, p, e) ==> ok(name[p..e])
    ensures EachPart(name, ok)
    decreases |name|
  {
    var i := Index(name, '/');
    IndexFirst(name, '/');
    assert name[0..i] == name[..i] && Part(name, 0, i);
    if i < |name| {
      var rest := name[i + 1..];
      forall p: nat, e: nat | Part(rest, p, e) ensures ok(rest[p..e]) {
        PartAfter(name, i, rest, p, e);
      }
      PartsAreAll(rest, ok);
    }
  }

  /** Every part has an end, and a beginning. */
  lemma PartFrom(name: string, p: nat) returns (e: nat)
    requires Starts(name, p)
    ensures Part(name, p, e)
  {
    var after := name[p..];
    e := p + Index(after, '/');
    IndexFirst(after, '/');
    assert after[..e - p] == name[p..e];
  }

  lemma PartUpTo(name: string, e: nat) returns (p: nat)
    requires Ends(name, e)
    ensures Part(name, p, e)
  {
    p := e;
    while p > 0 && name[p - 1] != '/'
      invariant 0 <= p <= e && Free(name[p..e], '/')
    {
      assert name[p - 1..e] == [name[p - 1]] + name[p..e];
      p := p - 1;
    }
  }

  /** A valid part, seen in the name. */
  lemma ValidPart(lower: Casing, name: string, p: nat, e: nat)
    requires Part(name, p, e) && ValidSegment(lower, name[p..e])
    ensures p < e && name[p] != '.'
    ensures name[e - 1] != ' ' && name[e - 1] != '.' && !(e - p >= 5 && name[e - 5..e] == ".lock")
  {
    var part := name[p..e];
    assert part[0] == name[p] && part[|part| - 1..] == [name[e - 1]];
    assert e - p >= 5 ==> part[|part| - 5..] == name[e - 5..e];
  }

  lemma ValidPartChars(lower: Casing, name: string, p: nat, e: nat, i: nat)
    requires Part(name, p, e) && ValidSegment(lower, name[p..e]) && p <= i < e
    ensures name[i] !in RESERVED_CHARS
  {
    assert name[p..e][i - p] == name[i];
  }

  lemma ValidPartStem(lower: Casing, name: string, p: nat, e: nat, q: nat)
    requires Part(name, p, e) && ValidSegment(lower, name[p..e]) && StemAt(name, p, q)
    ensures ToLower(lower, name[p..q]) !in DEVICES
  {
    StemOfPart(name, p, e, q);
  }

  lemma StemOfPart(name: string, p: nat, e: nat, q: nat)
    requires Part(name, p, e) && StemAt(name, p, q)
    ensures q <= e && Stem(name[p..e]) == name[p..q]
  {
    var part := name[p..e];
    StemWithin(name, p, e, q);
    assert q < e ==> part[q - p] == '.';
    assert part[..q - p] == name[p..q];
    IndexIs(part, '.', q - p);
  }

  lemma StemWithin(name: string, p: nat, e: nat, q: nat)
    requires Part(name, p, e) && StemAt(name, p, q)
    ensures q <= e && (q < e ==> name[q] == '.')
  {
    if q > e {
      FreeAt(name[p..q], '/', e - p);
    } else if q < e {
      FreeAt(name[p..e], '/', q - p);
    }
  }

  lemma FreeAt(s: string, c: char, k: nat)
    requires k < |s| && Free(s, c)
    ensures s[k] != c
  {
  }

  lemma NotReserved(lower: Casing, name: string, i: nat)
    requires ValidName(lower, name) && i < |name|
    ensures name[i] !in RESERVED_CHARS
  {
    if name[i] != '/' {
      var e := i + Index(name[i..], '/');
      var p := PartUpTo(name, e);
      PartCovers(name, i, p, e);
      PartIsValid(lower, name, p, e);
      ValidPartChars(lower, name, p, e, i);
    }
  }

  /** No slash lies between `i` and `e`, so the part that ends at `e` began before. */
  lemma PartCovers(name: string, i: nat, p: nat, e: nat)
    requires i <= |name| && e == i + Index(name[i..], '/') && Part(name, p, e)
    ensures p <= i
  {
    if p > i {
      IndexBefore(name[i..], '/', p - 1 - i);
    }
  }

  lemma GoodStart(lower: Casing, name: string, p: nat)
    requires ValidName(lower, name) && Starts(name, p)
    ensures !Ends(name, p) && name[p] != '.'
    ensures forall q: nat :: StemAt(name, p, q) ==> ToLower(lower, name[p..q]) !in DEVICES
  {
    var e := PartFrom(name, p);
    PartIsValid(lower, name, p, e);
    ValidPart(lower, name, p, e);
    FreeAt(name[p..e], '/', 0);
    forall q: nat | StemAt(name, p, q) ensures ToLower(lower, name[p..q]) !in DEVICES {
      ValidPartStem(lower, name, p, e, q);
    }
  }

  lemma GoodEnd(lower: Casing, name: string, e: nat)
    requires ValidName(lower, name) && 0 < e && Ends(name, e)
    ensures name[e - 1] != ' ' && name[e - 1] != '.' && !(e >= 5 && name[e - 5..e] == ".lock")
  {
    var p := PartUpTo(name, e);
    PartIsValid(lower, name, p, e);
    ValidPart(lower, name, p, e);
    if e >= 5 && e - p < 5 {
      SlashWithin(name, e - 5, p - 1, e);
    }
  }

  lemma SlashWithin(name: string, from: nat, at: nat, to: nat)
    requires from <= at < to <= |name| && name[at] == '/' && to == from + 5
    ensures name[from..to] != ".lock"
  {
    var suffix := ".lock";
    assert name[from..to][at - from] == '/';
    assert suffix[0] == '.' && suffix[1] == 'l' && suffix[2] == 'o' && suffix[3] == 'c' && suffix[4] == 'k';
    assert suffix[at - from] != '/';
  }

  lemma ValidIsPortable(lower: Casing, name: string)
    requires ValidName(lower, name)
    ensures Portable(lower, name)
  {
    forall i | 0 <= i < |name| ensures name[i] !in RESERVED_CHARS {
      NotReserved(lower, name, i);
    }
    forall p: nat | Starts(name, p)
      ensures !Ends(name, p) && name[p] != '.'
      ensures forall q: nat :: StemAt(name, p, q) ==> ToLower(lower, name[p..q]) !in DEVICES
    {
      GoodStart(lower, name, p);
    }
    forall e: nat | 0 < e && Ends(name, e)
      ensures name[e - 1] != ' ' && name[e - 1] != '.' && !(e >= 5 && name[e - 5..e] == ".lock")
    {
      GoodEnd(lower, name, e);
    }
  }

  lemma PortablePart(lower: Casing, name: string, p: nat, e: nat)
    requires Portable(lower, name) && Part(name, p, e)
    ensures ValidSegment(lower, name[p..e])
  {
    var part := name[p..e];
    PortableStem(lower, name, p, e);
    PortableEnd(lower, name, p, e);
    assert forall i :: 0 <= i < |part| ==> part[i] == name[p + i];
  }

  lemma PortableEnd(lower: Casing, name: string, p: nat, e: nat)
    requires Portable(lower, name) && Part(name, p, e)
    ensures p < e
    ensures var part := name[p..e]; !HasSuffix(part, ".lock") && !HasSuffix(part, " ") && !HasSuffix(part, ".")
  {
    var part := name[p..e];
    PortableBounds(lower, name, p, e);
    assert part[|part| - 1] == name[e - 1];
    EndsOtherwise(part, " ");
    EndsOtherwise(part, ".");
    if HasSuffix(part, ".lock") {
      SuffixInName(name, p, e, ".lock");
    }
  }

  lemma PortableBounds(lower: Casing, name: string, p: nat, e: nat)
    requires Portable(lower, name) && Starts(name, p) && Ends(name, e) && p <= e
    ensures p < e && name[e - 1] != ' ' && name[e - 1] != '.' && !(e >= 5 && name[e - 5..e] == ".lock")
  {
  }

  lemma SuffixInName(name: string, p: nat, e: nat, suffix: string)
    requires p <= e <= |name| && HasSuffix(name[p..e], suffix)
    ensures e >= |suffix| && name[e - |suffix|..e] == suffix
  {
    assert name[p..e][e - p - |suffix|..] == name[e - |suffix|..e];
  }

  lemma PortableStem(lower: Casing, name: string, p: nat, e: nat)
    requires Portable(lower, name) && Part(name, p, e)
    ensures ToLower(lower, Stem(name[p..e])) !in DEVICES
  {
    var part := name[p..e];
    var q := p + Index(part, '.');
    IndexFirst(part, '.');
    assert part[..q - p] == name[p..q];
    FreeSlice(part, '/', q - p);
    assert q < e ==> part[q - p] == name[q];
    assert StemAt(name, p, q);
  }

  lemma FreeSlice(s: string, c: char, k: nat)
    requires k <= |s| && Free(s, c)
    ensures Free(s[..k], c)
  {
  }

  /** The name guard, exactly: `ValidateName` accepts a string if and only if it is
      portable. */
  lemma ValidExactly(lower: Casing, name: string)
    ensures ValidName(lower, name) <==> Portable(lower, name)
  {
    if ValidName(lower, name) {
      ValidIsPortable(lower, name);
    }
    if Portable(lower, name) {
      forall p: nat, e: nat | Part(name, p, e) ensures ValidSegment(lower, name[p..e]) {
        PortablePart(lower, name, p, e);
      }
      PartsAreAll(name, PartRule(lower));
    }
  }

  /** In particular nothing leads out of the directory or collides with the logs. */
  lemma Confined(lower: Casing, name: string)
    requires ValidName(lower, name)
    ensures name != "" && name[0] != '/' && name[0] != '.' && name[|name| - 1] != '/'
    ensures forall i :: 0 < i < |name| && name[i - 1] == '/' ==> name[i] != '/' && name[i] != '.'
  {
    ValidExactly(lower, name);
    assert Starts(name, 0);
    assert Starts(name, |name|) ==> !Ends(name, |name|);
    forall i | 0 < i < |name| && name[i - 1] == '/' ensures name[i] != '/' && name[i] != '.' {
      assert Starts(name, i);
    }
  }

  /** `atomicfile.IsTempFile`: "<name>.tmp" or "<name>.tmp.<n>". */
  predicate IsTempFile(name: string) {
    match Find(name, ".tmp")
    case None => false
    case Some(i) =>
      var rest := name[i + 4..];
      rest == "" || (rest[0] == '.' && ParseInt(rest[1..]).Some?)
  }

  lemma StemSuffix(part: string)
    ensures Stem(part + ".tmp") == Stem(part)
  {
    var i, whole := Index(part, '.'), part + ".tmp";
    assert whole[i] == '.' && whole[..i] == part[..i];
    IndexFirst(part, '.');
    IndexIs(whole, '.', i);
  }

  lemma EndsOtherwise(s: string, suffix: string)
    requires s != "" && suffix != "" && s[|s| - 1] != suffix[|suffix| - 1]
    ensures !HasSuffix(s, suffix)
  {
    assert |suffix| <= |s| ==> s[|s| - |suffix|..][|suffix| - 1] == s[|s| - 1];
  }

  /** Whatever segment is valid stays valid with the suffix. */
  lemma SegmentStaysValid(lower: Casing, part: string)
    requires ValidSegment(lower, part)
    ensures ValidSegment(lower, part + ".tmp")
  {
    var whole := part + ".tmp";
    StemSuffix(part);
    EndsOtherwise(whole, ".lock");
    EndsOtherwise(whole, " ");
    EndsOtherwise(whole, ".");
  }

  /** The first character of `sub` does not occur in it again. */
  ghost predicate Unrepeated(sub: string) {
    |sub| > 0 && forall i :: 0 < i < |sub| ==> sub[i] != sub[0]
  }

  lemma {:induction false} FindSuffix(s: string, sub: string)
    requires Unrepeated(sub)
    ensures Find(s + sub, sub) == Some(if Find(s, sub).Some? then Find(s, sub).value else |s|)
  {
    var t := s + sub;
    if |s| == 0 {
      assert t[..|sub|] == sub;
    } else {
      assert t[1..] == s[1..] + sub;
      NoOverlap(s, sub);
      FindSuffix(s[1..], sub);
    }
  }

  /** An occurrence of `sub` does not straddle the end of `s`. */
  lemma NoOverlap(s: string, sub: string)
    requires |s| > 0 && Unrepeated(sub)
    ensures (s + sub)[..|sub|] == sub <==> |s| >= |sub| && s[..|sub|] == sub
  {
    var t := s + sub;
    if |s| < |sub| {
      assert t[..|sub|][|s|] == sub[0];
    } else {
      assert t[..|sub|] == s[..|sub|];
    }
  }

  /** The first occurrence is the one appended, whatever follows it. */
  lemma {:induction false} FindAppended(s: string, sub: string, t: string)
    requires Unrepeated(sub) && Find(s, sub).None?
    ensures Find(s + sub + t, sub) == Some(|s|)
  {
    var u := s + sub + t;
    if |s| == 0 {
      assert u[..|sub|] == sub;
    } else {
      assert u[1..] == s[1..] + sub + t && u[..|sub|] == (s + sub)[..|sub|];
      NoOverlap(s, sub);
      FindAppended(s[1..], sub, t);
    }
  }

  /** Which files a listing takes for scratch files: what follows the first ".tmp" of
      the name is nothing, or a dot and an integer; without one none. */
  lemma TempFileExactly(s: string, t: string)
    requires Find(s, ".tmp").None?
    ensures !IsTempFile(s)
    ensures IsTempFile(s + ".tmp" + t) <==> t == "" || (t[0] == '.' && ParseInt(t[1..]).Some?)
  {
    var name := s + ".tmp" + t;
    FindAppended(s, ".tmp", t);
    assert name[|s| + 4..] == t;
  }

  /** The last part runs from the last slash, or the beginning, to the end. */
  lemma {:induction false} LastSegmentEnds(name: string) returns (p: nat)
    ensures Part(name, p, |name|) && name[p..|name|] == LastSegment(name)
    decreases |name|
  {
    var i := Index(name, '/');
    if i == |name| {
      p := 0;
      IndexFirst(name, '/');
      assert name[0..|name|] == name[..i] == name;
    } else {
      var rest := name[i + 1..];
      LastSegmentStep(name, i, rest);
      var q := LastSegmentEnds(rest);
      PartAfter(name, i, rest, q, |rest|);
      p := i + 1 + q;
    }
  }

  lemma NotANumber(s: string)
    ensures ParseInt((s + ".tmp")[1..]) == None
  {
    var text := (s + ".tmp")[1..];
    var n := |text|;
    assert n >= 3 && text[n - 1] == 'p';
    ParseIntExactly(text);
    assert text[1..][n - 2] == 'p';
  }

  /** The suffix makes a scratch name of exactly the names without ".tmp". */
  lemma TempShaped(s: string)
    ensures IsTempFile(s + ".tmp") <==> Find(s, ".tmp").None?
  {
    if Find(s, ".tmp").None? {
      TempFileExactly(s, "");
      assert s + ".tmp" + "" == s + ".tmp";
    } else {
      TempTwice(s);
    }
  }

  lemma TempTwice(s: string)
    requires Find(s, ".tmp").Some?
    ensures !IsTempFile(s + ".tmp")
  {
    var i, t := Find(s, ".tmp").value, s + ".tmp";
    FindSuffix(s, ".tmp");
    assert t[i + 4..] == s[i + 4..] + ".tmp";
    NotANumber(s[i + 4..]);
  }

  /** Where the first slash is after an extension without one. */
  lemma IndexExtended(s: string, t: string)
    requires Free(t, '/')
    ensures Index(s + t, '/') == if Index(s, '/') < |s| then Index(s, '/') else |s + t|
  {
    var i, u := Index(s, '/'), s + t;
    IndexFirst(s, '/');
    if i == |s| {
      assert s[..i] == s && u[..|u|] == u;
      IndexIs(u, '/', |u|);
    } else {
      assert u[i] == '/' && u[..i] == s[..i];
      IndexIs(u, '/', i);
    }
  }

  /** The last part is extended, the others stay. */
  lemma {:induction false} PartsExtended(s: string, t: string, ok: string -> bool)
    requires EachPart(s, ok) && Free(t, '/')
    requires forall part :: ok(part) ==> ok(part + t)
    ensures EachPart(s + t, ok)
    decreases |s|
  {
    var i, u := Index(s, '/'), s + t;
    IndexExtended(s, t);
    if i == |s| {
      assert s[..i] == s && u[..|u|] == u;
    } else {
      var rest := s[i + 1..];
      EachPartStep(s, ok, i, rest);
      PartsExtended(rest, t, ok);
      assert u[..i] == s[..i] && u[i + 1..] == rest + t;
      EachPartStep(u, ok, i, rest + t);
    }
  }

  lemma LastSegmentStep(name: string, i: nat, rest: string)
    requires i == Index(name, '/') < |name| && rest == name[i + 1..]
    ensures LastSegment(name) == LastSegment(rest)
  {
  }

  lemma {:induction false} LastExtended(s: string, t: string)
    requires Free(t, '/')
    ensures LastSegment(s + t) == LastSegment(s) + t
    decreases |s|
  {
    var i, u := Index(s, '/'), s + t;
    IndexExtended(s, t);
    if i < |s| {
      var rest := s[i + 1..];
      assert u[i + 1..] == rest + t;
      LastSegmentStep(s, i, rest);
      LastSegmentStep(u, i, rest + t);
      LastExtended(rest, t);
    }
  }

  lemma NameStaysValid(lower: Casing, s: string)
    requires ValidName(lower, s)
    ensures ValidName(lower, s + ".tmp") && LastSegment(s + ".tmp") == LastSegment(s) + ".tmp"
  {
    RuleKept(lower);
    PartsExtended(s, ".tmp", PartRule(lower));
    LastExtended(s, ".tmp");
    NoControlAdded(s, ".tmp");
  }

  lemma RuleKept(lower: Casing)
    ensures forall part :: PartRule(lower)(part) ==> PartRule(lower)(part + ".tmp")
  {
    forall part | PartRule(lower)(part) ensures PartRule(lower)(part + ".tmp") {
      SegmentStaysValid(lower, part);
    }
  }

  lemma NoControlAdded(s: string, t: string)
    requires (forall i :: 0 <= i < |s| ==> !IsControl(s[i])) && (forall i :: 0 <= i < |t| ==> !IsControl(t[i]))
    ensures forall i :: 0 <= i < |s + t| ==> !IsControl((s + t)[i])
  {
  }

  /** Every valid name remains valid with the suffix ".tmp"; and unless its last
      segment had a ".tmp" before, a listing now takes its file for a scratch file. */
  lemma TempShapedName(lower: Casing, s: string)
    requires ValidName(lower, s)
    ensures ValidName(lower, s + ".tmp")
    ensures IsTempFile(LastSegment(s + ".tmp")) <==> Find(LastSegment(s), ".tmp").None?
  {
    NameStaysValid(lower, s);
    TempShaped(LastSegment(s));
  }
}
