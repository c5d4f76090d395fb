/** The text helpers of Go's `strings` package the refs and the viewer use. */
module Texts {
  import opened Common

  /** `unicode.IsSpace`: the code points with the Unicode property White_Space. */
  predicate IsSpace(c: char) {
    || c == ' ' || '\t' <= c <= '\r' || c == '\U{85}' || c == '\U{A0}' || c == '\U{1680}'
    || '\U{2000}' <= c <= '\U{200A}' || c == '\U{2028}' || c == '\U{2029}' || c == '\U{202F}'
    || c == '\U{205F}' || c == '\U{3000}'
  }

  function TrimLeft(s: string): string {
    if |s| > 0 && IsSpace(s[0]) then TrimLeft(s[1..]) else s
  }

  function TrimRight(s: string): string {
    if |s| > 0 && IsSpace(s[|s| - 1]) then TrimRight(s[..|s| - 1]) else s
  }

  /** `strings.TrimSpace`. */
  function TrimSpace(s: string): string {
    TrimRight(TrimLeft(s))
  }

  /** Neither end is white space. */
  ghost predicate Trimmed(s: string) {
    |s| > 0 ==> !IsSpace(s[0]) && !IsSpace(s[|s| - 1])
  }

  lemma {:induction false} TrimRightShape(s: string)
    ensures var r := TrimRight(s); |r| <= |s| && r == s[..|r|] && (|r| > 0 ==> !IsSpace(r[|r| - 1]))
  {
    if |s| > 0 && IsSpace(s[|s| - 1]) {
      TrimRightShape(s[..|s| - 1]);
    }
  }

  lemma {:induction false} TrimLeftShape(s: string)
    ensures |TrimLeft(s)| > 0 ==> !IsSpace(TrimLeft(s)[0])
  {
    if |s| > 0 && IsSpace(s[0]) {
      TrimLeftShape(s[1..]);
    }
  }

  ghost predicate AllSpace(s: string) {
    forall i :: 0 <= i < |s| ==> IsSpace(s[i])
  }

  /** Nothing but white space is cut off, and all of it, at either end. */
  lemma TrimSpaceExactly(s: string) returns (before: string, after: string)
    ensures s == before + TrimSpace(s) + after && AllSpace(before) && AllSpace(after) && Trimmed(TrimSpace(s))
  {
    before := CutLeft(s);
    after := CutRight(TrimLeft(s));
    ConcatAssoc(before, TrimSpace(s), after);
    TrimSpaceTrims(s);
  }

  lemma {:induction false} CutLeft(s: string) returns (before: string)
    ensures s == before + TrimLeft(s) && AllSpace(before)
  {
    before := "";
    if |s| > 0 && IsSpace(s[0]) {
      var more := CutLeft(s[1..]);
      before := [s[0]] + more;
    }
  }

  lemma {:induction false} CutRight(s: string) returns (after: string)
    ensures s == TrimRight(s) + after && AllSpace(after)
  {
    after := "";
    if |s| > 0 && IsSpace(s[|s| - 1]) {
      var more := CutRight(s[..|s| - 1]);
      after := more + [s[|s| - 1]];
      ConcatAssoc(TrimRight(s), more, [s[|s| - 1]]);
    }
  }

  lemma TrimSpaceTrims(s: string)
    ensures Trimmed(TrimSpace(s))
    ensures Trimmed(s) ==> TrimSpace(s) == s
  {
    TrimLeftShape(s);
    TrimRightShape(TrimLeft(s));
  }

  /** What is used of `unicode.ToLower`: a lower-cased character stays as it is, and
      white space neither appears nor disappears. */
  ghost predicate Lowers(lower: char -> char) {
    forall c :: lower(lower(c)) == lower(c) && (IsSpace(lower(c)) <==> IsSpace(c))
  }

  function LowerAscii(c: char): char {
    if 'A' <= c <= 'Z' then c + ' ' else c
  }

  type Casing = lower: char -> char | Lowers(lower) witness LowerAscii

  /** `strings.ToLower`. */
  function ToLower(lower: Casing, s: string): (r: string)
    ensures |r| == |s| && forall i :: 0 <= i < |s| ==> r[i] == lower(s[i])
  {
    if |s| == 0 then "" else [lower(s[0])] + ToLower(lower, s[1..])
  }

  /** Trimming and lower-casing twice changes nothing more. */
  lemma NormalizeTwice(lower: Casing, s: string)
    ensures var n := ToLower(lower, TrimSpace(s)); ToLower(lower, TrimSpace(n)) == n
  {
    TrimSpaceTrims(s);
    LowerTwice(lower, TrimSpace(s));
    TrimSpaceTrims(ToLower(lower, TrimSpace(s)));
  }

  lemma LowerTwice(lower: Casing, s: string)
    ensures ToLower(lower, ToLower(lower, s)) == ToLower(lower, s)
    ensures Trimmed(s) ==> Trimmed(ToLower(lower, s))
  {
    var l := ToLower(lower, s);
    assert forall i :: 0 <= i < |l| ==> ToLower(lower, l)[i] == l[i];
  }

  /** Position of the first occurrence of `sub` in `s`, if there is one. */
  function Find(s: string, sub: string): (r: Option<nat>)
    ensures r.Some? ==> r.value + |sub| <= |s| && s[r.value..r.value + |sub|] == sub
  {
    if |s| < |sub| then None
    else if s[..|sub|] == sub then Some(0)
    else if |s| == 0 then None
    else
      match Find(s[1..], sub)
      case None => None
      case Some(i) => Some(i + 1)
  }

  ghost predicate OccursAt(s: string, sub: string, k: nat) {
    k + |sub| <= |s| && s[k..k + |sub|] == sub
  }

  /** It is the first, and there is none exactly when nothing is found. */
  lemma {:induction false} FindFirst(s: string, sub: string, k: nat)
    ensures OccursAt(s, sub, k) ==> Find(s, sub).Some? && Find(s, sub).value <= k
  {
    if OccursAt(s, sub, k) && s[..|sub|] != sub {
      assert s[1..][k - 1..k - 1 + |sub|] == s[k..k + |sub|];
      FindFirst(s[1..], sub, k - 1);
    }
  }

  /** Position of the first `c` in `s`, or its length. */
  function Index(s: string, c: char): (i: nat)
    ensures i <= |s| && (i < |s| ==> s[i] == c)
  {
    if |s| == 0 || s[0] == c then 0 else 1 + Index(s[1..], c)
  }

  lemma {:induction false} IndexFirst(s: string, c: char)
    ensures Free(s[..Index(s, c)], c)
  {
    if |s| > 0 && s[0] != c {
      IndexFirst(s[1..], c);
      assert s[..Index(s, c)] == [s[0]] + s[1..][..Index(s[1..], c)];
    }
  }

  /** A `c` that none precedes is the first. */
  lemma {:induction false} IndexIs(s: string, c: char, i: nat)
    requires i <= |s| && Free(s[..i], c) && (i < |s| ==> s[i] == c)
    ensures Index(s, c) == i
  {
    if i > 0 {
      assert s[..i][0] == s[0];
      assert s[1..][..i - 1] == s[..i][1..];
      IndexIs(s[1..], c, i - 1);
    }
  }

  predicate HasSuffix(s: string, suffix: string) {
    |suffix| <= |s| && s[|s| - |suffix|..] == suffix
  }

  predicate Free(s: string, c: char) {
    forall i :: 0 <= i < |s| ==> s[i] != c
  }

  lemma IndexAt(a: string, c: char, b: string)
    requires Free(a, c)
    ensures Index(a + [c] + b, c) == |a|
  {
    assert (a + [c] + b)[..|a|] == a;
    IndexIs(a + [c] + b, c, |a|);
  }

  lemma {:induction false} IndexBefore(s: string, c: char, k: nat)
    requires k < |s| && s[k] == c
    ensures Index(s, c) <= k
  {
    if k > 0 && s[0] != c {
      IndexBefore(s[1..], c, k - 1);
    }
  }
}
