/** Values shared by every component: bytes, optional values, results and the
    error conditions the packages distinguish. */
module Common {

  type byte = x: int | 0 <= x < 256

  datatype Option<+T> = None | Some(value: T)

  /** The sentinel errors of `cas` and `cas/refs`, a cancelled context, and any
      other failure a backend, codec or visitor may report. */
  datatype Error =
    | Cancelled
    | NotFound
    | InvalidDigest
    | DigestMismatch
    | UnknownType
    | Corrupt
    | CodecMismatch
    | Unsupported
    | InvalidName
    | Other(code: int)

  datatype Result<+T> = Ok(value: T) | Err(error: Error) {
    predicate IsFailure() {
      Err?
    }

    function PropagateFailure<U>(): Result<U>
      requires Err?
    {
      Err(error)
    }

    function Extract(): T
      requires Ok?
    {
      value
    }
  }

  /** The first `checks` looks at a context all found it alive. */
  ghost predicate Alive(done: nat -> bool, checks: nat) {
    forall k: nat :: k < checks ==> !done(k)
  }

  lemma AliveStill(done: nat -> bool, checks: nat)
    requires Alive(done, checks) && !done(checks)
    ensures Alive(done, checks + 1)
  {
  }

  ghost function Elems<T>(s: seq<T>): set<T> {
    set x | x in s
  }

  lemma ConcatAssoc<T>(a: seq<T>, b: seq<T>, c: seq<T>)
    ensures a + (b + c) == a + b + c
  {
  }

  lemma CutAt<T>(s: seq<T>, i: nat)
    ensures i < |s| ==> s == s[..i] + [s[i]] + s[i + 1..]
  {
  }

  lemma DropPrefix<T>(a: seq<T>, b: seq<T>)
    ensures (a + b)[|a|..] == b
  {
  }

  /** A listing is at least as long as the set it covers. */
  lemma {:induction false} CoverLength<T>(s: set<T>, list: seq<T>)
    requires forall x :: x in s ==> x in list
    ensures |s| <= |list|
    decreases |list|
  {
    if |list| > 0 {
      CoverLength(s - {list[0]}, list[1..]);
    }
  }

  /** The members of `list` that belong to `keep`, in their order. */
  ghost function Restrict<T>(list: seq<T>, keep: iset<T>): seq<T> {
    if |list| == 0 then []
    else if list[0] in keep then [list[0]] + Restrict(list[1..], keep)
    else Restrict(list[1..], keep)
  }

  lemma {:induction false} RestrictSnoc<T>(list: seq<T>, x: T, keep: iset<T>)
    ensures Restrict(list + [x], keep) == Restrict(list, keep) + if x in keep then [x] else []
  {
    if |list| > 0 {
      RestrictSnoc(list[1..], x, keep);
      assert (list + [x])[1..] == list[1..] + [x];
    }
  }

  lemma {:induction false} RestrictMember<T>(list: seq<T>, keep: iset<T>, x: T)
    ensures x in Restrict(list, keep) <==> x in list && x in keep
  {
    if |list| > 0 {
      RestrictMember(list[1..], keep, x);
    }
  }

  lemma RestrictMembers<T>(list: seq<T>, keep: iset<T>)
    ensures forall x :: x in Restrict(list, keep) <==> x in list && x in keep
  {
    forall x ensures x in Restrict(list, keep) <==> x in list && x in keep {
      RestrictMember(list, keep, x);
    }
  }

  /** Each member occurs as often as in the list, and nothing else at all. */
  lemma {:induction false} RestrictCounts<T>(list: seq<T>, keep: iset<T>, x: T)
    ensures multiset(Restrict(list, keep))[x] == if x in keep then multiset(list)[x] else 0
  {
    if |list| > 0 {
      RestrictCounts(list[1..], keep, x);
      assert list == [list[0]] + list[1..];
    }
  }

  /** The positions, in increasing order, of `list` that give `part`. */
  ghost predicate Positions<T>(part: seq<T>, list: seq<T>, at: seq<nat>) {
    && |at| == |part|
    && (forall i :: 0 <= i < |at| ==> at[i] < |list| && part[i] == list[at[i]])
    && (forall i, j :: 0 <= i < j < |at| ==> at[i] < at[j])
  }

  lemma {:induction false} RestrictPositions<T>(list: seq<T>, keep: iset<T>) returns (at: seq<nat>)
    ensures Positions(Restrict(list, keep), list, at)
  {
    if |list| == 0 {
      at := [];
    } else {
      var rest := RestrictPositions(list[1..], keep);
      var later: seq<nat> := seq(|rest|, i requires 0 <= i < |rest| => rest[i] + 1);
      PositionsLater(Restrict(list[1..], keep), list, rest, later);
      at := later;
      if list[0] in keep {
        at := [0] + later;
        PositionsFirst(Restrict(list[1..], keep), list, later);
      }
    }
  }

  lemma PositionsLater<T>(part: seq<T>, list: seq<T>, rest: seq<nat>, later: seq<nat>)
    requires |list| > 0 && Positions(part, list[1..], rest)
    requires |later| == |rest| && forall i :: 0 <= i < |rest| ==> later[i] == rest[i] + 1
    ensures Positions(part, list, later) && forall i :: 0 <= i < |later| ==> later[i] > 0
  {
    forall i | 0 <= i < |later| ensures later[i] < |list| && part[i] == list[later[i]] {
      assert list[1..][rest[i]] == list[rest[i] + 1];
    }
    forall i, j | 0 <= i < j < |later| ensures later[i] < later[j] {
      assert rest[i] < rest[j];
    }
  }

  lemma PositionsFirst<T>(part: seq<T>, list: seq<T>, later: seq<nat>)
    requires |list| > 0 && Positions(part, list, later) && forall i :: 0 <= i < |later| ==> later[i] > 0
    ensures Positions([list[0]] + part, list, [0] + later)
  {
    var at := [0] + later;
    forall i, j | 0 <= i < j < |at| ensures at[i] < at[j] {
      assert at[j] == later[j - 1] && (i > 0 ==> at[i] == later[i - 1]);
    }
  }

  ghost predicate NoDuplicates<T>(s: seq<T>) {
    forall i, j :: 0 <= i < j < |s| ==> s[i] != s[j]
  }

  lemma NoDuplicatesAppend<T>(a: seq<T>, b: seq<T>)
    requires NoDuplicates(a) && NoDuplicates(b) && Elems(a) !! Elems(b)
    ensures NoDuplicates(a + b)
  {
    forall i, j | 0 <= i < j < |a + b|
      ensures (a + b)[i] != (a + b)[j]
    {
      if i < |a| <= j {
        assert a[i] in Elems(a) && b[j - |a|] in Elems(b);
      }
    }
  }

  function Reverse<T>(s: seq<T>): seq<T> {
    if |s| == 0 then [] else Reverse(s[1..]) + [s[0]]
  }

  lemma {:induction false} ReverseAppend<T>(a: seq<T>, b: seq<T>)
    ensures Reverse(a + b) == Reverse(b) + Reverse(a)
  {
    if |a| == 0 {
      assert a + b == b && Reverse(b) + [] == Reverse(b);
    } else {
      ReverseAppend(a[1..], b);
      assert (a + b)[0] == a[0] && (a + b)[1..] == a[1..] + b;
    }
  }

  lemma {:induction false} ReverseReverse<T>(s: seq<T>)
    ensures Reverse(Reverse(s)) == s
  {
    if |s| > 0 {
      ReverseReverse(s[1..]);
      ReverseAppend(Reverse(s[1..]), [s[0]]);
      assert Reverse([s[0]]) == [s[0]];
    }
  }

  /** The last comes first. */
  lemma ReverseFirst<T>(s: seq<T>)
    requires |s| > 0
    ensures |Reverse(s)| > 0 && Reverse(s)[0] == s[|s| - 1]
  {
    var last := s[|s| - 1];
    assert s == s[..|s| - 1] + [last];
    ReverseAppend(s[..|s| - 1], [last]);
    assert Reverse([last]) == [last];
  }

  /** Mirrored element by element means reversed. */
  lemma {:induction false} ReversedIs<T>(s: seq<T>, before: seq<T>)
    requires |s| == |before| && forall k :: 0 <= k < |s| ==> s[k] == before[|s| - 1 - k]
    ensures s == Reverse(before)
  {
    if |s| > 0 {
      var n := |s| - 1;
      ReversedIs(s[..n], before[1..]);
      assert s == s[..n] + [s[n]];
    }
  }

  lemma {:induction false} ReverseElems<T>(s: seq<T>)
    ensures Elems(Reverse(s)) == Elems(s)
  {
    if |s| > 0 {
      ReverseElems(s[1..]);
      assert Elems(s) == {s[0]} + Elems(s[1..]);
      assert Elems(Reverse(s)) == Elems(Reverse(s[1..])) + {s[0]};
    }
  }
}
