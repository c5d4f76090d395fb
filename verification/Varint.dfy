/** Base-128 varints as Go's `encoding/binary` writes and reads them: the
    "Base 128 Varints" of the Protocol Buffers encoding, at most 64 bits. */
module Varint {
  import opened Common

  const MAX_LEN := 10

  /** A decoded value and the number of bytes it occupied. */
  datatype Decoded = Decoded(value: nat, size: nat)

  function PutUvarint(x: nat): (r: seq<byte>)
    ensures |r| >= 1
  {
    if x < 128 then [x] else [x % 128 + 128] + PutUvarint(x / 128)
  }

  /** `binary.Uvarint` after `i` bytes of the number: `None` is its n <= 0, a
      truncated number or one above 64 bits. */
  function Uvarint(buf: seq<byte>, i: nat): (r: Option<Decoded>)
    requires i <= MAX_LEN
    ensures r.Some? ==> 1 <= r.value.size <= |buf|
    decreases |buf|
  {
    if |buf| == 0 || i == MAX_LEN then None
    else if buf[0] < 128 then
      if i == MAX_LEN - 1 && buf[0] > 1 then None else Some(Decoded(buf[0], 1))
    else
      match Uvarint(buf[1..], i + 1)
      case None => None
      case Some(rest) => Some(Decoded(buf[0] - 128 + 128 * rest.value, rest.size + 1))
  }

  /** What is left of the 64-bit range after `i` bytes. */
  function Room(i: nat): nat
    requires i < MAX_LEN
    decreases MAX_LEN - i
  {
    if i == MAX_LEN - 1 then 2 else 128 * Room(i + 1)
  }

  lemma RoomIs64Bits()
    ensures Room(0) == 0x1_0000_0000_0000_0000
  {
    assert Room(9) == 2;
    assert Room(8) == 128 * 2;
    assert Room(7) == 128 * 128 * 2;
    assert Room(6) == 128 * 128 * 128 * 2;
    assert Room(5) == 128 * Room(6);
    assert Room(4) == 128 * Room(5);
    assert Room(3) == 128 * Room(4);
    assert Room(2) == 128 * Room(3);
    assert Room(1) == 128 * Room(2);
    assert Room(0) == 128 * Room(1);
  }

  lemma {:induction false} UvarintPut(x: nat, i: nat, rest: seq<byte>)
    requires i < MAX_LEN && x < Room(i)
    ensures Uvarint(PutUvarint(x) + rest, i) == Some(Decoded(x, |PutUvarint(x)|))
    decreases x
  {
    if x < 128 {
      UvarintLast(x, i, rest);
    } else {
      UvarintPut(x / 128, i + 1, rest);
      UvarintMore(x % 128 + 128, i, PutUvarint(x / 128) + rest);
      ConcatAssoc([x % 128 + 128], PutUvarint(x / 128), rest);
    }
  }

  lemma UvarintLast(b: byte, i: nat, rest: seq<byte>)
    requires i < MAX_LEN && b < 128 && (i == MAX_LEN - 1 ==> b < 2)
    ensures Uvarint([b] + rest, i) == Some(Decoded(b, 1))
  {
  }

  lemma UvarintMore(b: byte, i: nat, rest: seq<byte>)
    requires i < MAX_LEN && b >= 128
    ensures Uvarint([b] + rest, i) ==
            match Uvarint(rest, i + 1)
            case None => None
            case Some(d) => Some(Decoded(b - 128 + 128 * d.value, d.size + 1))
  {
    assert ([b] + rest)[1..] == rest;
  }

  /** Every 64-bit length reads back, whatever follows it. */
  lemma UvarintRoundTrip(x: nat, rest: seq<byte>)
    requires x < 0x1_0000_0000_0000_0000
    ensures Uvarint(PutUvarint(x) + rest, 0) == Some(Decoded(x, |PutUvarint(x)|))
  {
    RoomIs64Bits();
    UvarintPut(x, 0, rest);
  }

  /** One number's bytes: the high bit is set on all but the last. */
  ghost predicate Delimited(s: seq<byte>) {
    |s| > 0 && s[|s| - 1] < 128 && forall k :: 0 <= k < |s| - 1 ==> s[k] >= 128
  }

  /** The low seven bits of the bytes as digits to base 128, least significant first. */
  ghost function Digits128(s: seq<byte>): nat {
    if |s| == 0 then 0 else s[0] % 128 + 128 * Digits128(s[1..])
  }

  /** The encoding: the number's digits, as few as there can be. */
  lemma {:induction false} PutUvarintDigits(x: nat)
    ensures var s := PutUvarint(x);
            Delimited(s) && Digits128(s) == x && (|s| > 1 ==> s[|s| - 1] != 0)
    decreases x
  {
    if x >= 128 {
      PutUvarintDigits(x / 128);
      var s, t := PutUvarint(x), PutUvarint(x / 128);
      assert s[1..] == t && s[|s| - 1] == t[|t| - 1];
      assert forall k :: 0 < k < |s| - 1 ==> s[k] == t[k - 1];
    }
  }

  /** The decoding: exactly the delimited runs of at most ten bytes whose digits make
      a 64-bit number, redundant leading zeros included. */
  lemma UvarintExactly(buf: seq<byte>, v: nat, n: nat)
    ensures Uvarint(buf, 0) == Some(Decoded(v, n)) <==>
            && n <= |buf| && n <= MAX_LEN && Delimited(buf[..n])
            && Digits128(buf[..n]) == v < 0x1_0000_0000_0000_0000
  {
    RoomIs64Bits();
    UvarintFrom(buf, 0, v, n);
  }

  lemma {:induction false} UvarintFrom(buf: seq<byte>, i: nat, v: nat, n: nat)
    requires i < MAX_LEN
    ensures Uvarint(buf, i) == Some(Decoded(v, n)) <==>
            && n <= |buf| && n + i <= MAX_LEN && Delimited(buf[..n])
            && Digits128(buf[..n]) == v < Room(i)
    decreases MAX_LEN - i
  {
    if |buf| > 0 && n > 0 && n <= |buf| {
      var s := buf[..n];
      if buf[0] < 128 {
        RoomEnough(i);
        assert n > 1 ==> s[0] < 128;
        assert n == 1 ==> s[1..] == [];
      } else if i + 1 < MAX_LEN {
        assert s[1..] == buf[1..][..n - 1];
        UvarintFrom(buf[1..], i + 1, Digits128(s[1..]), n - 1);
        var rest := Uvarint(buf[1..], i + 1);
        if rest.Some? {
          UvarintFrom(buf[1..], i + 1, rest.value.value, rest.value.size);
        }
        DelimitedTail(s);
      }
    }
  }

  lemma RoomEnough(i: nat)
    requires i < MAX_LEN
    ensures i == MAX_LEN - 1 ==> Room(i) == 2
    ensures i < MAX_LEN - 1 ==> Room(i) >= 128
    decreases MAX_LEN - i
  {
    if i < MAX_LEN - 1 {
      RoomEnough(i + 1);
    }
  }

  lemma DelimitedTail(s: seq<byte>)
    requires |s| > 0 && s[0] >= 128
    ensures Delimited(s) <==> Delimited(s[1..])
  {
    if Delimited(s) {
      assert forall k :: 0 <= k < |s| - 2 ==> s[1..][k] == s[k + 1];
    }
    if Delimited(s[1..]) {
      assert forall k :: 0 < k < |s| - 1 ==> s[k] == s[1..][k - 1];
    }
  }

  /** Parsing depends only on the bytes it consumes. */
  lemma {:induction false} UvarintLocal(a: seq<byte>, b: seq<byte>, i: nat, v: Decoded)
    requires i <= MAX_LEN
    ensures Uvarint(a, i) == Some(v) <==> Uvarint(a + b, i) == Some(v) && v.size <= |a|
    decreases MAX_LEN - i
  {
    if |a| > 0 && i < MAX_LEN && a[0] >= 128 {
      assert (a + b)[1..] == a[1..] + b;
      var r, s := Uvarint(a[1..], i + 1), Uvarint(a[1..] + b, i + 1);
      if r.Some? {
        UvarintLocal(a[1..], b, i + 1, r.value);
      }
      if s.Some? {
        UvarintLocal(a[1..], b, i + 1, s.value);
      }
    }
  }

  lemma PutUvarintShort(x: nat)
    requires x < 128 * 128
    ensures |PutUvarint(x)| == if x < 128 then 1 else 2
  {
    if x >= 128 {
      assert |PutUvarint(x / 128)| == 1;
    }
  }

  /** `s` with `written` in place of what stood at `off`. */
  ghost function Splice(s: seq<byte>, off: nat, written: seq<byte>): seq<byte>
    requires off + |written| <= |s|
  {
    s[..off] + written + s[off + |written|..]
  }

  lemma SpliceNext(s: seq<byte>, off: nat, written: seq<byte>, b: byte)
    requires off + |written| < |s|
    ensures Splice(s, off, written)[off + |written| := b] == Splice(s, off, written + [b])
  {
  }

  /** `binary.PutUvarint`, into a buffer at an offset. */
  method WriteUvarint(out: array<byte>, off: nat, x: nat) returns (n: nat)
    requires off + |PutUvarint(x)| <= out.Length
    modifies out
    ensures n == |PutUvarint(x)|
    ensures out[..] == Splice(old(out[..]), off, PutUvarint(x))
  {
    var rest := x;
    ghost var written: seq<byte> := [];
    n := 0;
    while rest >= 128
      invariant |written| == n && written + PutUvarint(rest) == PutUvarint(x)
      invariant off + n < out.Length
      invariant out[..] == Splice(old(out[..]), off, written)
      decreases rest
    {
      SpliceNext(old(out[..]), off, written, rest % 128 + 128);
      out[off + n] := rest % 128 + 128;
      ConcatAssoc(written, [rest % 128 + 128], PutUvarint(rest / 128));
      written := written + [rest % 128 + 128];
      rest := rest / 128;
      n := n + 1;
    }
    SpliceNext(old(out[..]), off, written, rest);
    out[off + n] := rest;
    n := n + 1;
  }

  /** Go's `copy` into a buffer at an offset. */
  method CopyBytes(out: array<byte>, off: nat, bytes: seq<byte>)
    requires off + |bytes| <= out.Length
    modifies out
    ensures out[..] == Splice(old(out[..]), off, bytes)
  {
    for i := 0 to |bytes|
      invariant out[..] == Splice(old(out[..]), off, bytes[..i])
    {
      SpliceNext(old(out[..]), off, bytes[..i], bytes[i]);
      assert bytes[..i + 1] == bytes[..i] + [bytes[i]];
      out[off + i] := bytes[i];
    }
    assert bytes[..|bytes|] == bytes;
  }
}
