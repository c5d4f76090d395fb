/** Content digests (cas/digest.go): opaque bytes whose text form is lowercase
    hex, as in section 8 of RFC 4648. The empty sequence is the absent digest. */
module Digests {
  import opened Common

  type Digest = seq<byte>

  predicate IsZero(d: Digest) {
    |d| == 0
  }

  /** An absent digest equals nothing, not even another absent one. */
  predicate Equal(d: Digest, other: Digest) {
    !IsZero(d) && !IsZero(other) && d == other
  }

  predicate LowerHexChar(c: char) {
    '0' <= c <= '9' || 'a' <= c <= 'f'
  }

  function HexDigit(n: int): char
    requires 0 <= n < 16
  {
    if n < 10 then '0' + n as char else 'a' + (n - 10) as char
  }

  lemma HexAlphabet(n: int)
    requires 0 <= n < 16
    ensures HexDigit(n) == "0123456789abcdef"[n]
  {
  }

  function Nibble(c: char): (n: int)
    requires LowerHexChar(c)
    ensures 0 <= n < 16 && HexDigit(n) == c
  {
    if c <= '9' then c as int - '0' as int else c as int - 'a' as int + 10
  }

  /** `Digest.String`. */
  function Text(d: Digest): (s: string)
    ensures |s| == 2 * |d|
    ensures forall i :: 0 <= i < |s| ==> LowerHexChar(s[i])
  {
    if |d| == 0 then ""
    else [HexDigit(d[0] / 16), HexDigit(d[0] % 16)] + Text(d[1..])
  }

  /** Two digits a byte, the high half first. */
  lemma {:induction false} TextAt(d: Digest, k: nat)
    requires k < |d|
    ensures Text(d)[2 * k] == HexDigit(d[k] / 16) && Text(d)[2 * k + 1] == HexDigit(d[k] % 16)
  {
    if k > 0 {
      TextAt(d[1..], k - 1);
    }
  }

  predicate HexShaped(s: string) {
    |s| % 2 == 0 && forall i :: 0 <= i < |s| ==> LowerHexChar(s[i])
  }

  function Unhex(s: string): Digest
    requires HexShaped(s)
  {
    if |s| == 0 then [] else [16 * Nibble(s[0]) + Nibble(s[1])] + Unhex(s[2..])
  }

  /** `Digest.UnmarshalText`: the empty text is the absent digest. */
  function UnmarshalText(s: string): Result<Digest> {
    if HexShaped(s) then Ok(Unhex(s)) else Err(InvalidDigest)
  }

  /** `ParseDigest`: the same parse, refusing the absent digest. */
  function ParseDigest(s: string): Result<Digest> {
    if s != "" then UnmarshalText(s) else Err(InvalidDigest)
  }

  lemma {:induction false} UnhexText(d: Digest)
    ensures Unhex(Text(d)) == d
  {
    if |d| > 0 {
      UnhexText(d[1..]);
      assert Text(d)[2..] == Text(d[1..]);
    }
  }

  lemma {:induction false} TextUnhex(s: string)
    requires HexShaped(s)
    ensures Text(Unhex(s)) == s
  {
    if |s| > 0 {
      TextUnhex(s[2..]);
      var d := Unhex(s);
      assert d[0] / 16 == Nibble(s[0]) && d[0] % 16 == Nibble(s[1]);
      assert d[1..] == Unhex(s[2..]);
      assert s == [s[0], s[1]] + s[2..];
    }
  }

  /** Text and digest determine each other: a digest's text parses to it, and a
      text parses to a digest only if it is that digest's own text, so legacy or
      upper-case spellings are refused rather than reinterpreted. */
  lemma ParseDigestExact(s: string, d: Digest)
    ensures ParseDigest(s) == Ok(d) <==> s == Text(d) && !IsZero(d)
    ensures UnmarshalText(s) == Ok(d) <==> s == Text(d)
  {
    UnhexText(d);
    if HexShaped(s) {
      TextUnhex(s);
    }
  }

  /** Hex keys identify digests: the `map[string]bool` sets the sweep is given
      are sets of digests. */
  lemma TextInjective(a: Digest, b: Digest)
    ensures Text(a) == Text(b) <==> a == b
  {
    UnhexText(a);
    UnhexText(b);
  }

  lemma {:induction false} UnhexIndex(s: string, k: nat)
    requires HexShaped(s) && 2 * k < |s|
    ensures |Unhex(s)| == |s| / 2
    ensures Unhex(s)[k] == 16 * Nibble(s[2 * k]) + Nibble(s[2 * k + 1])
    decreases |s|
  {
    if |s| > 2 {
      UnhexIndex(s[2..], if k > 0 then k - 1 else 0);
    }
  }

  method IsLowerHex(b: string) returns (r: bool)
    ensures r <==> |b| > 0 && forall i :: 0 <= i < |b| ==> LowerHexChar(b[i])
  {
    if |b| == 0 {
      return false;
    }
    for i := 0 to |b|
      invariant forall k :: 0 <= k < i ==> LowerHexChar(b[k])
    {
      if (b[i] < '0' || b[i] > '9') && (b[i] < 'a' || b[i] > 'f') {
        return false;
      }
    }
    return true;
  }

  /** `UnmarshalText` as written: a shape check, then a decoding loop. */
  method Unmarshal(b: string) returns (r: Result<Digest>)
    ensures r == UnmarshalText(b)
  {
    if |b| == 0 {
      return Ok([]);
    }
    var lower := IsLowerHex(b);
    if |b| % 2 != 0 || !lower {
      return Err(InvalidDigest);
    }
    var raw: Digest := [];
    var i := 0;
    while i < |b|
      invariant 0 <= i <= |b| && |raw| * 2 == i
      invariant forall k :: 0 <= k < |raw| ==> raw[k] == 16 * Nibble(b[2 * k]) + Nibble(b[2 * k + 1])
    {
      raw := raw + [16 * Nibble(b[i]) + Nibble(b[i + 1])];
      i := i + 2;
    }
    forall k | 0 <= k < |raw|
      ensures |Unhex(b)| == |raw| && raw[k] == Unhex(b)[k]
    {
      UnhexIndex(b, k);
    }
    UnhexIndex(b, 0);
    assert raw == Unhex(b);
    return Ok(raw);
  }
}
