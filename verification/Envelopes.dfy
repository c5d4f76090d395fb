/** The TLV envelope (cas/envelope.go): one writer, a byte-slice reader and a
    streaming reader over the same layout
    [version][codec length][codec][type length][type][payload length][payload].
    Strings are their bytes. */
module Envelopes {
  import opened Common
  import opened Varint
  import opened Streams
  import opened Digests
  import opened Backends

  const VERSION: byte := 2
  const VERSION_1: byte := 1
  const AT: byte := 64  // '@'
  const MAX_PEEK_NAME := 4096
  const HEADER_PREFIX_LIMIT := 2 * MAX_PEEK_NAME

  type Name = seq<byte>

  datatype Envelope = Envelope(typeName: Name, codec: Name, data: seq<byte>)

  /** A parsed header: the type name as stored, and where the header ends. */
  datatype Header = Header(version: byte, codec: Name, stored: Name, size: nat) {
    /** The type name as reported: a legacy unversioned name reads as "@1". */
    function TypeName(): Name {
      if AT in stored then stored else stored + [AT, 49]
    }
  }

  // ---- The writer --------------------------------------------------------------

  function LengthPrefixed(bytes: seq<byte>): seq<byte> {
    PutUvarint(|bytes|) + bytes
  }

  function HeaderBytes(codec: Name, typ: Name): seq<byte> {
    [VERSION] + LengthPrefixed(codec) + LengthPrefixed(typ)
  }

  function Frame(codec: Name, typ: Name, payload: seq<byte>): seq<byte> {
    HeaderBytes(codec, typ) + LengthPrefixed(payload)
  }

  lemma SplicePrefix(s: seq<byte>, off: nat, w: seq<byte>)
    requires off + |w| <= |s|
    ensures |Splice(s, off, w)| == |s| && Splice(s, off, w)[..off + |w|] == s[..off] + w
  {
  }

  /** Writes one length-prefixed field at `off`. */
  method WriteField(out: array<byte>, off: nat, bytes: seq<byte>) returns (next: nat)
    requires off + |LengthPrefixed(bytes)| <= out.Length
    modifies out
    ensures next == off + |LengthPrefixed(bytes)|
    ensures out[..next] == old(out[..off]) + LengthPrefixed(bytes)
  {
    SplicePrefix(out[..], off, PutUvarint(|bytes|));
    assert out[..][..off] == out[..off];
    var n := WriteUvarint(out, off, |bytes|);
    assert out[..][..off + n] == old(out[..off]) + PutUvarint(|bytes|);
    SplicePrefix(out[..], off + n, bytes);
    CopyBytes(out, off + n, bytes);
    next := off + n + |bytes|;
    ConcatAssoc(old(out[..off]), PutUvarint(|bytes|), bytes);
    assert out[..][..next] == out[..next];
  }

  /** `EncodeEnvelope`: refuses unversioned names, else fills one buffer of the
      length known up front. */
  method EncodeEnvelope(codec: Name, typ: Name, payload: seq<byte>) returns (r: Result<seq<byte>>)
    ensures r == if AT in typ then Ok(Frame(codec, typ, payload)) else Err(UnknownType)
  {
    if typ == [] {
      return Err(UnknownType);
    }
    if AT !in typ {
      return Err(UnknownType);
    }
    var nCodec, nType, nPayload := |PutUvarint(|codec|)|, |PutUvarint(|typ|)|, |PutUvarint(|payload|)|;
    var total := 1 + nCodec + |codec| + nType + |typ| + nPayload + |payload|;
    var out := new byte[total];
    out[0] := VERSION;
    assert out[..1] == [VERSION];
    var off := WriteField(out, 1, codec);
    off := WriteField(out, off, typ);
    off := WriteField(out, off, payload);
    assert out[..off] == out[..];
    return Ok(out[..]);
  }

  // ---- The byte-slice reader -------------------------------------------------------

  datatype Field = Field(bytes: seq<byte>, size: nat)

  /** A length-prefixed field at the start of `buf`, if it fits. */
  function TakeField(buf: seq<byte>): (r: Option<Field>)
    ensures r.Some? ==> r.value.size <= |buf|
  {
    match Uvarint(buf, 0)
    case None => None
    case Some(len) =>
      if len.value > |buf| - len.size then None
      else Some(Field(buf[len.size..len.size + len.value], len.size + len.value))
  }

  /** `decodeEnvelopeHeader`. */
  function DecodeHeader(data: seq<byte>): (r: Result<Header>)
    ensures r.Ok? ==> r.value.size <= |data|
  {
    if |data| < 1 then Err(Corrupt)
    else if data[0] == VERSION then
      match TakeField(data[1..])
      case None => Err(Corrupt)
      case Some(codec) => DecodeType(data, codec.bytes, 1 + codec.size)
    else if data[0] == VERSION_1 then DecodeType(data, [], 1)
    else Err(Corrupt)
  }

  function DecodeType(data: seq<byte>, codec: Name, off: nat): Result<Header>
    requires 1 <= off <= |data|
  {
    match TakeField(data[off..])
    case None => Err(Corrupt)
    case Some(name) =>
      if |name.bytes| == 0 then Err(Corrupt)
      else Ok(Header(data[0], codec, name.bytes, off + name.size))
  }

  /** `decodeEnvelope`: bytes after the declared payload are ignored. */
  function DecodeEnvelope(data: seq<byte>): Result<Envelope> {
    match DecodeHeader(data)
    case Err(error) => Err(error)
    case Ok(h) =>
      match TakeField(data[h.size..])
      case None => Err(Corrupt)
      case Some(payload) => Ok(Envelope(h.TypeName(), h.codec, payload.bytes))
  }

  lemma TakeFieldLocal(a: seq<byte>, b: seq<byte>, f: Field)
    ensures TakeField(a) == Some(f) <==> TakeField(a + b) == Some(f) && f.size <= |a|
  {
    var r, s := Uvarint(a, 0), Uvarint(a + b, 0);
    if r.Some? {
      UvarintLocal(a, b, 0, r.value);
    }
    if s.Some? {
      UvarintLocal(a, b, 0, s.value);
      if s.value.size + s.value.value <= |a| {
        assert (a + b)[s.value.size..s.value.size + s.value.value] == a[s.value.size..s.value.size + s.value.value];
      }
    }
  }

  lemma TakeFieldWritten(bytes: seq<byte>, rest: seq<byte>)
    requires |bytes| < 0x1_0000_0000_0000_0000
    ensures TakeField(LengthPrefixed(bytes) + rest) == Some(Field(bytes, |LengthPrefixed(bytes)|))
  {
    var n := |PutUvarint(|bytes|)|;
    ConcatAssoc(PutUvarint(|bytes|), bytes, rest);
    UvarintRoundTrip(|bytes|, bytes + rest);
    assert (PutUvarint(|bytes|) + (bytes + rest))[n..n + |bytes|] == bytes;
  }

  // ---- The streaming reader ----------------------------------------------------------

  /** What `readPeekName` makes of the bytes ahead. */
  function PeekField(buf: seq<byte>, allowEmpty: bool): (r: Option<Field>)
    ensures r.Some? ==> r.value.size <= |buf|
  {
    match Uvarint(buf, 0)
    case None => None
    case Some(len) =>
      if len.value > MAX_PEEK_NAME then None
      else if len.value == 0 then if allowEmpty then Some(Field([], len.size)) else None
      else if len.size + len.value <= |buf| then
        Some(Field(buf[len.size..len.size + len.value], len.size + len.value))
      else None
  }

  /** What `peekHeader` makes of a stream that supplies `data`. */
  function PeekHeader(data: seq<byte>): Result<Header> {
    if |data| < 1 then Err(Corrupt)
    else if data[0] != VERSION && data[0] != VERSION_1 then Err(Corrupt)
    else
      var codec := if data[0] == VERSION then PeekField(data[1..], true) else Some(Field([], 0));
      if codec.None? then Err(Corrupt) else
      var off := 1 + codec.value.size;
      match PeekField(data[off..], false)
      case None => Err(Corrupt)
      case Some(name) => Ok(Header(data[0], codec.value.bytes, name.bytes, off + name.size))
  }

  method ReadByte(src: Source) returns (b: Option<byte>)
    requires src.Valid()
    modifies src
    ensures src.Valid()
    ensures if old(src.pos) < |src.Supply()| then
              b == Some(src.Supply()[old(src.pos)]) && src.pos == old(src.pos) + 1
            else b == None
  {
    var one, ok := src.ReadFull(1);
    return if ok then Some(one[0]) else None;
  }

  /** `binary.ReadUvarint` after `i` bytes of the number: it reads on, byte by
      byte, exactly as far as the number goes. */
  method ReadUvarint(src: Source, i: nat) returns (r: Option<nat>)
    requires src.Valid() && i <= MAX_LEN
    modifies src
    ensures src.Valid()
    ensures match Uvarint(src.Supply()[old(src.pos)..], i)
            case None => r == None
            case Some(v) => r == Some(v.value) && src.pos == old(src.pos) + v.size
    decreases MAX_LEN - i
  {
    if i == MAX_LEN {
      return None;
    }
    ghost var ahead := src.Supply()[src.pos..];
    var one := ReadByte(src);
    if one.None? {
      return None;
    }
    var b: int := one.value;
    if b < 128 {
      return if i == MAX_LEN - 1 && b > 1 then None else Some(b);
    }
    assert ahead[1..] == src.Supply()[src.pos..];
    var rest := ReadUvarint(src, i + 1);
    return if rest.Some? then Some(b - 128 + 128 * rest.value) else None;
  }

  /** `readPeekName`. */
  method ReadPeekName(src: Source, allowEmpty: bool) returns (r: Option<Name>)
    requires src.Valid()
    modifies src
    ensures src.Valid()
    ensures var f := PeekField(src.Supply()[old(src.pos)..], allowEmpty);
            match f
            case None => r == None
            case Some(field) => r == Some(field.bytes) && src.pos == old(src.pos) + field.size
  {
    ghost var all := src.Supply()[src.pos..];
    var len := ReadUvarint(src, 0);
    if len.None? {
      return None;
    }
    if len.value > MAX_PEEK_NAME {
      return None;
    }
    if len.value == 0 {
      return if allowEmpty then Some([]) else None;
    }
    ghost var n := Uvarint(all, 0).value.size;
    var name, ok := src.ReadFull(len.value);
    if !ok {
      return None;
    }
    assert name == all[n..n + len.value];
    return Some(name);
  }

  /** `PeekHeader` over any source: the answer depends only on the bytes supplied,
      not on how they are chunked, and exactly the header is consumed. */
  method Peek(src: Source) returns (r: Result<Header>)
    requires src.Valid() && src.pos == 0
    modifies src
    ensures src.Valid()
    ensures r == PeekHeader(src.Supply())
    ensures r.Ok? ==> src.pos == r.value.size
  {
    ghost var data := src.Supply();
    var version, ok := src.ReadFull(1);
    if !ok {
      return Err(Corrupt);
    }
    assert version[0] == data[0];
    if version[0] != VERSION && version[0] != VERSION_1 {
      return Err(Corrupt);
    }
    var codec: Option<Name> := Some([]);
    if version[0] == VERSION {
      codec := ReadPeekName(src, true);
      if codec.None? {
        return Err(Corrupt);
      }
    }
    var name := ReadPeekName(src, false);
    if name.None? {
      return Err(Corrupt);
    }
    return Ok(Header(version[0], codec.value, name.value, src.pos));
  }

  // ---- The two readers agree ----------------------------------------------------------

  lemma PeekFieldTakes(buf: seq<byte>, allowEmpty: bool)
    ensures PeekField(buf, allowEmpty) ==
            match TakeField(buf)
            case None => None
            case Some(f) => if |f.bytes| <= MAX_PEEK_NAME && (allowEmpty || f.bytes != []) then Some(f) else None
  {
    var len := Uvarint(buf, 0);
    if len.Some? && len.value.value == 0 {
      assert buf[len.value.size..len.value.size + 0] == [];
    }
  }

  /** On every byte string the streaming reader accepts exactly what the slice
      reader accepts with both fields within the bound, with the same answer and
      the same end of header; everything else it reports corrupt. */
  lemma ReadersAgree(data: seq<byte>)
    ensures PeekHeader(data) ==
            match DecodeHeader(data)
            case Ok(h) => if |h.codec| <= MAX_PEEK_NAME && |h.stored| <= MAX_PEEK_NAME then Ok(h) else Err(Corrupt)
            case Err(_) => Err(Corrupt)
  {
    if |data| >= 1 && data[0] == VERSION_1 {
      PeekFieldTakes(data[1..], false);
    } else if |data| >= 1 && data[0] == VERSION {
      ReadersAgreeOnVersion2(data);
    }
  }

  lemma ReadersAgreeOnVersion2(data: seq<byte>)
    requires |data| >= 1 && data[0] == VERSION
    ensures PeekHeader(data) ==
            match DecodeHeader(data)
            case Ok(h) => if |h.codec| <= MAX_PEEK_NAME && |h.stored| <= MAX_PEEK_NAME then Ok(h) else Err(Corrupt)
            case Err(_) => Err(Corrupt)
  {
    PeekFieldTakes(data[1..], true);
    var codec := TakeField(data[1..]);
    if codec.Some? {
      PeekFieldTakes(data[1 + codec.value.size..], false);
    }
  }

  /** A header is determined by its own bytes: it parses from a prefix exactly
      when the prefix covers it. */
  lemma HeaderLocal(a: seq<byte>, b: seq<byte>, h: Header)
    ensures DecodeHeader(a) == Ok(h) <==> DecodeHeader(a + b) == Ok(h) && h.size <= |a|
  {
    if |a| >= 1 {
      if a[0] == VERSION {
        CodecLocal(a, b, h);
      } else {
        TypeLocal(a, b, [], 1, h);
      }
    }
  }

  lemma CodecLocal(a: seq<byte>, b: seq<byte>, h: Header)
    requires |a| >= 1 && a[0] == VERSION
    ensures DecodeHeader(a) == Ok(h) <==> DecodeHeader(a + b) == Ok(h) && h.size <= |a|
  {
    assert (a + b)[1..] == a[1..] + b;
    var r, s := TakeField(a[1..]), TakeField(a[1..] + b);
    if r.Some? {
      TakeFieldLocal(a[1..], b, r.value);
      DecodeAfterCodec(a, r.value);
      DecodeAfterCodec(a + b, r.value);
      TypeLocal(a, b, r.value.bytes, 1 + r.value.size, h);
    } else if s.Some? {
      TakeFieldLocal(a[1..], b, s.value);
      DecodeAfterCodec(a + b, s.value);
      TypeFollows(a + b, s.value.bytes, 1 + s.value.size, h);
    }
  }

  lemma TypeFollows(data: seq<byte>, codec: Name, off: nat, h: Header)
    requires 1 <= off <= |data|
    ensures DecodeType(data, codec, off) == Ok(h) ==> h.size > off
  {
  }

  lemma TypeLocal(a: seq<byte>, b: seq<byte>, codec: Name, off: nat, h: Header)
    requires 1 <= off <= |a|
    ensures DecodeType(a, codec, off) == Ok(h) <==> DecodeType(a + b, codec, off) == Ok(h) && h.size <= |a|
  {
    assert (a + b)[off..] == a[off..] + b;
    var r, s := TakeField(a[off..]), TakeField(a[off..] + b);
    if r.Some? {
      TakeFieldLocal(a[off..], b, r.value);
    }
    if s.Some? {
      TakeFieldLocal(a[off..], b, s.value);
    }
  }

  // ---- The bounded read --------------------------------------------------------------------

  /** What `Header` makes of an object's bytes. */
  function BoundedHeader(data: seq<byte>): Result<Header> {
    match PeekHeader(data)
    case Ok(h) => if h.size <= HEADER_PREFIX_LIMIT then Ok(h) else Err(Corrupt)
    case Err(error) => Err(error)
  }

  lemma PeekLocal(a: seq<byte>, b: seq<byte>, h: Header)
    ensures PeekHeader(a) == Ok(h) <==> PeekHeader(a + b) == Ok(h) && h.size <= |a|
  {
    ReadersAgree(a);
    ReadersAgree(a + b);
    HeaderLocal(a, b, h);
  }

  lemma PeekOfPrefix(data: seq<byte>, k: nat)
    requires k <= |data|
    ensures PeekHeader(data[..k]) ==
            match PeekHeader(data)
            case Ok(h) => if h.size <= k then Ok(h) else Err(Corrupt)
            case Err(error) => Err(Corrupt)
  {
    assert data == data[..k] + data[k..];
    ReadersAgree(data[..k]);
    var r, s := PeekHeader(data[..k]), PeekHeader(data);
    if r.Ok? {
      PeekLocal(data[..k], data[k..], r.value);
    }
    if s.Ok? {
      PeekLocal(data[..k], data[k..], s.value);
    }
  }

  /** `Header`: the streaming reader over at most `HEADER_PREFIX_LIMIT` bytes of
      the stored object, under any chunking, returns what the unbounded reader
      returns for every header that ends within the limit and corrupt otherwise. */
  method ReadHeader(backend: Backend, d: Digest, end: End, eager: bool, chunks: seq<nat>) returns (r: Result<Header>)
    ensures r == match backend.Get(d)
                 case Err(error) => Err(error)
                 case Ok(data) => BoundedHeader(data)
  {
    var data := backend.Get(d);
    if data.Err? {
      return Err(data.error);
    }
    ReadersAgree(data.value);
    PeekOfPrefix(data.value, MinNat(HEADER_PREFIX_LIMIT, |data.value|));
    var src := new Source(data.value, end, eager, chunks, Some(HEADER_PREFIX_LIMIT));
    ReadersAgreeOnSize(data.value);
    r := Peek(src);
  }

  lemma ReadersAgreeOnSize(data: seq<byte>)
    ensures PeekHeader(data).Ok? ==> PeekHeader(data).value.size <= |data|
  {
    ReadersAgree(data);
  }

  // ---- What the writer writes reads back -----------------------------------------------

  /** Lengths are Go ints. */
  ghost predicate GoSized(s: seq<byte>) {
    |s| < 0x8000_0000_0000_0000
  }

  lemma FieldPositions(codec: Name, typ: Name, rest: seq<byte>)
    ensures var data, c, t := HeaderBytes(codec, typ) + rest, LengthPrefixed(codec), LengthPrefixed(typ);
            && |data| >= 1 + |c| && data[0] == VERSION
            && data[1..] == c + (t + rest)
            && data[1 + |c|..] == t + rest
  {
    var data, c, t := HeaderBytes(codec, typ) + rest, LengthPrefixed(codec), LengthPrefixed(typ);
    ConcatAssoc([VERSION] + c, t, rest);
    ConcatAssoc([VERSION], c, t + rest);
    DropPrefix([VERSION], c + (t + rest));
    DropPrefix([VERSION] + c, t + rest);
    assert data == [VERSION] + (c + (t + rest));
  }

  lemma WrittenType(data: seq<byte>, codec: Name, off: nat, typ: Name, rest: seq<byte>)
    requires typ != [] && GoSized(typ) && 1 <= off <= |data| && data[off..] == LengthPrefixed(typ) + rest
    ensures DecodeType(data, codec, off) == Ok(Header(data[0], codec, typ, off + |LengthPrefixed(typ)|))
  {
    TakeFieldWritten(typ, rest);
  }

  lemma WrittenFields(data: seq<byte>, codec: Name, typ: Name, rest: seq<byte>)
    requires typ != [] && GoSized(codec) && GoSized(typ)
    requires |data| >= 1 + |LengthPrefixed(codec)| && data[0] == VERSION
    requires data[1..] == LengthPrefixed(codec) + (LengthPrefixed(typ) + rest)
    requires data[1 + |LengthPrefixed(codec)|..] == LengthPrefixed(typ) + rest
    ensures DecodeHeader(data) ==
            Ok(Header(VERSION, codec, typ, 1 + |LengthPrefixed(codec)| + |LengthPrefixed(typ)|))
  {
    TakeFieldWritten(codec, LengthPrefixed(typ) + rest);
    WrittenType(data, codec, 1 + |LengthPrefixed(codec)|, typ, rest);
    DecodeAfterCodec(data, Field(codec, |LengthPrefixed(codec)|));
  }

  lemma DecodeAfterCodec(data: seq<byte>, codec: Field)
    requires |data| >= 1 && data[0] == VERSION && TakeField(data[1..]) == Some(codec)
    ensures DecodeHeader(data) == DecodeType(data, codec.bytes, 1 + codec.size)
  {
  }

  lemma WrittenHeader(codec: Name, typ: Name, rest: seq<byte>)
    requires typ != [] && GoSized(codec) && GoSized(typ)
    ensures DecodeHeader(HeaderBytes(codec, typ) + rest) == Ok(Header(VERSION, codec, typ, |HeaderBytes(codec, typ)|))
  {
    FieldPositions(codec, typ, rest);
    WrittenFields(HeaderBytes(codec, typ) + rest, codec, typ, rest);
  }

  /** Decoding an encoded frame, whatever follows it, returns exactly what went in. */
  lemma FrameRoundTrip(codec: Name, typ: Name, payload: seq<byte>, trailer: seq<byte>)
    requires AT in typ && GoSized(codec) && GoSized(typ) && GoSized(payload)
    ensures DecodeEnvelope(Frame(codec, typ, payload) + trailer) == Ok(Envelope(typ, codec, payload))
  {
    var head, body := HeaderBytes(codec, typ), LengthPrefixed(payload);
    ConcatAssoc(head, body, trailer);
    WrittenHeader(codec, typ, body + trailer);
    DropPrefix(head, body + trailer);
    TakeFieldWritten(payload, trailer);
  }

  /** So no frame is a prefix of another: encoding is injective, even with
      trailing bytes. */
  lemma FrameInjective(c1: Name, t1: Name, p1: seq<byte>, x1: seq<byte>,
                       c2: Name, t2: Name, p2: seq<byte>, x2: seq<byte>)
    requires AT in t1 && GoSized(c1) && GoSized(t1) && GoSized(p1)
    requires AT in t2 && GoSized(c2) && GoSized(t2) && GoSized(p2)
    requires Frame(c1, t1, p1) + x1 == Frame(c2, t2, p2) + x2
    ensures c1 == c2 && t1 == t2 && p1 == p2 && x1 == x2
  {
    FrameRoundTrip(c1, t1, p1, x1);
    FrameRoundTrip(c2, t2, p2, x2);
    DropPrefix(Frame(c1, t1, p1), x1);
    DropPrefix(Frame(c1, t1, p1), x2);
  }

  /** A truncated frame never decodes: a prefix of a frame is an envelope only if
      it is the whole frame. */
  lemma TruncatedFrameFails(codec: Name, typ: Name, payload: seq<byte>, k: nat)
    requires typ != [] && GoSized(codec) && GoSized(typ) && GoSized(payload)
    requires k <= |Frame(codec, typ, payload)|
    ensures DecodeEnvelope(Frame(codec, typ, payload)[..k]).Ok? <==> k == |Frame(codec, typ, payload)|
  {
    var frame, head, body := Frame(codec, typ, payload), HeaderBytes(codec, typ), LengthPrefixed(payload);
    var prefix, rest := frame[..k], frame[k..];
    assert frame == prefix + rest;
    WrittenHeader(codec, typ, body);
    DropPrefix(head, body);
    TakeFieldWritten(payload, []);
    assert body + [] == body;
    if k == |frame| {
      assert prefix == frame;
    } else if DecodeHeader(prefix).Ok? {
      var h := DecodeHeader(prefix).value;
      HeaderLocal(prefix, rest, h);
      assert frame[h.size..] == prefix[h.size..] + rest;
      var f := TakeField(prefix[h.size..]);
      if f.Some? {
        TakeFieldLocal(prefix[h.size..], rest, f.value);
      }
    }
  }

  /** A version 1 frame, which has no codec field, still decodes: its codec is
      unspecified and a legacy name without "@" reads as "@1". */
  lemma Version1Decodes(typ: Name, payload: seq<byte>, trailer: seq<byte>)
    requires typ != [] && GoSized(typ) && GoSized(payload)
    ensures DecodeEnvelope([VERSION_1] + LengthPrefixed(typ) + LengthPrefixed(payload) + trailer) ==
            Ok(Envelope(if AT in typ then typ else typ + [AT, 49], [], payload))
  {
    var t, p := LengthPrefixed(typ), LengthPrefixed(payload);
    var data := [VERSION_1] + t + p + trailer;
    assert data[1..] == t + (p + trailer) && data[0] == VERSION_1;
    WrittenType(data, [], 1, typ, p + trailer);
    assert data[1 + |t|..] == p + trailer;
    TakeFieldWritten(payload, trailer);
  }

  /** The type is readable from a prefix of a frame exactly when the prefix covers
      the header. */
  lemma PrefixYieldsType(codec: Name, typ: Name, payload: seq<byte>, k: nat)
    requires typ != [] && GoSized(codec) && GoSized(typ) && k <= |Frame(codec, typ, payload)|
    ensures DecodeHeader(Frame(codec, typ, payload)[..k]).Ok? <==> |HeaderBytes(codec, typ)| <= k
    ensures DecodeHeader(Frame(codec, typ, payload)[..k]).Ok? ==>
            DecodeHeader(Frame(codec, typ, payload)[..k]).value.stored == typ
  {
    var frame := Frame(codec, typ, payload);
    assert frame == frame[..k] + frame[k..];
    WrittenHeader(codec, typ, LengthPrefixed(payload));
    var r := DecodeHeader(frame[..k]);
    HeaderLocal(frame[..k], frame[k..], Header(VERSION, codec, typ, |HeaderBytes(codec, typ)|));
    if r.Ok? {
      HeaderLocal(frame[..k], frame[k..], r.value);
    }
  }

  /** The writer's refusal is exact: a non-empty name lacks "@" if and only if it
      would not read back as itself; an empty one would not read back at all. */
  lemma RefusedExactly(codec: Name, typ: Name, payload: seq<byte>)
    requires GoSized(codec) && GoSized(typ)
    ensures typ != [] ==>
              var h := DecodeHeader(Frame(codec, typ, payload));
              h.Ok? && (AT in typ <==> h.value.TypeName() == typ)
    ensures typ == [] ==> DecodeHeader(Frame(codec, typ, payload)).Err?
  {
    var rest := LengthPrefixed(payload);
    if typ != [] {
      WrittenHeader(codec, typ, rest);
    } else {
      FieldPositions(codec, typ, rest);
      TakeFieldWritten(codec, LengthPrefixed(typ) + rest);
      TakeFieldWritten(typ, rest);
    }
  }

  /** Frames with both fields within the streaming bound: `Header` reads those
      whose header ends within the limit, for which codec and type of at most 8187
      bytes together suffice. */
  lemma BoundedHeaderOfFrame(codec: Name, typ: Name, payload: seq<byte>)
    requires typ != [] && |codec| <= MAX_PEEK_NAME && |typ| <= MAX_PEEK_NAME
    ensures PeekHeader(Frame(codec, typ, payload)) == Ok(Header(VERSION, codec, typ, |HeaderBytes(codec, typ)|))
    ensures BoundedHeader(Frame(codec, typ, payload)).Ok? <==> |HeaderBytes(codec, typ)| <= HEADER_PREFIX_LIMIT
    ensures |codec| + |typ| <= 8187 ==> BoundedHeader(Frame(codec, typ, payload)).Ok?
    ensures |codec| == |typ| == MAX_PEEK_NAME ==> BoundedHeader(Frame(codec, typ, payload)) == Err(Corrupt)
  {
    WrittenHeader(codec, typ, LengthPrefixed(payload));
    ReadersAgree(Frame(codec, typ, payload));
    PutUvarintShort(|codec|);
    PutUvarintShort(|typ|);
  }

  /** `Header` reads every version 1 header with a name within the streaming bound. */
  lemma BoundedHeaderOfVersion1(typ: Name, payload: seq<byte>)
    requires typ != [] && |typ| <= MAX_PEEK_NAME
    ensures BoundedHeader([VERSION_1] + LengthPrefixed(typ) + LengthPrefixed(payload)) ==
            Ok(Header(VERSION_1, [], typ, 1 + |LengthPrefixed(typ)|))
  {
    var data := [VERSION_1] + LengthPrefixed(typ) + LengthPrefixed(payload);
    assert data[1..] == LengthPrefixed(typ) + LengthPrefixed(payload) && data[0] == VERSION_1;
    WrittenType(data, [], 1, typ, LengthPrefixed(payload));
    ReadersAgree(data);
    PutUvarintShort(|typ|);
  }

  /** The type name the bounded header read reports is the one decoding the whole
      object reports. */
  lemma HeaderNamesType(data: seq<byte>)
    requires BoundedHeader(data).Ok? && DecodeEnvelope(data).Ok?
    ensures BoundedHeader(data).value.TypeName() == DecodeEnvelope(data).value.typeName
    ensures BoundedHeader(data).value.codec == DecodeEnvelope(data).value.codec
  {
    ReadersAgree(data);
  }

  /** Only versions 1 and 2 are read, by either reader. */
  lemma OtherVersionsRefused(data: seq<byte>)
    requires |data| == 0 || (data[0] != 1 && data[0] != 2)
    ensures DecodeHeader(data) == Err(Corrupt) && PeekHeader(data) == Err(Corrupt)
    ensures DecodeEnvelope(data) == Err(Corrupt)
  {
  }

  /** One frame, byte by byte: version, codec "json", type "a@1", payload [7, 200]. */
  lemma FrameBytes()
    ensures Frame([106, 115, 111, 110], [97, 64, 49], [7, 200]) ==
            [2, 4, 106, 115, 111, 110, 3, 97, 64, 49, 2, 7, 200]
  {
  }
}
