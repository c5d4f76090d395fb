/** The object browser's view state and its URL form (internal/web/browser.go).
    A URL query is the multimap `url.Values` it parses to. */
module Browser {
  import opened Common
  import opened Digests
  import opened Decimals
  import opened Texts

  const DEFAULT_LIMIT := 25
  const MAX_LIMIT := 250

  const SIZE_BANDS := ["small", "medium", "large"]
  const REACH_STATES := ["reachable", "orphaned", "detached", "root"]
  const DIRECTIONS := ["asc", "desc"]
  const NAV_MODES := ["ref", "trail", "stay"]
  const TABS := ["metadata", "references", "bytes"]
  const STATES := ["verified", "not-verified", "corrupt"]
  const SORT_KEYS := ["hash", "type", "version", "codec", "size", "inbound", "status", "reach", "written"]

  const MALFORMED := Other(5)

  /** The query parameters the viewer reads, in the order it reads them:
      q, type, version, codec, size, status, reach, sort, dir, limit, offset,
      selected, nav and tab. */
  datatype Param =
    | Q | Type | Version | CodecTag | Size | Status | Reach | Sort | Dir | Limit | Offset | Selected | Nav | Tab

  type Values = map<Param, seq<string>>

  datatype State = State(
    query: string, typ: string, version: string, codec: string,
    size: string, status: string, reach: string, sort: string, direction: string,
    limit: int, offset: int, offsetSet: bool,
    selected: string, deselected: bool, nav: string, tab: string)

  /** What the viewer brings along: the digests its hasher can produce, and the lower
      case of each character. */
  datatype Viewer = Viewer(valid: Digest -> bool, lower: Casing)

  /** A key at most once; absent reads as empty. */
  function QueryValue(values: Values, key: Param): Result<string> {
    if key !in values then Ok("")
    else if |values[key]| != 1 then Err(MALFORMED)
    else Ok(values[key][0])
  }

  function QueryInt(values: Values, key: Param, fallback: int): Result<int> {
    var value :- QueryValue(values, key);
    if value == "" then Ok(fallback) else
      match ParseInt(value)
      case None => Err(MALFORMED)
      case Some(n) => Ok(n)
  }

  function CheckEnum(value: string, fallback: string, allowed: seq<string>): Result<string> {
    if value == "" then Ok(fallback)
    else if value in allowed then Ok(value)
    else Err(MALFORMED)
  }

  function EnumValue(values: Values, key: Param, fallback: string, allowed: seq<string>): Result<string> {
    var value :- QueryValue(values, key);
    CheckEnum(value, fallback, allowed)
  }

  function Clamp(n: int): int {
    if n < 1 then 1 else if n > MAX_LIMIT then MAX_LIMIT else n
  }

  /** The version filter: empty, or any integer, kept as written. */
  function VersionValue(values: Values): Result<string> {
    var version :- QueryValue(values, Version);
    if version == "" || ParseInt(version).Some? then Ok(version) else Err(MALFORMED)
  }

  function OffsetValue(values: Values): Result<int> {
    var offset :- QueryInt(values, Offset, 0);
    if offset < 0 then Err(MALFORMED) else Ok(offset)
  }

  /** The selection: empty, or a digest the hasher can produce, in canonical text. */
  function SelectedValue(values: Values, valid: Digest -> bool): Result<string> {
    var selected :- QueryValue(values, Selected);
    if selected == "" then Ok("") else
      var d :- ParseDigest(selected);
      if valid(d) then Ok(Text(d)) else Err(InvalidDigest)
  }

  /** A bookmark of the retired "actions" tab reads as "metadata". */
  function TabValue(values: Values): Result<string> {
    var tab :- QueryValue(values, Tab);
    CheckEnum(if tab == "actions" then "metadata" else tab, "metadata", TABS)
  }

  /** `parseObjectBrowserState`. */
  function Parse(values: Values, viewer: Viewer): Result<State> {
    var query :- QueryValue(values, Q);
    var typ :- QueryValue(values, Type);
    var version :- VersionValue(values);
    var codec :- QueryValue(values, CodecTag);
    var size :- EnumValue(values, Size, "", SIZE_BANDS);
    var status :- EnumValue(values, Status, "", STATES);
    var reach :- EnumValue(values, Reach, "", REACH_STATES);
    var sort :- EnumValue(values, Sort, "hash", SORT_KEYS);
    var direction :- EnumValue(values, Dir, "asc", DIRECTIONS);
    var limit :- QueryInt(values, Limit, DEFAULT_LIMIT);
    var offset :- OffsetValue(values);
    var selected :- SelectedValue(values, viewer.valid);
    var nav :- EnumValue(values, Nav, "", NAV_MODES);
    var tab :- TabValue(values);
    Ok(State(ToLower(viewer.lower, TrimSpace(query)), typ, version, codec, size, status, reach, sort, direction,
             Clamp(limit), offset, Offset in values,
             selected, selected == "" && Selected in values, nav, tab))
  }

  // ---- What is accepted, and what it becomes ----------------------------------------

  ghost predicate Single(values: Values, key: Param) {
    key in values ==> |values[key]| == 1
  }

  /** The text of a parameter; an absent one counts as empty. */
  function Raw(values: Values, key: Param): string {
    if key in values && |values[key]| > 0 then values[key][0] else ""
  }

  lemma ValueExactly(values: Values, key: Param)
    ensures QueryValue(values, key) == if Single(values, key) then Ok(Raw(values, key)) else Err(MALFORMED)
  {
  }

  lemma EnumExactly(values: Values, key: Param, fallback: string, allowed: seq<string>)
    ensures var r, raw := EnumValue(values, key, fallback, allowed), Raw(values, key);
            && (r.Ok? <==> Single(values, key) && (raw == "" || raw in allowed))
            && (r.Ok? ==> r.value == if raw == "" then fallback else raw)
  {
  }

  lemma IntExactly(values: Values, key: Param, fallback: int)
    ensures var r, raw := QueryInt(values, key, fallback), Raw(values, key);
            && (r.Ok? <==> Single(values, key) && (raw == "" || ParseInt(raw).Some?))
            && (r.Ok? ==> r.value == if raw == "" then fallback else ParseInt(raw).value)
  {
  }

  /** A selection is accepted exactly in the canonical text of a digest the hasher
      can produce, and kept as it is. */
  lemma SelectedExactly(values: Values, valid: Digest -> bool)
    ensures var r, raw := SelectedValue(values, valid), Raw(values, Selected);
            && (r.Ok? <==> Single(values, Selected)
                           && (raw == "" || exists d :: raw == Text(d) && !IsZero(d) && valid(d)))
            && (r.Ok? ==> r.value == raw)
  {
    var raw := Raw(values, Selected);
    forall d ensures ParseDigest(raw) == Ok(d) <==> raw == Text(d) && !IsZero(d) {
      ParseDigestExact(raw, d);
    }
  }

  lemma TabExactly(values: Values)
    ensures var r, raw := TabValue(values), Raw(values, Tab);
            && (r.Ok? <==> Single(values, Tab) && (raw == "" || raw == "actions" || raw in TABS))
            && (r.Ok? ==> r.value == if raw == "" || raw == "actions" then "metadata" else raw)
  {
    assert "metadata" in TABS by { assert TABS[0] == "metadata"; }
  }

  ghost predicate TextsAcceptable(values: Values) {
    && Single(values, Q) && Single(values, Type) && Single(values, CodecTag)
    && Single(values, Version) && (Raw(values, Version) == "" || ParseInt(Raw(values, Version)).Some?)
  }

  ghost predicate ChoiceAcceptable(values: Values, key: Param, allowed: seq<string>) {
    Single(values, key) && (Raw(values, key) == "" || Raw(values, key) in allowed)
  }

  ghost predicate PageAcceptable(values: Values) {
    && Single(values, Limit) && (Raw(values, Limit) == "" || ParseInt(Raw(values, Limit)).Some?)
    && Single(values, Offset)
    && (Raw(values, Offset) == ""
        || (ParseInt(Raw(values, Offset)).Some? && ParseInt(Raw(values, Offset)).value >= 0))
  }

  /** A query is a malformed request if a parameter is repeated, a choice is not one
      of those offered, a number is not one, or the selection is not a digest. */
  ghost predicate Acceptable(values: Values, viewer: Viewer) {
    && TextsAcceptable(values) && PageAcceptable(values)
    && ChoiceAcceptable(values, Size, SIZE_BANDS) && ChoiceAcceptable(values, Status, STATES)
    && ChoiceAcceptable(values, Reach, REACH_STATES) && ChoiceAcceptable(values, Sort, SORT_KEYS)
    && ChoiceAcceptable(values, Dir, DIRECTIONS) && ChoiceAcceptable(values, Nav, NAV_MODES)
    && Single(values, Tab)
    && (Raw(values, Tab) == "" || Raw(values, Tab) == "actions" || Raw(values, Tab) in TABS)
    && Single(values, Selected)
    && (Raw(values, Selected) == "" || exists d :: Raw(values, Selected) == Text(d) && !IsZero(d) && viewer.valid(d))
  }

  /** Every step of the parse has an answer. */
  ghost predicate StepsPass(values: Values, viewer: Viewer) {
    && QueryValue(values, Q).Ok? && QueryValue(values, Type).Ok? && VersionValue(values).Ok?
    && QueryValue(values, CodecTag).Ok? && EnumValue(values, Size, "", SIZE_BANDS).Ok?
    && EnumValue(values, Status, "", STATES).Ok? && EnumValue(values, Reach, "", REACH_STATES).Ok?
    && EnumValue(values, Sort, "hash", SORT_KEYS).Ok? && EnumValue(values, Dir, "asc", DIRECTIONS).Ok?
    && QueryInt(values, Limit, DEFAULT_LIMIT).Ok? && OffsetValue(values).Ok?
    && SelectedValue(values, viewer.valid).Ok? && EnumValue(values, Nav, "", NAV_MODES).Ok? && TabValue(values).Ok?
  }

  lemma ParseSteps(values: Values, viewer: Viewer)
    ensures Parse(values, viewer).Ok? <==> StepsPass(values, viewer)
  {
  }

  lemma AcceptedExactly(values: Values, viewer: Viewer)
    ensures Parse(values, viewer).Ok? <==> Acceptable(values, viewer)
  {
    ParseSteps(values, viewer);
    StepsAccept(values, viewer);
  }

  lemma ChoiceAccepts(values: Values, key: Param, fallback: string, allowed: seq<string>)
    ensures EnumValue(values, key, fallback, allowed).Ok? <==> ChoiceAcceptable(values, key, allowed)
  {
    EnumExactly(values, key, fallback, allowed);
  }

  lemma StepsAccept(values: Values, viewer: Viewer)
    ensures StepsPass(values, viewer) <==> Acceptable(values, viewer)
  {
    ChoiceAccepts(values, Size, "", SIZE_BANDS);
    ChoiceAccepts(values, Status, "", STATES);
    ChoiceAccepts(values, Reach, "", REACH_STATES);
    ChoiceAccepts(values, Sort, "hash", SORT_KEYS);
    ChoiceAccepts(values, Dir, "asc", DIRECTIONS);
    ChoiceAccepts(values, Nav, "", NAV_MODES);
    PageAccepts(values);
    SelectedExactly(values, viewer.valid);
    TabExactly(values);
  }

  lemma PageAccepts(values: Values)
    ensures PageAcceptable(values) <==> QueryInt(values, Limit, DEFAULT_LIMIT).Ok? && OffsetValue(values).Ok?
  {
    IntExactly(values, Limit, DEFAULT_LIMIT);
    IntExactly(values, Offset, 0);
  }

  function Default(text: string, fallback: string): string {
    if text == "" then fallback else text
  }

  /** What the parameters say a state is. A page size out of range is brought into
      it, and the choices left open have their defaults. */
  ghost predicate Shows(values: Values, viewer: Viewer, s: State) {
    && s.query == ToLower(viewer.lower, TrimSpace(Raw(values, Q)))
    && s.typ == Raw(values, Type) && s.version == Raw(values, Version) && s.codec == Raw(values, CodecTag)
    && s.size == Raw(values, Size) && s.status == Raw(values, Status) && s.reach == Raw(values, Reach)
    && s.sort == Default(Raw(values, Sort), "hash") && s.direction == Default(Raw(values, Dir), "asc")
    && s.nav == Raw(values, Nav)
    && s.tab == (if Raw(values, Tab) == "actions" then "metadata" else Default(Raw(values, Tab), "metadata"))
    && s.selected == Raw(values, Selected)
    && (s.deselected <==> Selected in values && Raw(values, Selected) == "")
    && s.offset == (if Raw(values, Offset) == "" then 0 else Number(Raw(values, Offset)))
    && (s.offsetSet <==> Offset in values)
    && InRange(s.limit, if Raw(values, Limit) == "" then 25 else Number(Raw(values, Limit)))
  }

  function Number(text: string): int {
    if ParseInt(text).Some? then ParseInt(text).value else 0
  }

  ghost predicate InRange(limit: int, asked: int) {
    (asked < 1 ==> limit == 1) && (asked > 250 ==> limit == 250) && (1 <= asked <= 250 ==> limit == asked)
  }

  /** The state the steps' answers make. */
  function Made(values: Values, viewer: Viewer): State
    requires StepsPass(values, viewer)
  {
    State(ToLower(viewer.lower, TrimSpace(QueryValue(values, Q).value)), QueryValue(values, Type).value,
          VersionValue(values).value, QueryValue(values, CodecTag).value,
          EnumValue(values, Size, "", SIZE_BANDS).value, EnumValue(values, Status, "", STATES).value,
          EnumValue(values, Reach, "", REACH_STATES).value, EnumValue(values, Sort, "hash", SORT_KEYS).value,
          EnumValue(values, Dir, "asc", DIRECTIONS).value,
          Clamp(QueryInt(values, Limit, DEFAULT_LIMIT).value), OffsetValue(values).value, Offset in values,
          SelectedValue(values, viewer.valid).value,
          SelectedValue(values, viewer.valid).value == "" && Selected in values,
          EnumValue(values, Nav, "", NAV_MODES).value, TabValue(values).value)
  }

  lemma ParseMakes(values: Values, viewer: Viewer)
    requires StepsPass(values, viewer)
    ensures Parse(values, viewer) == Ok(Made(values, viewer))
  {
  }

  lemma MadeShows(values: Values, viewer: Viewer)
    requires StepsPass(values, viewer)
    ensures Shows(values, viewer, Made(values, viewer))
  {
    EnumExactly(values, Size, "", SIZE_BANDS);
    EnumExactly(values, Status, "", STATES);
    EnumExactly(values, Reach, "", REACH_STATES);
    EnumExactly(values, Sort, "hash", SORT_KEYS);
    EnumExactly(values, Dir, "asc", DIRECTIONS);
    EnumExactly(values, Nav, "", NAV_MODES);
    IntExactly(values, Limit, DEFAULT_LIMIT);
    IntExactly(values, Offset, 0);
    SelectedExactly(values, viewer.valid);
    TabExactly(values);
  }

  /** What an accepted query becomes. */
  lemma AcceptedBecomes(values: Values, viewer: Viewer)
    requires Parse(values, viewer).Ok?
    ensures Shows(values, viewer, Parse(values, viewer).value)
  {
    ParseSteps(values, viewer);
    ParseMakes(values, viewer);
    MadeShows(values, viewer);
  }

  /** What the parser can produce. */
  ghost predicate Canonical(s: State, viewer: Viewer) {
    && ToLower(viewer.lower, TrimSpace(s.query)) == s.query
    && (s.version == "" || ParseInt(s.version).Some?)
    && (s.size == "" || s.size in SIZE_BANDS)
    && (s.status == "" || s.status in STATES)
    && (s.reach == "" || s.reach in REACH_STATES)
    && s.sort in SORT_KEYS && s.direction in DIRECTIONS
    && 1 <= s.limit <= MAX_LIMIT
    && 0 <= s.offset && InInt64(s.offset) && (s.offset != 0 ==> s.offsetSet)
    && (s.selected == "" || (exists d :: s.selected == Text(d) && !IsZero(d) && viewer.valid(d)))
    && (s.selected != "" ==> !s.deselected)
    && (s.nav == "" || s.nav in NAV_MODES)
    && s.tab in TABS
  }

  lemma SelectedIsCanonical(values: Values, valid: Digest -> bool)
    ensures var r := SelectedValue(values, valid);
            r.Ok? ==> r.value == "" || exists d :: r.value == Text(d) && !IsZero(d) && valid(d)
  {
    var selected := QueryValue(values, Selected);
    if selected.Ok? && selected.value != "" {
      var d := ParseDigest(selected.value);
      if d.Ok? {
        ParseDigestExact(selected.value, d.value);
      }
    }
  }

  lemma OffsetIsCanonical(values: Values)
    ensures var r := OffsetValue(values);
            r.Ok? ==> 0 <= r.value && InInt64(r.value) && (r.value != 0 ==> Offset in values)
  {
  }

  lemma EnumIsCanonical(values: Values, key: Param, fallback: string, allowed: seq<string>)
    ensures var r := EnumValue(values, key, fallback, allowed); r.Ok? ==> r.value == fallback || r.value in allowed
  {
  }

  lemma ParseIsCanonical(values: Values, viewer: Viewer)
    requires Parse(values, viewer).Ok?
    ensures Canonical(Parse(values, viewer).value, viewer)
  {
    NormalizeTwice(viewer.lower, QueryValue(values, Q).value);
    SelectedIsCanonical(values, viewer.valid);
    OffsetIsCanonical(values);
    EnumIsCanonical(values, Size, "", SIZE_BANDS);
    EnumIsCanonical(values, Status, "", STATES);
    EnumIsCanonical(values, Reach, "", REACH_STATES);
    EnumIsCanonical(values, Sort, "hash", SORT_KEYS);
    EnumIsCanonical(values, Dir, "asc", DIRECTIONS);
    EnumIsCanonical(values, Nav, "", NAV_MODES);
    assert "hash" in SORT_KEYS by { assert SORT_KEYS[0] == "hash"; }
    assert "asc" in DIRECTIONS by { assert DIRECTIONS[0] == "asc"; }
    assert "metadata" in TABS by { assert TABS[0] == "metadata"; }
  }

  /** The text a parameter of `url` carries, if it is written at all. The
      navigation marker never is. */
  function Written(s: State, key: Param): Option<string> {
    match key
    case Q => Unless(s.query, "")
    case Type => Unless(s.typ, "")
    case Version => Unless(s.version, "")
    case CodecTag => Unless(s.codec, "")
    case Size => Unless(s.size, "")
    case Status => Unless(s.status, "")
    case Reach => Unless(s.reach, "")
    case Sort => Unless(s.sort, "hash")
    case Dir => Unless(s.direction, "asc")
    case Limit => if s.limit != DEFAULT_LIMIT then Some(Format(s.limit)) else None
    case Offset => if s.offset != 0 || s.offsetSet then Some(Format(s.offset)) else None
    case Selected => if s.selected != "" || s.deselected then Some(s.selected) else None
    case Nav => None
    case Tab => Unless(s.tab, "metadata")
  }

  function Unless(text: string, default: string): Option<string> {
    if text != default then Some(text) else None
  }

  function Rank(key: Param): nat {
    match key
    case Q => 0 case Type => 1 case Version => 2 case CodecTag => 3 case Size => 4
    case Status => 5 case Reach => 6 case Sort => 7 case Dir => 8 case Limit => 9
    case Offset => 10 case Selected => 11 case Nav => 12 case Tab => 13
  }

  /** The parameters written by the first `n` fields. */
  ghost function WrittenBy(s: State, n: nat): Values {
    map key: Param | Rank(key) < n && Written(s, key).Some? :: [Written(s, key).value]
  }

  method SetParam(values: Values, key: Param, text: Option<string>, ghost s: State) returns (more: Values)
    requires values == WrittenBy(s, Rank(key)) && text == Written(s, key)
    ensures more == WrittenBy(s, Rank(key) + 1)
  {
    more := if text.Some? then values[key := [text.value]] else values;
    forall k: Param ensures Rank(k) < Rank(key) + 1 <==> Rank(k) < Rank(key) || k == key {
    }
  }

  method FilterValues(s: State) returns (values: Values)
    ensures values == WrittenBy(s, 7)
  {
    values := map[];
    assert values == WrittenBy(s, 0);
    values := SetParam(values, Q, Unless(s.query, ""), s);
    values := SetParam(values, Type, Unless(s.typ, ""), s);
    values := SetParam(values, Version, Unless(s.version, ""), s);
    values := SetParam(values, CodecTag, Unless(s.codec, ""), s);
    values := SetParam(values, Size, Unless(s.size, ""), s);
    values := SetParam(values, Status, Unless(s.status, ""), s);
    values := SetParam(values, Reach, Unless(s.reach, ""), s);
  }

  method PageValues(s: State, filters: Values) returns (values: Values)
    requires filters == WrittenBy(s, 7)
    ensures values == WrittenBy(s, 11)
  {
    values := SetParam(filters, Sort, Unless(s.sort, "hash"), s);
    values := SetParam(values, Dir, Unless(s.direction, "asc"), s);
    values := SetParam(values, Limit, if s.limit != DEFAULT_LIMIT then Some(Format(s.limit)) else None, s);
    values := SetParam(values, Offset, if s.offset != 0 || s.offsetSet then Some(Format(s.offset)) else None, s);
  }

  method SelectionValues(s: State, page: Values) returns (values: Values)
    requires page == WrittenBy(s, 11)
    ensures values == WrittenBy(s, 14)
  {
    values := SetParam(page, Selected, if s.selected != "" || s.deselected then Some(s.selected) else None, s);
    values := SetParam(values, Nav, None, s);
    values := SetParam(values, Tab, Unless(s.tab, "metadata"), s);
  }

  /** The parameters of `url`, field by field. */
  method UrlValues(s: State) returns (values: Values)
    ensures forall key :: key in values <==> Written(s, key).Some?
    ensures forall key :: key in values ==> values[key] == [Written(s, key).value]
  {
    values := FilterValues(s);
    values := PageValues(s, values);
    values := SelectionValues(s, values);
  }

  /** Values that hold what `url` writes for `s`, and perhaps a marker. */
  ghost predicate Holds(values: Values, s: State) {
    forall key :: key != Nav ==>
      && (key in values <==> Written(s, key).Some?)
      && (key in values ==> values[key] == [Written(s, key).value])
  }

  lemma WrittenReads(values: Values, s: State, key: Param)
    requires Holds(values, s) && key != Nav
    ensures QueryValue(values, key) == Ok(if Written(s, key).Some? then Written(s, key).value else "")
  {
  }

  lemma EnumReads(values: Values, s: State, key: Param, text: string, fallback: string, allowed: seq<string>)
    requires Holds(values, s) && key != Nav && Written(s, key) == Unless(text, fallback)
    requires text == fallback || (text in allowed && text != "")
    ensures EnumValue(values, key, fallback, allowed) == Ok(text)
  {
    WrittenReads(values, s, key);
  }

  lemma LimitReads(values: Values, s: State)
    requires Holds(values, s) && 1 <= s.limit <= MAX_LIMIT
    ensures QueryInt(values, Limit, DEFAULT_LIMIT) == Ok(s.limit)
  {
    WrittenReads(values, s, Limit);
    FormatRoundTrip(s.limit);
    FormatChars(s.limit);
  }

  lemma OffsetReads(values: Values, s: State)
    requires Holds(values, s) && 0 <= s.offset && InInt64(s.offset)
    ensures OffsetValue(values) == Ok(s.offset)
  {
    WrittenReads(values, s, Offset);
    FormatRoundTrip(s.offset);
    FormatChars(s.offset);
  }

  lemma SelectedReads(values: Values, s: State, valid: Digest -> bool)
    requires Holds(values, s)
    requires s.selected == "" || exists d :: s.selected == Text(d) && !IsZero(d) && valid(d)
    ensures SelectedValue(values, valid) == Ok(s.selected)
  {
    WrittenReads(values, s, Selected);
    if s.selected != "" {
      var d :| s.selected == Text(d) && !IsZero(d) && valid(d);
      ParseDigestExact(s.selected, d);
    }
  }

  lemma TabReads(values: Values, s: State)
    requires Holds(values, s) && s.tab in TABS
    ensures TabValue(values) == Ok(s.tab)
  {
    WrittenReads(values, s, Tab);
    assert s.tab == TABS[0] || s.tab == TABS[1] || s.tab == TABS[2];
    assert |"actions"| == 7 && |TABS[0]| == 8 && |TABS[1]| == 10 && |TABS[2]| == 5;
  }

  lemma FiltersRead(values: Values, s: State, viewer: Viewer)
    requires Canonical(s, viewer) && Holds(values, s)
    ensures QueryValue(values, Q) == Ok(s.query) && ToLower(viewer.lower, TrimSpace(s.query)) == s.query
    ensures QueryValue(values, Type) == Ok(s.typ) && VersionValue(values) == Ok(s.version)
    ensures QueryValue(values, CodecTag) == Ok(s.codec)
    ensures EnumValue(values, Size, "", SIZE_BANDS) == Ok(s.size)
    ensures EnumValue(values, Status, "", STATES) == Ok(s.status)
    ensures EnumValue(values, Reach, "", REACH_STATES) == Ok(s.reach)
  {
    WrittenReads(values, s, Q);
    WrittenReads(values, s, Type);
    WrittenReads(values, s, Version);
    WrittenReads(values, s, CodecTag);
    EnumReads(values, s, Size, s.size, "", SIZE_BANDS);
    EnumReads(values, s, Status, s.status, "", STATES);
    EnumReads(values, s, Reach, s.reach, "", REACH_STATES);
  }

  lemma OrderReads(values: Values, s: State, viewer: Viewer)
    requires Canonical(s, viewer) && Holds(values, s)
    ensures EnumValue(values, Sort, "hash", SORT_KEYS) == Ok(s.sort)
    ensures EnumValue(values, Dir, "asc", DIRECTIONS) == Ok(s.direction)
  {
    NonEmptyEnums(s, viewer);
    EnumReads(values, s, Sort, s.sort, "hash", SORT_KEYS);
    EnumReads(values, s, Dir, s.direction, "asc", DIRECTIONS);
  }

  lemma PageReads(values: Values, s: State, viewer: Viewer)
    requires Canonical(s, viewer) && Holds(values, s)
    ensures QueryInt(values, Limit, DEFAULT_LIMIT) == Ok(s.limit) && Clamp(s.limit) == s.limit
    ensures OffsetValue(values) == Ok(s.offset) && (Offset in values <==> s.offsetSet)
    ensures SelectedValue(values, viewer.valid) == Ok(s.selected)
    ensures s.deselected <==> s.selected == "" && Selected in values
    ensures TabValue(values) == Ok(s.tab)
  {
    LimitReads(values, s);
    OffsetReads(values, s);
    SelectedReads(values, s, viewer.valid);
    TabReads(values, s);
  }

  /** A canonical state reads back from the values written for it, with the
      navigation marker the values carry. */
  lemma ParseWritten(values: Values, s: State, viewer: Viewer, nav: string)
    requires Canonical(s, viewer) && Holds(values, s) && EnumValue(values, Nav, "", NAV_MODES) == Ok(nav)
    ensures Parse(values, viewer) == Ok(s.(nav := nav))
  {
    FiltersRead(values, s, viewer);
    OrderReads(values, s, viewer);
    PageReads(values, s, viewer);
  }

  lemma NonEmptyEnums(s: State, viewer: Viewer)
    requires Canonical(s, viewer)
    ensures s.sort != "" && s.direction != ""
  {
    var i :| 0 <= i < |SORT_KEYS| && SORT_KEYS[i] == s.sort;
    var j :| 0 <= j < |DIRECTIONS| && DIRECTIONS[j] == s.direction;
  }

  /** A state some query parses to. */
  ghost predicate Producible(s: State, viewer: Viewer) {
    exists query :: Parse(query, viewer) == Ok(s)
  }

  lemma ProducibleReadsBack(s: State, viewer: Viewer, values: Values, nav: string)
    requires Producible(s, viewer) && Holds(values, s) && EnumValue(values, Nav, "", NAV_MODES) == Ok(nav)
    ensures Parse(values, viewer) == Ok(s.(nav := nav))
  {
    var query :| Parse(query, viewer) == Ok(s);
    ParseIsCanonical(query, viewer);
    ParseWritten(values, s, viewer, nav);
  }

  /** `url`: for every state the parser can produce, parsing what is written gives
      it back with only the navigation marker cleared. */
  method Url(s: State, ghost viewer: Viewer) returns (values: Values)
    requires Producible(s, viewer)
    ensures Parse(values, viewer) == Ok(s.(nav := ""))
  {
    values := UrlValues(s);
    ProducibleReadsBack(s, viewer, values, "");
  }

  /** `navURL`: and with the marker added, it is given back with the marker set. */
  method NavUrl(s: State, mode: string, ghost viewer: Viewer) returns (values: Values)
    requires Producible(s, viewer) && mode in NAV_MODES
    ensures Parse(values, viewer) == Ok(s.(nav := mode))
  {
    values := UrlValues(s);
    values := values[Nav := [mode]];
    NavModeReads(values, mode);
    ProducibleReadsBack(s, viewer, values, mode);
  }

  lemma NavModeReads(values: Values, mode: string)
    requires mode in NAV_MODES && Nav in values && values[Nav] == [mode]
    ensures EnumValue(values, Nav, "", NAV_MODES) == Ok(mode)
  {
    var i :| 0 <= i < |NAV_MODES| && NAV_MODES[i] == mode;
  }
}
