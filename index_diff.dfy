/** Turning the two documents of a binary diff back into records, pairing them by id,
    dropping what they have in common, and writing the rest as COPY rows of the
    `content` table (rkndex/index_diff.py). */
module IndexDiff {
  import opened Wrappers
  import opened Bytes
  import opened Text
  import opened Expat
  import FileDiff
  import Pg

  // ---------------------------------------------------------------------------
  // Records

  /** The six value tags whose character data is collected (content_cdata_tag). */
  datatype ValueTag = Url | Domain | Ip | Ipv6 | IpSubnet | Ipv6Subnet

  const ALL_TAGS: seq<ValueTag> := [Url, Domain, Ip, Ipv6, IpSubnet, Ipv6Subnet]

  function TagName(t: ValueTag): string
  {
    match t
    case Url => "url"
    case Domain => "domain"
    case Ip => "ip"
    case Ipv6 => "ipv6"
    case IpSubnet => "ipSubnet"
    case Ipv6Subnet => "ipv6Subnet"
  }

  /** `tag in content_cdata_tag`, and which one. */
  function TagOf(name: string): (r: Option<ValueTag>)
    ensures r.Some? ==> TagName(r.value) == name
  {
    if name == "url" then Some(Url)
    else if name == "domain" then Some(Domain)
    else if name == "ip" then Some(Ip)
    else if name == "ipv6" then Some(Ipv6)
    else if name == "ipSubnet" then Some(IpSubnet)
    else if name == "ipv6Subnet" then Some(Ipv6Subnet)
    else None
  }

  /** Every value tag is recognised by its own name. */
  lemma TagOfName(t: ValueTag)
    ensures TagOf(TagName(t)) == Some(t)
  {
    match t
    case Url =>
    case Domain =>
    case Ip =>
    case Ipv6 =>
    case IpSubnet =>
    case Ipv6Subnet =>
  }

  /** The values of one tag: character data to the tag's `ts` attribute. */
  type Entries = map<string, Option<string>>

  /** The six value maps of a record. */
  datatype Values = Values(url: Entries, domain: Entries, ip: Entries, ipv6: Entries,
                           ipSubnet: Entries, ipv6Subnet: Entries)
  {
    function Get(t: ValueTag): Entries
    {
      match t
      case Url => url
      case Domain => domain
      case Ip => ip
      case Ipv6 => ipv6
      case IpSubnet => ipSubnet
      case Ipv6Subnet => ipv6Subnet
    }

    function Set(t: ValueTag, e: Entries): (r: Values)
      ensures r.Get(t) == e
      ensures forall u :: u != t ==> r.Get(u) == Get(u)
    {
      match t
      case Url => this.(url := e)
      case Domain => this.(domain := e)
      case Ip => this.(ip := e)
      case Ipv6 => this.(ipv6 := e)
      case IpSubnet => this.(ipSubnet := e)
      case Ipv6Subnet => this.(ipv6Subnet := e)
    }
  }

  const NO_VALUES: Values := Values(map[], map[], map[], map[], map[], map[])

  /** The content dict while its element is open. */
  datatype Content = Content(
    id: int, entryType: int, urgencyType: Option<int>,
    includeTime: Option<string>, ts: Option<string>, blockType: Option<string>,
    decisionDate: Option<string>, decisionNumber: Option<string>, decisionOrg: Option<string>,
    values: Values)

  /** The has_* flags computed when a content element closes. */
  datatype Derived = Derived(hasDomain: bool, hasDomainMask: bool, hasUrl: bool, hasHttp: bool,
                             hasHttps: bool, hasPath: bool, hasIp: bool)

  /** A closed content dict, as handed to content_cb: blockType is no longer None. */
  datatype Record = Record(content: Content, blockType: string, derived: Derived)
  {
    function Id(): int { content.id }
  }

  /** BLOCKTYPE_NULL: the text standing for an absent blockType. */
  const BLOCKTYPE_NULL: string := "<null>"

  // ---------------------------------------------------------------------------
  // url_with_path_re

  /** The first index from i whose character is in `stops`, or |s|. */
  function SkipUntil(s: string, i: nat, stops: set<char>): (j: nat)
    requires i <= |s|
    ensures i <= j <= |s|
    ensures forall k :: i <= k < j ==> s[k] !in stops
    ensures j < |s| ==> s[j] in stops
    decreases |s| - i
  {
    if i == |s| || s[i] in stops then i else SkipUntil(s, i + 1, stops)
  }

  /** The first index from i whose character is not c, or |s|. */
  function SkipOver(s: string, i: nat, c: char): (j: nat)
    requires i <= |s|
    ensures i <= j <= |s|
    ensures forall k :: i <= k < j ==> s[k] == c
    ensures j < |s| ==> s[j] != c
    decreases |s| - i
  {
    if i == |s| || s[i] != c then i else SkipOver(s, i + 1, c)
  }

  /** `url_with_path_re.match(u)` is a match: a scheme of characters other than '/'
      and ':', "://", a host of characters other than '/', one or more '/', and a
      first path character other than '/' and '#'. Each part of the pattern can only
      end where this scan stops it. */
  function HasPath(u: string): bool
  {
    var i := SkipUntil(u, 0, {'/', ':'});
    0 < i && i + 3 <= |u| && u[i..i + 3] == "://" &&
      var j := SkipUntil(u, i + 3, {'/'});
      i + 3 < j < |u| &&
        var k := SkipOver(u, j, '/');
        k < |u| && u[k] != '#'
  }

  /** `[^/:]+://[^/]+/+[^/#]+` matches u[..d], its four parts ending at a, b, c and d. */
  predicate PathMatch(u: string, a: nat, b: nat, c: nat, d: nat)
  {
    && 0 < a && a + 3 < b < c < d <= |u|
    && (forall t :: 0 <= t < a ==> u[t] != '/' && u[t] != ':')
    && u[a..a + 3] == "://"
    && (forall t :: a + 3 <= t < b ==> u[t] != '/')
    && (forall t :: b <= t < c ==> u[t] == '/')
    && (forall t :: c <= t < d ==> u[t] != '/' && u[t] != '#')
  }

  /** A match of the pattern is found by the scan: each part ends where the scan
      stops it, since the character after it cannot continue that part. */
  lemma MatchScans(u: string, a: nat, b: nat, c: nat, d: nat)
    requires PathMatch(u, a, b, c, d)
    ensures HasPath(u)
  {
    var sep := u[a..a + 3];
    assert sep[0] == u[a];
    assert u[a] in {'/', ':'};
    var i := SkipUntil(u, 0, {'/', ':'});
    assert i == a;
    assert u[b] in {'/'};
    var j := SkipUntil(u, i + 3, {'/'});
    assert j == b;
    assert u[c] != '/';
    var k := SkipOver(u, j, '/');
    assert k == c;
  }

  /** The scan finds a match exactly when the pattern matches a prefix of u. */
  lemma HasPathMatches(u: string)
    ensures HasPath(u) <==> exists a, b, c, d :: PathMatch(u, a, b, c, d)
  {
    if HasPath(u) {
      var i := SkipUntil(u, 0, {'/', ':'});
      var j := SkipUntil(u, i + 3, {'/'});
      var k := SkipOver(u, j, '/');
      assert PathMatch(u, i, j, k, k + 1);
    }
    if a: nat, b: nat, c: nat, d: nat :| PathMatch(u, a, b, c, d) {
      MatchScans(u, a, b, c, d);
    }
  }

  /** The has_* flags of a value set: has_domain, a domain wildcard "*.", has_url,
      an "http:" or "https:" url, a url with a path, and any address or subnet. */
  function Derive(v: Values): Derived
  {
    Derived(
      hasDomain := |v.domain| > 0,
      hasDomainMask := exists d :: d in v.domain && StartsWith(d, "*."),
      hasUrl := |v.url| > 0,
      hasHttp := exists u :: u in v.url && StartsWith(u, "http:"),
      hasHttps := exists u :: u in v.url && StartsWith(u, "https:"),
      hasPath := exists u :: u in v.url && HasPath(u),
      hasIp := |v.ip| + |v.ipv6| + |v.ipSubnet| + |v.ipv6Subnet| > 0)
  }

  /** The flags agree with one another: a wildcard is a domain, and every url flag
      needs a url; has_ip is set exactly when one of the four address maps is not empty. */
  lemma DeriveConsistent(v: Values)
    ensures var d := Derive(v);
      && (d.hasDomainMask ==> d.hasDomain)
      && (d.hasHttp || d.hasHttps || d.hasPath ==> d.hasUrl)
      && (d.hasIp <==> exists t :: t in [Ip, Ipv6, IpSubnet, Ipv6Subnet] && v.Get(t) != map[])
  {
    var d := Derive(v);
    if d.hasDomainMask {
      var x :| x in v.domain && StartsWith(x, "*.");
    }
    if d.hasHttp {
      var x :| x in v.url && StartsWith(x, "http:");
    }
    if d.hasHttps {
      var x :| x in v.url && StartsWith(x, "https:");
    }
    if d.hasPath {
      var x :| x in v.url && HasPath(x);
    }
    if d.hasIp {
      if v.ip != map[] { assert v.Get(Ip) != map[]; }
      else if v.ipv6 != map[] { assert v.Get(Ipv6) != map[]; }
      else if v.ipSubnet != map[] { assert v.Get(IpSubnet) != map[]; }
      else { assert v.Get(Ipv6Subnet) != map[]; }
    }
  }

  // ---------------------------------------------------------------------------
  // DumpParser: the handlers, as functions of the parser state

  datatype ParseError =
    | MissingAttr(name: string)   // attr['id'] without the attribute
    | BadInt(name: string)        // int() of an attribute that is not an integer
    | NoContent                   // a decision, value or content close outside a content element
    | NestedCdata                 // start_cdata_writer while a value is being collected
    | NoCdata                     // a value tag closed that was never opened
    | NullBlockType               // blockType is literally BLOCKTYPE_NULL

  const REGISTER_KNOWN_KEYS: set<string> := {"updateTime", "updateTimeUrgently", "formatVersion"}
  const CONTENT_INT_KEYS: set<string> := {"id", "entryType", "urgencyType"}
  const CONTENT_STR_KEYS: set<string> := {"includeTime", "ts", "blockType"}
  const DECISION_STR_KEYS: set<string> := {"date", "number", "org"}

  /** content_known_keys as the source spells it: `frozenset(('hash'))` is the set of
      the letters of "hash", so the `hash` attribute itself is not known. */
  const CONTENT_KNOWN_KEYS_AS_WRITTEN: set<string> := CONTENT_INT_KEYS + CONTENT_STR_KEYS + {"h", "a", "s"}

  /** content_known_keys as intended: the int and str keys and `hash`. */
  const CONTENT_KNOWN_KEYS: set<string> := CONTENT_INT_KEYS + CONTENT_STR_KEYS + {"hash"}

  /** attr.get(key). */
  function Get(attrs: Attrs, key: string): Option<string>
  {
    if key in attrs then Some(attrs[key]) else None
  }

  /** int(attr[key]). */
  function IntAttr(attrs: Attrs, key: string): (r: Result<int, ParseError>)
    ensures r.Ok? <==> key in attrs && ParseInt(attrs[key]).Some?
    ensures r.Ok? ==> r.value == ParseInt(attrs[key]).value
  {
    if key !in attrs then Err(MissingAttr(key))
    else match ParseInt(attrs[key])
      case None => Err(BadInt(key))
      case Some(n) => Ok(n)
  }

  /** The urgencyType attribute: int() of it when present. */
  function OptIntAttr(attrs: Attrs, key: string): (r: Result<Option<int>, ParseError>)
    ensures key !in attrs ==> r == Ok(None)
    ensures key in attrs ==> (r.Ok? <==> ParseInt(attrs[key]).Some?)
    ensures key in attrs && r.Ok? ==> r.value == ParseInt(attrs[key])
  {
    if key !in attrs then Ok(None)
    else var n :- IntAttr(attrs, key); Ok(Some(n))
  }

  /** The dict built when a content element opens. */
  function NewContent(attrs: Attrs): Result<Content, ParseError>
  {
    var id :- IntAttr(attrs, "id");
    var entryType :- IntAttr(attrs, "entryType");
    var urgencyType :- OptIntAttr(attrs, "urgencyType");
    Ok(Content(id, entryType, urgencyType, Get(attrs, "includeTime"), Get(attrs, "ts"), Get(attrs, "blockType"),
               None, None, None, NO_VALUES))
  }

  /** Some attribute outside `known`: `attr.keys() - known` is not empty. */
  predicate HasUnknown(attrs: Attrs, known: set<string>)
  {
    !(attrs.Keys <= known)
  }

  /** The fields of a DumpParser and of its DumpParserErr. `content` is None before
      the first content element and after each one closes; `buf` is the character
      data of the value tag being read, None when no value tag is open. */
  datatype PState = PState(
    unknownAttrs: bool, unknownTags: bool, duplicateCdataTag: bool,
    content: Option<Content>, buf: Option<string>, tagTs: Option<string>)

  const INITIAL: PState := PState(false, false, false, None, None, None)

  /** open_tag with the known-keys set of content elements as a parameter. */
  function OpenedWith(contentKeys: set<string>, s: PState, tag: string, attrs: Attrs): Result<PState, ParseError>
  {
    if TagOf(tag).Some? then
      if s.buf.Some? then Err(NestedCdata)
      else Ok(s.(buf := Some(""), tagTs := Get(attrs, "ts"),
                 unknownAttrs := s.unknownAttrs || HasUnknown(attrs, {"ts"})))
    else if tag == "decision" then
      if s.content.None? then Err(NoContent)
      else
        var c := s.content.value;
        Ok(s.(content := Some(c.(decisionDate := Get(attrs, "date"), decisionNumber := Get(attrs, "number"),
                                 decisionOrg := Get(attrs, "org"))),
              unknownAttrs := s.unknownAttrs || HasUnknown(attrs, DECISION_STR_KEYS)))
    else if tag == "content" then
      var c :- NewContent(attrs);
      Ok(s.(content := Some(c), unknownAttrs := s.unknownAttrs || HasUnknown(attrs, contentKeys)))
    else if tag == "reg:register" then
      Ok(s.(unknownAttrs := s.unknownAttrs || HasUnknown(attrs, REGISTER_KNOWN_KEYS)))
    else
      Ok(s.(unknownTags := true))
  }

  /** open_tag. */
  function Opened(s: PState, tag: string, attrs: Attrs): Result<PState, ParseError>
  {
    OpenedWith(CONTENT_KNOWN_KEYS, s, tag, attrs)
  }

  /** Closing a content element: the has_* flags, and blockType made non-NULL. */
  function Close(c: Content): (r: Result<Record, ParseError>)
  {
    if c.blockType == Some(BLOCKTYPE_NULL) then Err(NullBlockType)
    else Ok(Record(c, if c.blockType.None? then BLOCKTYPE_NULL else c.blockType.value, Derive(c.values)))
  }

  /** close_tag: the new state and the record passed to content_cb, if any. */
  function Closed(s: PState, tag: string): Result<(PState, Option<Record>), ParseError>
  {
    if TagOf(tag).Some? then
      var t := TagOf(tag).value;
      if s.buf.None? then Err(NoCdata)
      else if s.content.None? then Err(NoContent)
      else
        var c := s.content.value;
        var cdata := s.buf.value;
        var dest := c.values.Get(t);
        Ok((s.(content := Some(c.(values := c.values.Set(t, dest[cdata := s.tagTs]))),
               buf := None, tagTs := None,
               duplicateCdataTag := s.duplicateCdataTag || cdata in dest), None))
    else if tag == "content" then
      if s.content.None? then Err(NoContent)
      else
        var r :- Close(s.content.value);
        Ok((s.(content := None), Some(r)))
    else Ok((s, None))
  }

  /** on_char_data, which is only installed while a value tag is open. */
  function WithCharData(s: PState, data: string): PState
  {
    if s.buf.Some? then s.(buf := Some(s.buf.value + data)) else s
  }

  /** The handler run for one parser event. */
  function Handled(s: PState, e: Event): Result<(PState, Option<Record>), ParseError>
  {
    match e
    case StartTag(name, attrs, _) => var s' :- Opened(s, name, attrs); Ok((s', None))
    case EndTag(name, _) => Closed(s, name)
    case CharData(data) => Ok((WithCharData(s, data), None))
  }

  function Emitted(r: Option<Record>): seq<Record>
  {
    if r.Some? then [r.value] else []
  }

  /** The records `out` handed over before the parse that gave `r`. */
  function Prepend(out: seq<Record>, r: Result<(PState, seq<Record>), ParseError>): Result<(PState, seq<Record>), ParseError>
  {
    match r
    case Err(e) => Err(e)
    case Ok(p) => Ok((p.0, out + p.1))
  }

  /** The handlers run for a run of events: the final state and the records passed
      to content_cb, in order; the first exception stops the parse. */
  function Parsed(s: PState, events: seq<Event>): Result<(PState, seq<Record>), ParseError>
    decreases |events|
  {
    if events == [] then Ok((s, []))
    else
      match Handled(s, events[0])
      case Err(e) => Err(e)
      case Ok(h) => Prepend(Emitted(h.1), Parsed(h.0, events[1..]))
  }

  // ---------------------------------------------------------------------------
  // What the handlers promise

  /** A content element needs integer id and entryType attributes and an integer
      urgencyType if it has one; it opens with every value map empty and the other
      fields unchanged, and flags any attribute outside content_known_keys. */
  lemma OpenContent(s: PState, attrs: Attrs)
    ensures var r := Opened(s, "content", attrs);
      && (r.Ok? <==> "id" in attrs && ParseInt(attrs["id"]).Some?
                     && "entryType" in attrs && ParseInt(attrs["entryType"]).Some?
                     && ("urgencyType" in attrs ==> ParseInt(attrs["urgencyType"]).Some?))
      && (r.Ok? ==>
            && r.value.content.Some?
            && r.value.content.value.id == ParseInt(attrs["id"]).value
            && r.value.content.value.entryType == ParseInt(attrs["entryType"]).value
            && r.value.content.value.urgencyType == (if "urgencyType" in attrs then ParseInt(attrs["urgencyType"]) else None)
            && r.value.content.value.blockType == Get(attrs, "blockType")
            && r.value.content.value.values == NO_VALUES
            && (r.value.unknownAttrs <==> s.unknownAttrs || HasUnknown(attrs, CONTENT_KNOWN_KEYS))
            && r.value == s.(content := r.value.content, unknownAttrs := r.value.unknownAttrs))
  {
  }

  /** start_cdata_writer asserts that no value tag is open: a value tag inside a
      value tag aborts the parse, and opening one outside starts an empty buffer. */
  lemma OpenValue(s: PState, t: ValueTag, attrs: Attrs)
    ensures var r := Opened(s, TagName(t), attrs);
      && (s.buf.Some? <==> r == Err(NestedCdata))
      && (s.buf.None? ==> r.Ok? && r.value.buf == Some("") && r.value.tagTs == Get(attrs, "ts")
                          && r.value.content == s.content
                          && (r.value.unknownAttrs <==> s.unknownAttrs || !(attrs.Keys <= {"ts"})))
  {
    assert TagOf(TagName(t)) == Some(t) by { TagOfName(t); }
  }

  /** Closing a value tag of an open content element stores the collected text
      under that tag, mapped to the tag's ts; it sets duplicate_cdata_tag exactly
      when the text was already there, and leaves the other five maps alone. */
  lemma CloseValue(s: PState, t: ValueTag)
    requires s.buf.Some? && s.content.Some?
    ensures var r := Closed(s, TagName(t));
      && r.Ok? && r.value.1 == None
      && var s' := r.value.0;
      && s'.content.Some? && s'.buf == None && s'.tagTs == None
      && s'.content.value.values.Get(t) == s.content.value.values.Get(t)[s.buf.value := s.tagTs]
      && (forall u :: u != t ==> s'.content.value.values.Get(u) == s.content.value.values.Get(u))
      && (s'.duplicateCdataTag <==> s.duplicateCdataTag || s.buf.value in s.content.value.values.Get(t))
      && s'.content.value.(values := NO_VALUES) == s.content.value.(values := NO_VALUES)
  {
    assert TagOf(TagName(t)) == Some(t) by { TagOfName(t); }
  }

  /** A closing content element hands over a record whose blockType is never
      NULL: an absent blockType becomes BLOCKTYPE_NULL, and a blockType spelled
      like BLOCKTYPE_NULL aborts the parse. The has_* flags are consistent. */
  lemma CloseContent(s: PState)
    requires s.content.Some?
    ensures var c := s.content.value; var r := Closed(s, "content");
      && (r.Err? <==> c.blockType == Some(BLOCKTYPE_NULL))
      && (r.Ok? ==>
            && r.value.0 == s.(content := None)
            && r.value.1.Some?
            && var rec := r.value.1.value;
            && rec.content == c
            && (rec.blockType == BLOCKTYPE_NULL <==> c.blockType.None?)
            && (c.blockType.Some? ==> rec.blockType == c.blockType.value)
            && rec.derived == Derive(c.values))
  {
  }

  /** Tags the parser does not know never abort it: they only set unknown_tags. */
  lemma UnknownTag(s: PState, tag: string, attrs: Attrs)
    requires TagOf(tag).None? && tag !in {"decision", "content", "reg:register"}
    ensures Opened(s, tag, attrs) == Ok(s.(unknownTags := true))
    ensures Closed(s, tag) == Ok((s, None))
  {
  }

  /** Finding, as written: with `frozenset(('hash'))` a content element that
      carries the `hash` attribute is flagged, whatever its other attributes. */
  lemma HashFlagged(s: PState, attrs: Attrs)
    requires "hash" in attrs
    ensures var r := OpenedWith(CONTENT_KNOWN_KEYS_AS_WRITTEN, s, "content", attrs);
      r.Ok? ==> r.value.unknownAttrs
  {
    assert "hash" !in CONTENT_KNOWN_KEYS_AS_WRITTEN;
  }

  /** A content element whose id and entryType parse opens, under any known-keys set. */
  lemma ContentOpens(keys: set<string>, s: PState, attrs: Attrs)
    requires NewContent(attrs).Ok?
    ensures OpenedWith(keys, s, "content", attrs)
         == Ok(s.(content := Some(NewContent(attrs).value), unknownAttrs := s.unknownAttrs || HasUnknown(attrs, keys)))
  {
    assert TagOf("content") == None;
  }

  /** Finding, as written, on one input: `<content id="1" entryType="0" hash="00">`
      opens fine and is flagged as having an unknown attribute. */
  lemma HashFlaggedAsWritten()
    ensures var attrs := map["id" := "1", "entryType" := "0", "hash" := "00"];
      var r := OpenedWith(CONTENT_KNOWN_KEYS_AS_WRITTEN, INITIAL, "content", attrs);
      r.Ok? && r.value.unknownAttrs
  {
    var attrs := map["id" := "1", "entryType" := "0", "hash" := "00"];
    SampleContentParses(attrs);
    HashFlaggedOpens(attrs);
  }

  lemma SampleContentParses(attrs: Attrs)
    requires attrs == map["id" := "1", "entryType" := "0", "hash" := "00"]
    ensures NewContent(attrs).Ok? && "hash" in attrs
  {
    ParseDigits("1");
    ParseDigits("0");
    assert attrs["id"] == "1" && attrs["entryType"] == "0";
    assert "urgencyType" !in attrs;
  }

  lemma HashFlaggedOpens(attrs: Attrs)
    requires NewContent(attrs).Ok? && "hash" in attrs
    ensures var r := OpenedWith(CONTENT_KNOWN_KEYS_AS_WRITTEN, INITIAL, "content", attrs);
      r.Ok? && r.value.unknownAttrs
  {
    ContentOpens(CONTENT_KNOWN_KEYS_AS_WRITTEN, INITIAL, attrs);
    HashFlagged(INITIAL, attrs);
  }

  /** Finding, corrected: with `hash` among the known keys, a content element
      whose attributes are all known is never flagged. */
  lemma HashKnown(s: PState, attrs: Attrs)
    requires attrs.Keys <= CONTENT_INT_KEYS + CONTENT_STR_KEYS + {"hash"}
    ensures var r := Opened(s, "content", attrs);
      r.Ok? ==> r.value.unknownAttrs == s.unknownAttrs
  {
  }

  // ---------------------------------------------------------------------------
  // What a whole parse promises

  /** The flags of DumpParserErr are only ever set, never cleared. */
  predicate FlagsKept(s: PState, s': PState)
  {
    && (s.unknownAttrs ==> s'.unknownAttrs)
    && (s.unknownTags ==> s'.unknownTags)
    && (s.duplicateCdataTag ==> s'.duplicateCdataTag)
  }

  /** A record as content_cb receives it: blockType not NULL, flags from its values. */
  predicate Delivered(rec: Record)
  {
    && rec.content.blockType != Some(BLOCKTYPE_NULL)
    && rec.blockType == (if rec.content.blockType.None? then BLOCKTYPE_NULL else rec.content.blockType.value)
    && rec.derived == Derive(rec.content.values)
  }

  /** One handler keeps the flags and hands over only closed records. */
  lemma HandledKeeps(s: PState, e: Event)
    ensures var h := Handled(s, e);
      h.Ok? ==> FlagsKept(s, h.value.0) && forall rec <- Emitted(h.value.1) :: Delivered(rec)
  {
    if e.EndTag? && e.name == "content" && s.content.Some? {
      CloseContent(s);
    }
  }

  /** Over a whole parse the flags are only set, and every record handed to
      content_cb has a non-NULL blockType and has_* flags derived from its values. */
  lemma {:induction false} ParsedKeeps(s: PState, events: seq<Event>)
    ensures var r := Parsed(s, events);
      r.Ok? ==> FlagsKept(s, r.value.0) && forall rec <- r.value.1 :: Delivered(rec)
    decreases |events|
  {
    if events != [] {
      var h := Handled(s, events[0]);
      HandledKeeps(s, events[0]);
      if h.Ok? {
        ParsedKeeps(h.value.0, events[1..]);
      }
    }
  }

  /** Parsing in chunks is parsing the concatenation: the second chunk starts from
      the state the first left (expat keeps its state between Parse calls). */
  lemma {:induction false} ParsedAppend(s: PState, e1: seq<Event>, e2: seq<Event>)
    ensures Parsed(s, e1 + e2) ==
      match Parsed(s, e1)
      case Err(e) => Err(e)
      case Ok(p) => Prepend(p.1, Parsed(p.0, e2))
    decreases |e1|
  {
    if e1 == [] {
      assert e1 + e2 == e2;
      var x := Parsed(s, e2);
      if x.Ok? {
        AppendEmpty(x.value.1);
      }
    } else {
      assert (e1 + e2)[0] == e1[0];
      assert (e1 + e2)[1..] == e1[1..] + e2;
      var h := Handled(s, e1[0]);
      if h.Ok? {
        ParsedAppend(h.value.0, e1[1..], e2);
        var q := Parsed(h.value.0, e1[1..]);
        if q.Ok? {
          var x := Parsed(q.value.0, e2);
          var em := Emitted(h.value.1);
          if x.Ok? {
            AppendAssoc(em, q.value.1, x.value.1);
          }
        }
      }
    }
  }

  // ---------------------------------------------------------------------------
  // The parser objects

  /** The three flags a parse raises instead of failing. */
  class DumpParserErr {
    var unknownAttrs: bool
    var unknownTags: bool
    var duplicateCdataTag: bool

    constructor ()
      ensures !unknownAttrs && !unknownTags && !duplicateCdataTag
    {
      unknownAttrs := false;
      unknownTags := false;
      duplicateCdataTag := false;
    }
  }

  /** A streaming parser of one dump: the expat callbacks update the content being
      read and the value buffer, and each closed content element is handed over. */
  class DumpParser {
    const err: DumpParserErr
    var content: Option<Content>
    var buf: Option<string>
    var tagTs: Option<string>

    function State(): PState
      reads this, err
    {
      PState(err.unknownAttrs, err.unknownTags, err.duplicateCdataTag, content, buf, tagTs)
    }

    constructor ()
      ensures State() == INITIAL && fresh(err)
    {
      err := new DumpParserErr();
      content := None;
      buf := None;
      tagTs := None;
    }

    /** open_tag: Pass with the new state, or the exception it raises. */
    method OpenTag(tag: string, attrs: Attrs) returns (res: Outcome<ParseError>)
      modifies this, err
      ensures var r := Opened(old(State()), tag, attrs);
        && (r.Ok? ==> res == Pass && State() == r.value)
        && (r.Err? ==> res == Fail(r.error))
    {
      res := Pass;
      if TagOf(tag).Some? {
        if buf.Some? {
          return Fail(NestedCdata);
        }
        buf := Some("");
        tagTs := Get(attrs, "ts");
        if HasUnknown(attrs, {"ts"}) {
          err.unknownAttrs := true;
        }
      } else if tag == "decision" {
        if content.None? {
          return Fail(NoContent);
        }
        content := Some(content.value.(decisionDate := Get(attrs, "date"),
                                       decisionNumber := Get(attrs, "number"),
                                       decisionOrg := Get(attrs, "org")));
        if HasUnknown(attrs, DECISION_STR_KEYS) {
          err.unknownAttrs := true;
        }
      } else if tag == "content" {
        var c := NewContent(attrs);
        if c.Err? {
          return Fail(c.error);
        }
        content := Some(c.value);
        if HasUnknown(attrs, CONTENT_KNOWN_KEYS) {
          err.unknownAttrs := true;
        }
      } else if tag == "reg:register" {
        if HasUnknown(attrs, REGISTER_KNOWN_KEYS) {
          err.unknownAttrs := true;
        }
      } else {
        err.unknownTags := true;
      }
    }

    /** close_tag: the record handed to content_cb, if any, or the exception. */
    method CloseTag(tag: string) returns (res: Result<Option<Record>, ParseError>)
      modifies this, err
      ensures var r := Closed(old(State()), tag);
        && (r.Ok? ==> res == Ok(r.value.1) && State() == r.value.0)
        && (r.Err? ==> res == Err(r.error))
    {
      res := Ok(None);
      var t := TagOf(tag);
      if t.Some? {
        if buf.None? {
          return Err(NoCdata);
        }
        var cdata := buf.value;
        buf := None;
        if content.None? {
          return Err(NoContent);
        }
        var dest := content.value.values.Get(t.value);
        if cdata in dest {
          err.duplicateCdataTag := true;
        }
        content := Some(content.value.(values := content.value.values.Set(t.value, dest[cdata := tagTs])));
        tagTs := None;
      } else if tag == "content" {
        if content.None? {
          return Err(NoContent);
        }
        var c := content.value;
        content := None;
        var r := Close(c);
        if r.Err? {
          return Err(r.error);
        }
        res := Ok(Some(r.value));
      }
    }

    /** on_char_data, installed only between start_cdata_writer and pop_cdata. */
    method CharData(data: string)
      modifies this
      ensures State() == WithCharData(old(State()), data)
    {
      if buf.Some? {
        buf := Some(buf.value + data);
      }
    }

    /** The callback expat makes for one event. */
    method Handle(e: Event) returns (res: Result<Option<Record>, ParseError>)
      modifies this, err
      ensures var r := Handled(old(State()), e);
        && (r.Ok? ==> res == Ok(r.value.1) && State() == r.value.0)
        && (r.Err? ==> res == Err(r.error))
    {
      match e {
        case StartTag(name, attrs, _) =>
          var o := OpenTag(name, attrs);
          res := if o.Fail? then Err(o.error) else Ok(None);
        case EndTag(name, _) =>
          res := CloseTag(name);
        case CharData(data) =>
          CharData(data);
          res := Ok(None);
      }
    }

    /** Parse: the callbacks for the events of one chunk, in order; the records
        handed to content_cb, or the first exception. */
    method Parse(events: seq<Event>) returns (res: Result<seq<Record>, ParseError>)
      modifies this, err
      ensures var r := Parsed(old(State()), events);
        && (r.Ok? ==> res == Ok(r.value.1) && State() == r.value.0)
        && (r.Err? ==> res == Err(r.error))
    {
      var out: seq<Record> := [];
      var i := 0;
      PrependAppend([], [], Parsed(State(), events));
      while i < |events|
        invariant 0 <= i <= |events|
        invariant Parsed(old(State()), events) == Prepend(out, Parsed(State(), events[i..]))
      {
        ghost var s := State();
        var e := events[i];
        assert events[i..][0] == e && events[i..][1..] == events[i + 1..];
        var h := Handle(e);
        if h.Err? {
          return Err(h.error);
        }
        var emitted := h.value;
        PrependAppend(out, Emitted(emitted), Parsed(State(), events[i + 1..]));
        out := out + Emitted(emitted);
        i := i + 1;
      }
      assert events[i..] == [] && out + [] == out;
      res := Ok(out);
    }
  }

  lemma PrependAppend(a: seq<Record>, b: seq<Record>, r: Result<(PState, seq<Record>), ParseError>)
    ensures Prepend(a, Prepend(b, r)) == Prepend(a + b, r)
    ensures Prepend([], r) == r
  {
    if r.Ok? {
      assert a + (b + r.value.1) == (a + b) + r.value.1;
      assert [] + r.value.1 == r.value.1;
    }
  }

  // ---------------------------------------------------------------------------
  // Merger: pairing the records of the two documents by id

  /** One yielded item: the id, the record in the old document, the one in the new. */
  datatype Triple = Triple(id: int, before: Option<Record>, after: Option<Record>)

  /** acc1 / acc2: the records handed over by a parser and not yet yielded, by id. */
  type Acc = map<int, Record>

  predicate Keyed(acc: Acc)
  {
    forall k :: k in acc ==> acc[k].Id() == k
  }

  /** content_cb: acc[content['id']] = content, for each record in turn. */
  function Absorb(acc: Acc, recs: seq<Record>): (r: Acc)
    ensures Keyed(acc) ==> Keyed(r)
    ensures r.Keys == acc.Keys + set rec <- recs :: rec.Id()
    decreases |recs|
  {
    if recs == [] then acc else Absorb(acc[recs[0].Id() := recs[0]], recs[1..])
  }

  lemma Inhabited(s: set<int>)
    requires s != {}
    ensures exists y :: y in s
  {
    if forall y :: y !in s {
      assert false;
    }
  }

  /** The least element of a non-empty set of ids. */
  ghost function Least(s: set<int>): (m: int)
    requires s != {}
    ensures m in s && forall y :: y in s ==> m <= y
    decreases s
  {
    Inhabited(s);
    var x :| x in s;
    if s == {x} then
      x
    else
      var s' := s - {x};
      assert x in s && s' != {};
      var m := Least(s');
      assert forall y :: y in s ==> y == x || y in s';
      if x <= m then x else m
  }

  /** Popping k from both sides removes k from the common ids. */
  lemma PopCommonKey(acc1: Acc, acc2: Acc, k: int)
    requires k in acc1 && k in acc2
    ensures (acc1 - {k}).Keys * (acc2 - {k}).Keys == acc1.Keys * acc2.Keys - {k}
  {
  }

  /** The triple yielded for id k popped from one side. */
  function LoneOf(acc: Acc, k: int, isOld: bool): Triple
    requires k in acc
  {
    if isOld then Triple(k, Some(acc[k]), None) else Triple(k, None, Some(acc[k]))
  }

  /** The triple yielded for id k popped from both sides. */
  function PairOf(acc1: Acc, acc2: Acc, k: int): Triple
    requires k in acc1 && k in acc2
  {
    Triple(k, Some(acc1[k]), Some(acc2[k]))
  }

  /** `for k in acc1.keys() & acc2.keys(): yield k, acc1.pop(k), acc2.pop(k)`, the
      common ids taken least first: what stays in acc1 and acc2, and the triples. */
  ghost function Drained(acc1: Acc, acc2: Acc): (Acc, Acc, seq<Triple>)
    decreases acc1.Keys
  {
    var ks := acc1.Keys * acc2.Keys;
    if ks == {} then (acc1, acc2, [])
    else
      var k := Least(ks);
      PopCommonKey(acc1, acc2, k);
      var d := Drained(acc1 - {k}, acc2 - {k});
      (d.0, d.1, [PairOf(acc1, acc2, k)] + d.2)
  }

  /** `for k in list(acc.keys()): yield k, acc.pop(k), None` (the old side) or
      `yield k, None, acc.pop(k)` (the new side), least id first. */
  ghost function Lone(acc: Acc, isOld: bool): seq<Triple>
    decreases acc.Keys
  {
    if acc.Keys == {} then []
    else
      var k := Least(acc.Keys);
      assert (acc - {k}).Keys == acc.Keys - {k};
      [LoneOf(acc, k, isOld)] + Lone(acc - {k}, isOld)
  }

  /** The expat events delivered for one diff entry: p1.parse(v1), p2.parse(v2). */
  datatype Fed = Fed(entry: FileDiff.Entry, events1: seq<Event>, events2: seq<Event>)

  /** The merger between two entries: both parsers, both accumulators, seen_epilogue. */
  datatype Merging = Merging(s1: PState, s2: PState, acc1: Acc, acc2: Acc, seen: bool)

  const START: Merging := Merging(INITIAL, INITIAL, map[], map[], false)

  /** What the generator has produced when it finishes: every triple, both parser
      states (whose flags are err_from and err_to), and the final blob it parsed. */
  datatype Merged = Merged(triples: seq<Triple>, from: PState, to: PState, blob: bytes)

  /** b'</reg:register>'. */
  const REGISTER_END: bytes := [60, 47, 114, 101, 103, 58, 114, 101, 103, 105, 115, 116, 101, 114, 62]

  /** The blob given to the final parse: empty once the epilogue entry has been seen,
      otherwise the closing tag of the register. */
  function FinalBlob(seen: bool): (r: bytes)
    ensures r == [] <==> seen
  {
    if seen then [] else REGISTER_END
  }

  /** One entry of read_content_diff: both documents parsed, then the common ids drained. */
  ghost function Step(m: Merging, f: Fed): Result<(Merging, seq<Triple>), ParseError>
  {
    match Parsed(m.s1, f.events1)
    case Err(e) => Err(e)
    case Ok(p1) =>
      match Parsed(m.s2, f.events2)
      case Err(e) => Err(e)
      case Ok(p2) =>
        var d := Drained(Absorb(m.acc1, p1.1), Absorb(m.acc2, p2.1));
        Ok((Merging(p1.0, p2.0, d.0, d.1, m.seen || f.entry.id == FileDiff.CONTENT_EPILOGUE), d.2))
  }

  /** The triples `out` yielded before the run that gave `r`. */
  function Yielded(out: seq<Triple>, r: Result<(Merging, seq<Triple>), ParseError>): Result<(Merging, seq<Triple>), ParseError>
  {
    match r
    case Err(e) => Err(e)
    case Ok(p) => Ok((p.0, out + p.1))
  }

  /** The loop over read_content_diff. */
  ghost function Steps(m: Merging, fed: seq<Fed>): Result<(Merging, seq<Triple>), ParseError>
    decreases |fed|
  {
    if fed == [] then Ok((m, []))
    else
      match Step(m, fed[0])
      case Err(e) => Err(e)
      case Ok(p) => Yielded(p.1, Steps(p.0, fed[1..]))
  }

  /** After the loop: the final parse, one more drain of common ids, then the old-only
      and the new-only leftovers. `closing1`/`closing2` are the events expat delivers
      for the final blob. */
  ghost function Finish(m: Merging, closing1: seq<Event>, closing2: seq<Event>): Result<Merged, ParseError>
  {
    match Parsed(m.s1, closing1)
    case Err(e) => Err(e)
    case Ok(p1) =>
      match Parsed(m.s2, closing2)
      case Err(e) => Err(e)
      case Ok(p2) =>
        var d := Drained(Absorb(m.acc1, p1.1), Absorb(m.acc2, p2.1));
        Ok(Merged(d.2 + Lone(d.0, true) + Lone(d.1, false), p1.0, p2.0, FinalBlob(m.seen)))
  }

  /** make_content_iter_from_xdelta, run to the end. */
  ghost function Merge(fed: seq<Fed>, closing1: seq<Event>, closing2: seq<Event>): Result<Merged, ParseError>
  {
    match Steps(START, fed)
    case Err(e) => Err(e)
    case Ok(p) =>
      match Finish(p.0, closing1, closing2)
      case Err(e) => Err(e)
      case Ok(f) => Ok(f.(triples := p.1 + f.triples))
  }


  // ---------------------------------------------------------------------------
  // What the merger promises

  /** Draining leaves behind exactly the ids present on one side only, with their
      records. */
  lemma {:induction false} DrainedRest(acc1: Acc, acc2: Acc)
    ensures var d := Drained(acc1, acc2);
      && d.0.Keys == acc1.Keys - acc2.Keys && d.1.Keys == acc2.Keys - acc1.Keys
      && (forall k :: k in d.0 ==> d.0[k] == acc1[k])
      && (forall k :: k in d.1 ==> d.1[k] == acc2[k])
    decreases acc1.Keys
  {
    var ks := acc1.Keys * acc2.Keys;
    if ks == {} {
      forall k | k in acc1.Keys
        ensures k !in acc2.Keys
      {
        assert k !in ks;
      }
      assert acc1.Keys - acc2.Keys == acc1.Keys;
      assert acc2.Keys - acc1.Keys == acc2.Keys;
    } else {
      var k := Least(ks);
      PopCommonKey(acc1, acc2, k);
      var a1, a2 := acc1 - {k}, acc2 - {k};
      DrainedRest(a1, a2);
      assert Drained(acc1, acc2).0 == Drained(a1, a2).0 && Drained(acc1, acc2).1 == Drained(a1, a2).1;
      assert a1.Keys - a2.Keys == acc1.Keys - acc2.Keys;
      assert a2.Keys - a1.Keys == acc2.Keys - acc1.Keys;
    }
  }

  lemma LoneUnfold(acc: Acc, isOld: bool)
    requires acc.Keys != {}
    ensures var k := Least(acc.Keys);
      (acc - {k}).Keys < acc.Keys && Lone(acc, isOld) == [LoneOf(acc, k, isOld)] + Lone(acc - {k}, isOld)
  {
  }

  lemma {:induction false} LoneElems(acc: Acc, isOld: bool)
    ensures var out := Lone(acc, isOld);
      forall i :: 0 <= i < |out| ==> out[i].id in acc && out[i] == LoneOf(acc, out[i].id, isOld)
    decreases acc.Keys
  {
    if acc.Keys != {} {
      var k := Least(acc.Keys);
      LoneUnfold(acc, isOld);
      var a := acc - {k};
      LoneElems(a, isOld);
      var rest := Lone(a, isOld);
      var out := Lone(acc, isOld);
      forall i | 0 < i < |out|
        ensures out[i].id in acc && out[i] == LoneOf(acc, out[i].id, isOld)
      {
        assert out[i] == rest[i - 1];
      }
    }
  }

  lemma {:induction false} LoneCovers(acc: Acc, isOld: bool)
    ensures var out := Lone(acc, isOld);
      forall k :: k in acc ==> exists i :: 0 <= i < |out| && out[i].id == k
    decreases acc.Keys
  {
    if acc.Keys != {} {
      var k := Least(acc.Keys);
      LoneUnfold(acc, isOld);
      var a := acc - {k};
      LoneCovers(a, isOld);
      var rest := Lone(a, isOld);
      var out := Lone(acc, isOld);
      forall k' | k' in acc
        ensures exists i :: 0 <= i < |out| && out[i].id == k'
      {
        if k' == k {
          assert out[0].id == k';
        } else {
          assert k' in a;
          var j :| 0 <= j < |rest| && rest[j].id == k';
          assert out[j + 1].id == k';
        }
      }
    }
  }

  lemma {:induction false} LoneIncreasing(acc: Acc, isOld: bool)
    ensures var out := Lone(acc, isOld);
      forall i, j :: 0 <= i < j < |out| ==> out[i].id < out[j].id
    decreases acc.Keys
  {
    if acc.Keys != {} {
      var k := Least(acc.Keys);
      LoneUnfold(acc, isOld);
      var a := acc - {k};
      LoneIncreasing(a, isOld);
      LoneElems(a, isOld);
      var rest := Lone(a, isOld);
      var out := Lone(acc, isOld);
      forall i, j | 0 <= i < j < |out|
        ensures out[i].id < out[j].id
      {
        assert out[j] == rest[j - 1] && rest[j - 1].id in a;
        if i > 0 {
          assert out[i] == rest[i - 1];
        }
      }
    }
  }

  lemma DrainedUnfold(acc1: Acc, acc2: Acc)
    requires acc1.Keys * acc2.Keys != {}
    ensures var k := Least(acc1.Keys * acc2.Keys);
      && k in acc1 && k in acc2
      && (acc1 - {k}).Keys < acc1.Keys
      && var d := Drained(acc1 - {k}, acc2 - {k});
      Drained(acc1, acc2) == (d.0, d.1, [PairOf(acc1, acc2, k)] + d.2)
  {
  }

  lemma {:induction false} DrainedElems(acc1: Acc, acc2: Acc)
    ensures var out := Drained(acc1, acc2).2;
      forall i :: 0 <= i < |out| ==>
        out[i].id in acc1 && out[i].id in acc2 && out[i] == PairOf(acc1, acc2, out[i].id)
    decreases acc1.Keys
  {
    if acc1.Keys * acc2.Keys != {} {
      var k := Least(acc1.Keys * acc2.Keys);
      DrainedUnfold(acc1, acc2);
      var a1, a2 := acc1 - {k}, acc2 - {k};
      DrainedElems(a1, a2);
      var rest := Drained(a1, a2).2;
      var out := Drained(acc1, acc2).2;
      forall i | 0 < i < |out|
        ensures out[i].id in acc1 && out[i].id in acc2 && out[i] == PairOf(acc1, acc2, out[i].id)
      {
        assert out[i] == rest[i - 1];
      }
    }
  }

  lemma {:induction false} DrainedCovers(acc1: Acc, acc2: Acc)
    ensures var out := Drained(acc1, acc2).2;
      forall k :: k in acc1 && k in acc2 ==> exists i :: 0 <= i < |out| && out[i].id == k
    decreases acc1.Keys
  {
    if acc1.Keys * acc2.Keys == {} {
      assert forall k :: k in acc1 && k in acc2 ==> k in acc1.Keys * acc2.Keys;
    } else {
      var k := Least(acc1.Keys * acc2.Keys);
      DrainedUnfold(acc1, acc2);
      var a1, a2 := acc1 - {k}, acc2 - {k};
      DrainedCovers(a1, a2);
      var rest := Drained(a1, a2).2;
      var out := Drained(acc1, acc2).2;
      forall k' | k' in acc1 && k' in acc2
        ensures exists i :: 0 <= i < |out| && out[i].id == k'
      {
        if k' == k {
          assert out[0].id == k';
        } else {
          assert k' in a1 && k' in a2;
          var j :| 0 <= j < |rest| && rest[j].id == k';
          assert out[j + 1].id == k';
        }
      }
    }
  }

  lemma {:induction false} DrainedIncreasing(acc1: Acc, acc2: Acc)
    ensures var out := Drained(acc1, acc2).2;
      forall i, j :: 0 <= i < j < |out| ==> out[i].id < out[j].id
    decreases acc1.Keys
  {
    var ks := acc1.Keys * acc2.Keys;
    if ks != {} {
      var k := Least(ks);
      DrainedUnfold(acc1, acc2);
      var a1, a2 := acc1 - {k}, acc2 - {k};
      DrainedIncreasing(a1, a2);
      DrainedElems(a1, a2);
      var rest := Drained(a1, a2).2;
      var out := Drained(acc1, acc2).2;
      forall i, j | 0 <= i < j < |out|
        ensures out[i].id < out[j].id
      {
        assert out[j] == rest[j - 1] && rest[j - 1].id in a1 && rest[j - 1].id in a2;
        assert rest[j - 1].id in ks;
        if i > 0 {
          assert out[i] == rest[i - 1];
        }
      }
    }
  }

  /** The assertion of fetch_diff_from_xdelta: every present record carries the id
      it is yielded under, and no triple is empty. */
  predicate WellPaired(t: Triple)
  {
    && (t.before.Some? || t.after.Some?)
    && (t.before.Some? ==> t.before.value.Id() == t.id)
    && (t.after.Some? ==> t.after.value.Id() == t.id)
  }

  predicate AllWellPaired(ts: seq<Triple>)
  {
    forall i :: 0 <= i < |ts| ==> WellPaired(ts[i])
  }

  lemma AllWellPairedAppend(a: seq<Triple>, b: seq<Triple>)
    requires AllWellPaired(a) && AllWellPaired(b)
    ensures AllWellPaired(a + b)
  {
    assert forall i :: |a| <= i < |a + b| ==> (a + b)[i] == b[i - |a|];
  }

  /** Draining keyed accumulators keeps them keyed and yields well-paired triples. */
  lemma DrainedKeyed(acc1: Acc, acc2: Acc)
    requires Keyed(acc1) && Keyed(acc2)
    ensures var d := Drained(acc1, acc2); Keyed(d.0) && Keyed(d.1) && AllWellPaired(d.2)
  {
    DrainedRest(acc1, acc2);
    DrainedElems(acc1, acc2);
  }

  lemma LoneKeyed(acc: Acc, isOld: bool)
    requires Keyed(acc)
    ensures AllWellPaired(Lone(acc, isOld))
  {
    LoneElems(acc, isOld);
  }

  predicate KeyedMerging(m: Merging)
  {
    Keyed(m.acc1) && Keyed(m.acc2)
  }

  /** One entry keeps the accumulators keyed, yields well-paired triples, and sets
      seen_epilogue exactly when the entry is the epilogue. */
  lemma StepFacts(m: Merging, f: Fed)
    requires KeyedMerging(m)
    ensures var r := Step(m, f);
      r.Ok? ==> KeyedMerging(r.value.0) && AllWellPaired(r.value.1)
                && r.value.0.seen == (m.seen || f.entry.id == FileDiff.CONTENT_EPILOGUE)
  {
    var r1 := Parsed(m.s1, f.events1);
    var r2 := Parsed(m.s2, f.events2);
    if r1.Ok? && r2.Ok? {
      DrainedKeyed(Absorb(m.acc1, r1.value.1), Absorb(m.acc2, r2.value.1));
    }
  }

  /** Some entry of `fed` is the epilogue. */
  predicate SeenEpilogue(fed: seq<Fed>)
  {
    exists i :: 0 <= i < |fed| && fed[i].entry.id == FileDiff.CONTENT_EPILOGUE
  }

  lemma SeenCons(fed: seq<Fed>)
    requires fed != []
    ensures SeenEpilogue(fed) == (fed[0].entry.id == FileDiff.CONTENT_EPILOGUE || SeenEpilogue(fed[1..]))
  {
    if SeenEpilogue(fed[1..]) {
      var i :| 0 <= i < |fed[1..]| && fed[1..][i].entry.id == FileDiff.CONTENT_EPILOGUE;
      assert fed[i + 1] == fed[1..][i];
    }
    if SeenEpilogue(fed) && fed[0].entry.id != FileDiff.CONTENT_EPILOGUE {
      var i :| 0 <= i < |fed| && fed[i].entry.id == FileDiff.CONTENT_EPILOGUE;
      assert fed[1..][i - 1] == fed[i];
    }
  }

  /** The whole loop over the entries keeps the accumulators keyed, yields only
      well-paired triples, and ends with seen_epilogue set exactly when some entry
      was the epilogue. */
  lemma {:induction false} StepsFacts(m: Merging, fed: seq<Fed>)
    requires KeyedMerging(m)
    ensures var r := Steps(m, fed);
      r.Ok? ==> KeyedMerging(r.value.0) && AllWellPaired(r.value.1)
                && r.value.0.seen == (m.seen || SeenEpilogue(fed))
    decreases |fed|
  {
    if fed != [] {
      StepFacts(m, fed[0]);
      var h := Step(m, fed[0]);
      if h.Ok? {
        StepsFacts(h.value.0, fed[1..]);
        var r := Steps(h.value.0, fed[1..]);
        if r.Ok? {
          AllWellPairedAppend(h.value.1, r.value.1);
        }
        SeenCons(fed);
      }
    }
  }

  /** The whole merger: every triple is well paired (so the assertion of
      fetch_diff_from_xdelta never fails), and the final blob is b'' exactly when
      the epilogue entry was among the entries read. */
  lemma MergeFacts(fed: seq<Fed>, closing1: seq<Event>, closing2: seq<Event>)
    ensures var r := Merge(fed, closing1, closing2);
      r.Ok? ==> AllWellPaired(r.value.triples) && r.value.blob == FinalBlob(SeenEpilogue(fed))
  {
    StepsFacts(START, fed);
    var p := Steps(START, fed);
    if p.Ok? {
      var m := p.value.0;
      var f := Finish(m, closing1, closing2);
      if f.Ok? {
        var r1 := Parsed(m.s1, closing1);
        var r2 := Parsed(m.s2, closing2);
        var d := Drained(Absorb(m.acc1, r1.value.1), Absorb(m.acc2, r2.value.1));
        DrainedKeyed(Absorb(m.acc1, r1.value.1), Absorb(m.acc2, r2.value.1));
        LoneKeyed(d.0, true);
        LoneKeyed(d.1, false);
        AllWellPairedAppend(d.2, Lone(d.0, true));
        AllWellPairedAppend(d.2 + Lone(d.0, true), Lone(d.1, false));
        AllWellPairedAppend(p.value.1, f.value.triples);
      }
    }
  }

  // ---------------------------------------------------------------------------
  // The merger, step by step

  /** The least id of a non-empty set, as the loops pick it. */
  method PickLeast(ks: set<int>) returns (k: int)
    requires ks != {}
    ensures k == Least(ks)
  {
    ghost var m := Least(ks);
    k :| k in ks && forall x :: x in ks ==> k <= x;
    assert k <= m && m <= k;
  }

  /** `for k in acc1.keys() & acc2.keys(): yield k, acc1.pop(k), acc2.pop(k)`. */
  method PopCommon(acc1: Acc, acc2: Acc) returns (rest1: Acc, rest2: Acc, out: seq<Triple>)
    ensures (rest1, rest2, out) == Drained(acc1, acc2)
  {
    rest1, rest2, out := acc1, acc2, [];
    var ks := acc1.Keys * acc2.Keys;
    assert [] + Drained(acc1, acc2).2 == Drained(acc1, acc2).2;
    while ks != {}
      invariant ks == rest1.Keys * rest2.Keys
      invariant var d := Drained(rest1, rest2); Drained(acc1, acc2) == (d.0, d.1, out + d.2)
      decreases rest1.Keys
    {
      var k := PickLeast(ks);
      DrainedUnfold(rest1, rest2);
      ghost var d := Drained(rest1 - {k}, rest2 - {k});
      assert out + ([PairOf(rest1, rest2, k)] + d.2) == (out + [PairOf(rest1, rest2, k)]) + d.2;
      out := out + [PairOf(rest1, rest2, k)];
      PopCommonKey(rest1, rest2, k);
      rest1, rest2 := rest1 - {k}, rest2 - {k};
      ks := ks - {k};
    }
    assert out + [] == out;
  }

  /** `for k in list(acc.keys()): yield k, acc.pop(k), None` (or the record on the
      new side), emptying acc. */
  method PopLone(acc: Acc, isOld: bool) returns (out: seq<Triple>)
    ensures out == Lone(acc, isOld)
  {
    var rest := acc;
    out := [];
    var ks := acc.Keys;
    while ks != {}
      invariant ks == rest.Keys
      invariant Lone(acc, isOld) == out + Lone(rest, isOld)
      decreases rest.Keys
    {
      var k := PickLeast(ks);
      LoneUnfold(rest, isOld);
      assert out + ([LoneOf(rest, k, isOld)] + Lone(rest - {k}, isOld))
          == (out + [LoneOf(rest, k, isOld)]) + Lone(rest - {k}, isOld);
      out := out + [LoneOf(rest, k, isOld)];
      rest := rest - {k};
      ks := ks - {k};
    }
    assert out + [] == out;
  }

  lemma YieldedAppend(a: seq<Triple>, b: seq<Triple>, r: Result<(Merging, seq<Triple>), ParseError>)
    ensures Yielded(a, Yielded(b, r)) == Yielded(a + b, r)
    ensures Yielded([], r) == r
  {
    if r.Ok? {
      assert a + (b + r.value.1) == (a + b) + r.value.1;
      assert [] + r.value.1 == r.value.1;
    }
  }

  /** One pass of the loop over read_content_diff: seen_epilogue, both parses, and
      the common ids drained. */
  method Advance(p1: DumpParser, p2: DumpParser, acc1: Acc, acc2: Acc, seen: bool, f: Fed)
    returns (r: Result<(Acc, Acc, bool, seq<Triple>), ParseError>)
    requires p1 != p2 && p1.err != p2.err
    modifies p1, p1.err, p2, p2.err
    ensures var st := Step(old(Merging(p1.State(), p2.State(), acc1, acc2, seen)), f);
      && (st.Err? ==> r == Err(st.error))
      && (st.Ok? ==> r.Ok? && st.value == (Merging(p1.State(), p2.State(), r.value.0, r.value.1, r.value.2), r.value.3))
  {
    var seen' := seen || f.entry.id == FileDiff.CONTENT_EPILOGUE;
    var r1 := p1.Parse(f.events1);
    if r1.Err? {
      return Err(r1.error);
    }
    var r2 := p2.Parse(f.events2);
    if r2.Err? {
      return Err(r2.error);
    }
    var a1, a2, drained := PopCommon(Absorb(acc1, r1.value), Absorb(acc2, r2.value));
    r := Ok((a1, a2, seen', drained));
  }

  /** After the loop: the final blob parsed, the common ids drained, then the
      leftovers of each side. */
  method Complete(p1: DumpParser, p2: DumpParser, acc1: Acc, acc2: Acc, seen: bool, closing1: seq<Event>, closing2: seq<Event>)
    returns (res: Result<Merged, ParseError>)
    requires p1 != p2 && p1.err != p2.err
    modifies p1, p1.err, p2, p2.err
    ensures res == Finish(old(Merging(p1.State(), p2.State(), acc1, acc2, seen)), closing1, closing2)
  {
    var blob := FinalBlob(seen);
    var r1 := p1.Parse(closing1);
    if r1.Err? {
      return Err(r1.error);
    }
    var r2 := p2.Parse(closing2);
    if r2.Err? {
      return Err(r2.error);
    }
    var a1, a2, common := PopCommon(Absorb(acc1, r1.value), Absorb(acc2, r2.value));
    var lone1 := PopLone(a1, true);
    var lone2 := PopLone(a2, false);
    res := Ok(Merged(common + lone1 + lone2, p1.State(), p2.State(), blob));
  }

  /** make_content_iter_from_xdelta and its generator run to the end: two parsers
      over the entries read, the triples in the order yielded, and the parsers'
      states (err_from, err_to) once they are settled. */
  method MergeRecords(fed: seq<Fed>, closing1: seq<Event>, closing2: seq<Event>) returns (res: Result<Merged, ParseError>)
    ensures res == Merge(fed, closing1, closing2)
  {
    var p1 := new DumpParser();
    var p2 := new DumpParser();
    var acc1: Acc := map[];
    var acc2: Acc := map[];
    var seen := false;
    var out: seq<Triple> := [];
    YieldedAppend([], [], Steps(START, fed));
    var i := 0;
    while i < |fed|
      invariant 0 <= i <= |fed|
      invariant p1 != p2 && p1.err != p2.err
      invariant Steps(START, fed) == Yielded(out, Steps(Merging(p1.State(), p2.State(), acc1, acc2, seen), fed[i..]))
    {
      assert fed[i..][0] == fed[i] && fed[i..][1..] == fed[i + 1..];
      var r := Advance(p1, p2, acc1, acc2, seen, fed[i]);
      if r.Err? {
        return Err(r.error);
      }
      var drained;
      acc1, acc2, seen, drained := r.value.0, r.value.1, r.value.2, r.value.3;
      YieldedAppend(out, drained, Steps(Merging(p1.State(), p2.State(), acc1, acc2, seen), fed[i + 1..]));
      out := out + drained;
      i := i + 1;
    }
    assert out + [] == out;
    var f := Complete(p1, p2, acc1, acc2, seen, closing1, closing2);
    if f.Err? {
      return Err(f.error);
    }
    res := Ok(f.value.(triples := out + f.value.triples));
  }

  // ---------------------------------------------------------------------------
  // del_commons: dropping what the two versions of a record share

  /** The fields of CONTENT_PREKEY: id, blockType and the seven has_* flags. */
  datatype Prekey = Prekey(id: int, blockType: string, derived: Derived)

  function PrekeyOf(r: Record): Prekey
  {
    Prekey(r.Id(), r.blockType, r.derived)
  }

  /** The values of `c1[tag].items() & c2[tag].items()`: present on both sides with
      the same tag ts. */
  function Shared(e1: Entries, e2: Entries): (r: set<string>)
    ensures forall k :: k in r <==> k in e1 && k in e2 && e1[k] == e2[k]
  {
    set k | k in e1 && k in e2 && e1[k] == e2[k]
  }

  /** Each value map with the shared items deleted. */
  function Reduced(v1: Values, v2: Values): Values
  {
    Values(v1.url - Shared(v1.url, v2.url), v1.domain - Shared(v1.domain, v2.domain),
           v1.ip - Shared(v1.ip, v2.ip), v1.ipv6 - Shared(v1.ipv6, v2.ipv6),
           v1.ipSubnet - Shared(v1.ipSubnet, v2.ipSubnet), v1.ipv6Subnet - Shared(v1.ipv6Subnet, v2.ipv6Subnet))
  }

  lemma ReducedGet(v1: Values, v2: Values, t: ValueTag)
    ensures Reduced(v1, v2).Get(t) == v1.Get(t) - Shared(v1.Get(t), v2.Get(t))
  {
  }

  lemma ReducedAll(v1: Values, v2: Values)
    ensures forall t :: Reduced(v1, v2).Get(t) == v1.Get(t) - Shared(v1.Get(t), v2.Get(t))
  {
    forall t
      ensures Reduced(v1, v2).Get(t) == v1.Get(t) - Shared(v1.Get(t), v2.Get(t))
    {
      ReducedGet(v1, v2, t);
    }
  }

  function WithValues(r: Record, v: Values): Record
  {
    r.(content := r.content.(values := v))
  }

  /** Both records, and the same CONTENT_PREKEY on each. */
  predicate SamePrekey(c1: Option<Record>, c2: Option<Record>)
  {
    c1.Some? && c2.Some? && PrekeyOf(c1.value) == PrekeyOf(c2.value)
  }

  /** del_commons(c1, c2): the pair after the call. */
  function DelCommons(c1: Option<Record>, c2: Option<Record>): (Option<Record>, Option<Record>)
  {
    if !SamePrekey(c1, c2) then (c1, c2)
    else
      var v1, v2 := c1.value.content.values, c2.value.content.values;
      (Some(WithValues(c1.value, Reduced(v1, v2))), Some(WithValues(c2.value, Reduced(v2, v1))))
  }

  /** del_commons leaves a pair alone unless both records are there with the same
      CONTENT_PREKEY; then it deletes from both sides exactly the values present on
      both with the same tag ts, so a value whose ts differs survives on both sides,
      and nothing but the value maps changes. */
  lemma DelCommonsExact(c1: Option<Record>, c2: Option<Record>)
    ensures var (d1, d2) := DelCommons(c1, c2);
      && (!SamePrekey(c1, c2) ==> d1 == c1 && d2 == c2)
      && (SamePrekey(c1, c2) ==>
            && d1.Some? && d2.Some?
            && d1.value == WithValues(c1.value, d1.value.content.values)
            && d2.value == WithValues(c2.value, d2.value.content.values)
            && forall t, k ::
                 var e1, e2 := c1.value.content.values.Get(t), c2.value.content.values.Get(t);
                 && (k in d1.value.content.values.Get(t) <==> k in e1 && !(k in e2 && e2[k] == e1[k]))
                 && (k in d2.value.content.values.Get(t) <==> k in e2 && !(k in e1 && e1[k] == e2[k]))
                 && (k in d1.value.content.values.Get(t) ==> d1.value.content.values.Get(t)[k] == e1[k])
                 && (k in d2.value.content.values.Get(t) ==> d2.value.content.values.Get(t)[k] == e2[k]))
  {
    if SamePrekey(c1, c2) {
      ReducedAll(c1.value.content.values, c2.value.content.values);
      ReducedAll(c2.value.content.values, c1.value.content.values);
    }
  }

  /** Deleting the shared items leaves nothing shared. */
  lemma ReducedUnshared(v1: Values, v2: Values, t: ValueTag)
    ensures Shared(Reduced(v1, v2).Get(t), Reduced(v2, v1).Get(t)) == {}
  {
    ReducedGet(v1, v2, t);
    ReducedGet(v2, v1, t);
    var s := Shared(Reduced(v1, v2).Get(t), Reduced(v2, v1).Get(t));
    assert forall k :: k !in s;
  }

  lemma ReducedAgain(v1: Values, v2: Values)
    ensures Reduced(Reduced(v1, v2), Reduced(v2, v1)) == Reduced(v1, v2)
  {
    var r1, r2 := Reduced(v1, v2), Reduced(v2, v1);
    forall t
      ensures Reduced(r1, r2).Get(t) == r1.Get(t)
    {
      ReducedUnshared(v1, v2, t);
      ReducedGet(r1, r2, t);
      assert r1.Get(t) - {} == r1.Get(t);
    }
    ValuesExt(Reduced(r1, r2), r1);
  }

  lemma ValuesExt(a: Values, b: Values)
    requires forall t :: a.Get(t) == b.Get(t)
    ensures a == b
  {
    assert a.url == b.url by { assert a.Get(Url) == b.Get(Url); }
    assert a.domain == b.domain by { assert a.Get(Domain) == b.Get(Domain); }
    assert a.ip == b.ip by { assert a.Get(Ip) == b.Get(Ip); }
    assert a.ipv6 == b.ipv6 by { assert a.Get(Ipv6) == b.Get(Ipv6); }
    assert a.ipSubnet == b.ipSubnet by { assert a.Get(IpSubnet) == b.Get(IpSubnet); }
    assert a.ipv6Subnet == b.ipv6Subnet by { assert a.Get(Ipv6Subnet) == b.Get(Ipv6Subnet); }
  }

  /** Applying del_commons a second time changes nothing more. */
  lemma DelCommonsIdempotent(c1: Option<Record>, c2: Option<Record>)
    ensures var (d1, d2) := DelCommons(c1, c2); DelCommons(d1, d2) == (d1, d2)
  {
    if SamePrekey(c1, c2) {
      var v1, v2 := c1.value.content.values, c2.value.content.values;
      ReducedAgain(v1, v2);
      ReducedAgain(v2, v1);
    }
  }

  lemma SharedSymmetric(e1: Entries, e2: Entries)
    ensures Shared(e1, e2) == Shared(e2, e1)
  {
  }

  /** `for cdata, tag_ts in c1[tag].items() & c2[tag].items(): del c1[tag][cdata], c2[tag][cdata]`. */
  method DelShared(e1: Entries, e2: Entries) returns (r1: Entries, r2: Entries)
    ensures r1 == e1 - Shared(e1, e2) && r2 == e2 - Shared(e2, e1)
  {
    var shared := Shared(e1, e2);
    SharedSymmetric(e1, e2);
    var common := shared;
    r1, r2 := e1, e2;
    assert e1 - {} == e1 && e2 - {} == e2;
    while common != {}
      invariant common <= shared
      invariant r1 == e1 - (shared - common) && r2 == e2 - (shared - common)
      decreases common
    {
      var cdata :| cdata in common;
      r1, r2 := r1 - {cdata}, r2 - {cdata};
      common := common - {cdata};
      assert r1 == e1 - (shared - common);
      assert r2 == e2 - (shared - common);
    }
  }

  lemma AllTags(t: ValueTag)
    ensures exists j :: 0 <= j < |ALL_TAGS| && ALL_TAGS[j] == t
  {
    match t
    case Url => assert ALL_TAGS[0] == t;
    case Domain => assert ALL_TAGS[1] == t;
    case Ip => assert ALL_TAGS[2] == t;
    case Ipv6 => assert ALL_TAGS[3] == t;
    case IpSubnet => assert ALL_TAGS[4] == t;
    case Ipv6Subnet => assert ALL_TAGS[5] == t;
  }

  /** del_commons(c1, c2), the dicts changed tag by tag. */
  method DelCommonsInPlace(c1: Option<Record>, c2: Option<Record>) returns (d1: Option<Record>, d2: Option<Record>)
    ensures (d1, d2) == DelCommons(c1, c2)
  {
    if !SamePrekey(c1, c2) {
      return c1, c2;
    }
    var v1, v2 := c1.value.content.values, c2.value.content.values;
    var w1, w2 := v1, v2;
    for i := 0 to |ALL_TAGS|
      invariant forall j :: 0 <= j < i ==>
        w1.Get(ALL_TAGS[j]) == Reduced(v1, v2).Get(ALL_TAGS[j]) && w2.Get(ALL_TAGS[j]) == Reduced(v2, v1).Get(ALL_TAGS[j])
      invariant forall j :: i <= j < |ALL_TAGS| ==> w1.Get(ALL_TAGS[j]) == v1.Get(ALL_TAGS[j]) && w2.Get(ALL_TAGS[j]) == v2.Get(ALL_TAGS[j])
    {
      var t := ALL_TAGS[i];
      var e1, e2 := DelShared(w1.Get(t), w2.Get(t));
      ReducedGet(v1, v2, t);
      ReducedGet(v2, v1, t);
      w1, w2 := w1.Set(t, e1), w2.Set(t, e2);
      assert forall j :: 0 <= j < |ALL_TAGS| && j != i ==> ALL_TAGS[j] != t;
    }
    forall t
      ensures w1.Get(t) == Reduced(v1, v2).Get(t) && w2.Get(t) == Reduced(v2, v1).Get(t)
    {
      AllTags(t);
    }
    ValuesExt(w1, Reduced(v1, v2));
    ValuesExt(w2, Reduced(v2, v1));
    d1, d2 := Some(WithValues(c1.value, w1)), Some(WithValues(c2.value, w2));
  }
}
