/** index_list: the list of known dumps, fetched page by page from the git
    index web service, and its rows in COPY text format for the known_dump table. */
module IndexList {
  import opened Wrappers
  import opened Bytes
  import opened Text
  import opened Pg

  /** A JSON value of a dump record, as far as main_list_valwrap tells them apart;
      `Other` stands for booleans, lists and objects. */
  datatype Value = Str(s: string) | Null | Int(n: int) | Other

  type Dump = map<string, Value>

  // ---------------------------------------------------------------------------
  // Paging

  const PAGE_MIN: int := 4096 - 64
  const PAGE_MAX: int := 4096 + 64

  datatype ListError =
    | BadUpdateTime(dump: Dump)  // el['update_time'] is missing or not an integer
    | OutOfDraws                  // the model's supply of page-size draws ran out

  /** The server's answer to `since_update_time/<since>/<page_size>`. */
  type Server = (int, int) -> seq<Dump>

  predicate HasTime(d: Dump)
  {
    "update_time" in d && d["update_time"].Int?
  }

  function TimeOf(d: Dump): int
    requires HasTime(d)
  {
    d["update_time"].n
  }

  /** Every dump of the page has an update time, at most `since`. */
  predicate AllUpTo(page: seq<Dump>, since: int)
  {
    forall k :: 0 <= k < |page| ==> HasTime(page[k]) && TimeOf(page[k]) <= since
  }

  /** The `since` cursor after one page: the running maximum of the update times,
      or the index of the first dump whose update time is unusable. */
  function PageSince(page: seq<Dump>, since: int): (r: Result<int, nat>)
    ensures r.Ok? <==> forall k :: 0 <= k < |page| ==> HasTime(page[k])
    ensures r.Ok? ==> since <= r.value && AllUpTo(page, r.value)
    ensures r.Ok? ==> r.value == since || exists k :: 0 <= k < |page| && TimeOf(page[k]) == r.value
    ensures r.Err? ==> r.error < |page| && !HasTime(page[r.error])
    ensures r.Err? ==> forall k :: 0 <= k < r.error ==> HasTime(page[k])
  {
    if page == [] then Ok(since)
    else if !HasTime(page[0]) then Err(0)
    else
      var t := TimeOf(page[0]);
      match PageSince(page[1..], if since < t then t else since)
      case Ok(s) => assert forall k :: 0 < k < |page| ==> page[k] == page[1..][k - 1]; Ok(s)
      case Err(k) => Err(k + 1)
  }

  datatype Listing = Listing(dumps: seq<Dump>, requests: seq<(int, int)>, err: Option<ListError>)

  /** What the server answered to a request. */
  function Answer(server: Server, req: (int, int)): seq<Dump>
  {
    server(req.0, req.1)
  }

  /** iter_known_dumps_with_duplicates from cursor `since`, with `sizes` the
      successive random page sizes: each answer is yielded in full, the cursor
      moves to the largest update time seen, and a short page ends the listing. */
  function ListFrom(server: Server, sizes: seq<int>, since: int): Listing
    decreases |sizes|
  {
    if sizes == [] then Listing([], [], Some(OutOfDraws))
    else
      var page := server(since, sizes[0]);
      match PageSince(page, since)
      case Err(k) => Listing(page[..k + 1], [(since, sizes[0])], Some(BadUpdateTime(page[k])))
      case Ok(s) =>
        if |page| < sizes[0] then Listing(page, [(since, sizes[0])], None)
        else
          var rest := ListFrom(server, sizes[1..], s);
          Listing(page + rest.dumps, [(since, sizes[0])] + rest.requests, rest.err)
  }

  /** Requests go out one per page size drawn, in order, and the cursor they carry
      never falls below the starting cursor and never moves backwards. */
  lemma {:induction false} ListFromRequests(server: Server, sizes: seq<int>, since: int)
    ensures var l := ListFrom(server, sizes, since);
      && |l.requests| <= |sizes|
      && (sizes != [] ==> |l.requests| >= 1 && l.requests[0].0 == since)
      && (forall j :: 0 <= j < |l.requests| ==> l.requests[j].1 == sizes[j] && since <= l.requests[j].0)
      && (forall j :: 0 < j < |l.requests| ==> l.requests[j - 1].0 <= l.requests[j].0)
    decreases |sizes|
  {
    if sizes != [] {
      var page := server(since, sizes[0]);
      var p := PageSince(page, since);
      if p.Ok? && |page| >= sizes[0] {
        ListFromRequests(server, sizes[1..], p.value);
      }
    }
  }

  /** The listing ends without error only on an answer shorter than the page size
      asked for, and every dump of an answer has an update time at most the cursor
      of the next request. */
  lemma {:induction false} ListFromCursor(server: Server, sizes: seq<int>, since: int)
    ensures var l := ListFrom(server, sizes, since);
      && (l.err.None? ==> l.requests != [] && |Answer(server, l.requests[|l.requests| - 1])| < l.requests[|l.requests| - 1].1)
      && (forall j :: 0 < j < |l.requests| ==> AllUpTo(Answer(server, l.requests[j - 1]), l.requests[j].0))
    decreases |sizes|
  {
    if sizes != [] {
      var page := server(since, sizes[0]);
      var p := PageSince(page, since);
      if p.Ok? && |page| >= sizes[0] {
        ListFromCursor(server, sizes[1..], p.value);
        ListFromRequests(server, sizes[1..], p.value);
        var l := ListFrom(server, sizes, since);
        var rest := ListFrom(server, sizes[1..], p.value);
        assert l.requests == [(since, sizes[0])] + rest.requests;
        forall j | 0 < j < |l.requests|
          ensures AllUpTo(Answer(server, l.requests[j - 1]), l.requests[j].0)
        {
          if j > 1 {
            assert l.requests[j - 1] == rest.requests[j - 2];
          }
        }
      }
    }
  }

  /** The listing with dumps and requests already made in front of it. */
  function After(dumps: seq<Dump>, requests: seq<(int, int)>, l: Listing): Listing
  {
    Listing(dumps + l.dumps, requests + l.requests, l.err)
  }

  /** One page of the listing, unfolded. */
  lemma ListFromPage(server: Server, sizes: seq<int>, i: nat, since: int, dumps: seq<Dump>, requests: seq<(int, int)>)
    requires i < |sizes|
    ensures var page := server(since, sizes[i]);
      var reqs := requests + [(since, sizes[i])];
      After(dumps, requests, ListFrom(server, sizes[i..], since)) ==
        match PageSince(page, since)
        case Err(k) => Listing(dumps + page[..k + 1], reqs, Some(BadUpdateTime(page[k])))
        case Ok(s) =>
          if |page| < sizes[i] then Listing(dumps + page, reqs, None)
          else After(dumps + page, reqs, ListFrom(server, sizes[i + 1..], s))
  {
    assert sizes[i..][1..] == sizes[i + 1..];
    var page := server(since, sizes[i]);
    var p := PageSince(page, since);
    if p.Ok? && |page| >= sizes[i] {
      var rest := ListFrom(server, sizes[i + 1..], p.value);
      assert dumps + (page + rest.dumps) == dumps + page + rest.dumps;
      assert requests + ([(since, sizes[i])] + rest.requests) == requests + [(since, sizes[i])] + rest.requests;
    }
  }

  /** A page scan's result from position `k` on, as seen from the start of the page. */
  function Shifted(r: Result<int, nat>, k: nat): Result<int, nat>
  {
    match r
    case Ok(s) => Ok(s)
    case Err(e) => Err(e + k)
  }

  lemma PageSinceStep(page: seq<Dump>, k: nat, cur: int)
    requires k < |page|
    ensures Shifted(PageSince(page[k..], cur), k) ==
      if !HasTime(page[k]) then Err(k)
      else Shifted(PageSince(page[k + 1..], if cur < TimeOf(page[k]) then TimeOf(page[k]) else cur), k + 1)
  {
    assert page[k..][1..] == page[k + 1..];
  }

  /** The cursor after one page, scanning the update times one by one. */
  method ScanPage(page: seq<Dump>, since: int) returns (r: Result<int, nat>)
    ensures r == PageSince(page, since)
  {
    var cur := since;
    var k := 0;
    assert page[0..] == page;
    while k < |page|
      invariant 0 <= k <= |page|
      invariant PageSince(page, since) == Shifted(PageSince(page[k..], cur), k)
    {
      PageSinceStep(page, k, cur);
      if !HasTime(page[k]) {
        return Err(k);
      }
      var t := TimeOf(page[k]);
      cur := if cur < t then t else cur;
      k := k + 1;
    }
    assert page[k..] == [];
    return Ok(cur);
  }

  /** The generator, run until it stops or the page-size draws run out. */
  method IterKnownDumps(server: Server, sizes: seq<int>) returns (dumps: seq<Dump>, requests: seq<(int, int)>, err: Option<ListError>)
    requires forall j :: 0 <= j < |sizes| ==> PAGE_MIN <= sizes[j] <= PAGE_MAX
    ensures Listing(dumps, requests, err) == ListFrom(server, sizes, 0)
  {
    var since := 0;
    var i := 0;
    dumps, requests, err := [], [], None;
    while i < |sizes|
      invariant 0 <= i <= |sizes|
      invariant After(dumps, requests, ListFrom(server, sizes[i..], since)) == ListFrom(server, sizes, 0)
      decreases |sizes| - i
    {
      ListFromPage(server, sizes, i, since, dumps, requests);
      var pageSize := sizes[i];
      var page := server(since, pageSize);
      requests := requests + [(since, pageSize)];
      var p := ScanPage(page, since);
      if p.Err? {
        dumps := dumps + page[..p.error + 1];
        err := Some(BadUpdateTime(page[p.error]));
        return;
      }
      dumps := dumps + page;
      if |page| < pageSize {
        return;
      }
      since := p.value;
      i := i + 1;
    }
    assert sizes[i..] == [];
    err := Some(OutOfDraws);
  }

  // ---------------------------------------------------------------------------
  // Rows of known_dump

  /** The known_dump columns that main_list fills, in table order. */
  const LIST_KEYS: seq<string> := [
    "update_time", "update_time_urgently", "signing_time", "xml_mtime", "sig_mtime",
    "xml_md5", "sig_md5", "xml_sha1", "sig_sha1",
    "xml_sha256", "sig_sha256", "xml_sha512", "sig_sha512"]

  /** main_list_valwrap: a hex digest becomes a bytea literal escaped for COPY, None
      the NULL marker, and a UNIX time strictly between RKN_EPOCH and 0x7fffffff its
      UTC isoformat(); any other value is rejected. */
  function Valwrap(utcIso: int -> string, v: Value): (r: Option<string>)
    ensures v.Str? ==> r == Some("\\\\x" + v.s)
    ensures v.Null? ==> r == Some("\\N")
    ensures v.Int? ==> (r.Some? <==> RKN_EPOCH < v.n < 0x7fff_ffff)
    ensures v.Int? && r.Some? ==> r.value == utcIso(v.n)
    ensures v.Other? ==> r.None?
  {
    match v
    case Str(s) => Some("\\\\x" + s)
    case Null => Some("\\N")
    case Int(n) => if RKN_EPOCH < n < 0x7fff_ffff then Some(utcIso(n)) else None
    case Other => None
  }

  predicate NoBackslash(s: string)
  {
    forall i :: 0 <= i < |s| ==> s[i] != '\\'
  }

  lemma {:induction false} UnescapePlain(s: string)
    requires NoBackslash(s)
    ensures Unescape(s) == Some(s)
  {
    if s != [] {
      UnescapePlain(s[1..]);
      assert [s[0]] + s[1..] == s;
    }
  }

  /** COPY reads a wrapped digest back as the bytea hex input `\x<digits>`, and the
      NULL marker as NULL. */
  lemma ValwrapReadsBack(utcIso: int -> string, h: string)
    requires NoBackslash(h)
    ensures ReadNullable(Valwrap(utcIso, Str(h)).value) == Some(Some("\\x" + h))
    ensures ReadNullable(Valwrap(utcIso, Null).value) == Some(None)
  {
    var t := "\\\\x" + h;
    UnescapePlain("x" + h);
    assert t[0] == '\\' && t[1] == '\\' && t[2..] == "x" + h;
    assert t != "\\N";
    assert "\\x" + h == ['\\'] + ("x" + h);
  }

  /** main_list_valwrap and rkn_ts_nn format the same UNIX times alike, except at the
      two ends of the range: RKN_EPOCH and 0x7fffffff pass rkn_ts_nn (its bounds are
      inclusive) and are rejected here (the bounds are strict). */
  lemma ValwrapRknTsNn(utcIso: int -> string, v: int)
    ensures RKN_EPOCH < v < 0x7fff_ffff ==> Valwrap(utcIso, Int(v)) == RknTsNn(utcIso, v)
    ensures v == RKN_EPOCH || v == 0x7fff_ffff ==> Valwrap(utcIso, Int(v)).None? && RknTsNn(utcIso, v) == Some(utcIso(v))
    ensures v < RKN_EPOCH || 0x7fff_ffff < v ==> Valwrap(utcIso, Int(v)).None? && RknTsNn(utcIso, v).None?
  {
  }

  datatype RowError = MissingKey(key: string) | BadValue(key: string) | NotAscii

  /** The wrapped fields of a dump for the given keys, the first failure winning. */
  function Fields(utcIso: int -> string, row: Dump, keys: seq<string>): (r: Result<seq<string>, RowError>)
    ensures r.Ok? ==> |r.value| == |keys|
    ensures r.Ok? ==> forall k :: 0 <= k < |keys| ==> keys[k] in row && Valwrap(utcIso, row[keys[k]]) == Some(r.value[k])
    ensures r.Ok? <==> forall k :: 0 <= k < |keys| ==> keys[k] in row && Valwrap(utcIso, row[keys[k]]).Some?
  {
    if keys == [] then Ok([])
    else if keys[0] !in row then Err(MissingKey(keys[0]))
    else match Valwrap(utcIso, row[keys[0]])
      case None => Err(BadValue(keys[0]))
      case Some(f) =>
        match Fields(utcIso, row, keys[1..])
        case Err(e) => Err(e)
        case Ok(fs) => Ok([f] + fs)
  }

  /** One COPY line for known_dump: the wrapped values tab-joined, a newline, ASCII. */
  function RowLine(utcIso: int -> string, keys: seq<string>, row: Dump): (r: Result<bytes, RowError>)
    ensures r.Ok? ==> r.value != [] && r.value[|r.value| - 1] == 10
  {
    var fs :- Fields(utcIso, row, keys);
    match EncodeAscii(JoinTabs(fs) + "\n")
    case None => Err(NotAscii)
    case Some(b) => Ok(b)
  }

  /** When no field holds a tab, a line splits back into one wrapped value per
      key. */
  lemma RowLineShape(utcIso: int -> string, keys: seq<string>, row: Dump)
    requires RowLine(utcIso, keys, row).Ok? && keys != []
    ensures var fs := Fields(utcIso, row, keys).value;
      (forall k :: 0 <= k < |fs| ==> TabFree(fs[k])) ==> SplitTabs(JoinTabs(fs)) == fs && |fs| == |keys|
  {
    var fs := Fields(utcIso, row, keys).value;
    if forall k :: 0 <= k < |fs| ==> TabFree(fs[k]) {
      SplitJoinTabs(fs);
    }
  }

  /** The COPY lines of the dumps up to the first one that cannot be written. */
  function RowLines(utcIso: int -> string, keys: seq<string>, dumps: seq<Dump>): (r: (seq<bytes>, Option<RowError>))
    ensures |r.0| <= |dumps|
    ensures r.1.None? ==> |r.0| == |dumps|
  {
    if dumps == [] then ([], None)
    else match RowLine(utcIso, keys, dumps[0])
      case Err(e) => ([], Some(e))
      case Ok(b) => var rest := RowLines(utcIso, keys, dumps[1..]); ([b] + rest.0, rest.1)
  }

  /** Every line that main_list writes is one of the dumps' rows, in listing order. */
  lemma {:induction false} RowLinesAreRows(utcIso: int -> string, keys: seq<string>, dumps: seq<Dump>)
    ensures var r := RowLines(utcIso, keys, dumps);
      forall j :: 0 <= j < |r.0| ==> RowLine(utcIso, keys, dumps[j]) == Ok(r.0[j])
  {
    if dumps != [] && RowLine(utcIso, keys, dumps[0]).Ok? {
      RowLinesAreRows(utcIso, keys, dumps[1..]);
    }
  }

  /** After `i` dumps, the lines `written` are exactly the first lines of RowLines. */
  ghost predicate WroteUpTo(utcIso: int -> string, keys: seq<string>, dumps: seq<Dump>, i: nat, written: seq<bytes>)
  {
    && i <= |dumps|
    && RowLines(utcIso, keys, dumps).0 == written + RowLines(utcIso, keys, dumps[i..]).0
    && RowLines(utcIso, keys, dumps).1 == RowLines(utcIso, keys, dumps[i..]).1
  }

  lemma WroteInit(utcIso: int -> string, keys: seq<string>, dumps: seq<Dump>)
    ensures WroteUpTo(utcIso, keys, dumps, 0, [])
  {
    assert dumps[0..] == dumps;
    assert [] + RowLines(utcIso, keys, dumps).0 == RowLines(utcIso, keys, dumps).0;
  }

  lemma WroteStep(utcIso: int -> string, keys: seq<string>, dumps: seq<Dump>, i: nat, written: seq<bytes>)
    requires WroteUpTo(utcIso, keys, dumps, i, written) && i < |dumps|
    ensures RowLine(utcIso, keys, dumps[i]).Ok? ==> WroteUpTo(utcIso, keys, dumps, i + 1, written + [RowLine(utcIso, keys, dumps[i]).value])
    ensures RowLine(utcIso, keys, dumps[i]).Err? ==>
      RowLines(utcIso, keys, dumps).0 == written && RowLines(utcIso, keys, dumps).1 == Some(RowLine(utcIso, keys, dumps[i]).error)
  {
    assert dumps[i..][1..] == dumps[i + 1..];
    var rest := RowLines(utcIso, keys, dumps[i + 1..]);
    if RowLine(utcIso, keys, dumps[i]).Ok? {
      var b := RowLine(utcIso, keys, dumps[i]).value;
      AppendAssoc(written, [b], rest.0);
    } else {
      assert written + [] == written;
    }
  }

  lemma WroteDone(utcIso: int -> string, keys: seq<string>, dumps: seq<Dump>, written: seq<bytes>)
    requires WroteUpTo(utcIso, keys, dumps, |dumps|, written)
    ensures RowLines(utcIso, keys, dumps).0 == written && RowLines(utcIso, keys, dumps).1.None?
  {
    assert dumps[|dumps|..] == [];
    assert RowLines(utcIso, keys, []).0 == [];
    assert written + [] == written;
  }

  /** main_list's COPY phase: every listed dump becomes one line of the buffer, until
      a dump cannot be written. */
  method MainList(w: PGCopyFrom, utcIso: int -> string, dumps: seq<Dump>) returns (err: Option<RowError>)
    requires w.Valid() && !w.closed
    modifies w
    ensures w.Valid() && !w.closed
    ensures w.Lines == old(w.Lines) + RowLines(utcIso, LIST_KEYS, dumps).0
    ensures err == RowLines(utcIso, LIST_KEYS, dumps).1
  {
    var i := 0;
    ghost var written: seq<bytes> := [];
    WroteInit(utcIso, LIST_KEYS, dumps);
    while i < |dumps|
      invariant w.Valid() && !w.closed
      invariant w.Lines == old(w.Lines) + written
      invariant WroteUpTo(utcIso, LIST_KEYS, dumps, i, written)
    {
      WroteStep(utcIso, LIST_KEYS, dumps, i, written);
      var line := RowLine(utcIso, LIST_KEYS, dumps[i]);
      if line.Err? {
        return Some(line.error);
      }
      w.Write(line.value);
      AppendAssoc(old(w.Lines), written, [line.value]);
      written := written + [line.value];
      i := i + 1;
    }
    WroteDone(utcIso, LIST_KEYS, dumps, written);
    return None;
  }
}
