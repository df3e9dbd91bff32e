/** Slicing a registry document into PROLOGUE / <content id=…> / EPILOGUE byte spans,
    and the pairwise span differ over two documents (rkndex/iterdiff.py). */
module IterDiff {
  import opened Wrappers
  import opened Bytes
  import opened Text
  import opened Expat

  // ---------------------------------------------------------------------------
  // Span ids

  /** A span id: the bytes before the first record, a record id, or the bytes after
      the envelope's closing tag. The source uses -inf and +inf for the sentinels. */
  datatype ContentId = Prologue | Real(n: int) | Epilogue

  /** The order of span ids: Prologue, then real ids by value, then Epilogue. */
  predicate Below(a: ContentId, b: ContentId)
  {
    match a
    case Prologue => !b.Prologue?
    case Real(x) => (b.Real? && x < b.n) || b.Epilogue?
    case Epilogue => false
  }

  /** Below is a strict total order. */
  lemma BelowStrictTotal(a: ContentId, b: ContentId, c: ContentId)
    ensures !Below(a, a)
    ensures Below(a, b) ==> !Below(b, a)
    ensures Below(a, b) && Below(b, c) ==> Below(a, c)
    ensures a == b || Below(a, b) || Below(b, a)
  {
  }

  /** PROLOGUE sorts before every real id and EPILOGUE after every real id. */
  lemma SentinelsBound(n: int)
    ensures Below(Prologue, Real(n)) && Below(Real(n), Epilogue) && Below(Prologue, Epilogue)
  {
  }

  predicate StrictlyAscending(ks: seq<ContentId>)
  {
    forall i, j :: 0 <= i < j < |ks| ==> Below(ks[i], ks[j])
  }

  /** In an ascending list of ids, PROLOGUE can only come first and EPILOGUE only last. */
  lemma AscendingSentinels(ks: seq<ContentId>)
    requires StrictlyAscending(ks)
    ensures forall i :: 0 <= i < |ks| && ks[i] == Prologue ==> i == 0
    ensures forall i :: 0 <= i < |ks| && ks[i] == Epilogue ==> i == |ks| - 1
  {
    forall i | 0 < i < |ks| ensures ks[i] != Prologue {
      assert Below(ks[0], ks[i]);
    }
    forall i | 0 <= i < |ks| - 1 ensures ks[i] != Epilogue {
      assert Below(ks[i], ks[|ks| - 1]);
    }
  }

  predicate IsLeast(s: set<ContentId>, m: ContentId)
  {
    m in s && forall k :: k in s && k != m ==> Below(m, k)
  }

  lemma {:induction false} LeastExists(s: set<ContentId>)
    requires s != {}
    ensures exists m :: IsLeast(s, m)
    decreases |s|
  {
    var x :| x in s;
    if s != {x} {
      LeastExists(s - {x});
      var m :| IsLeast(s - {x}, m);
      if Below(x, m) {
        forall k | k in s && k != x ensures Below(x, k) {
          if k != m { BelowStrictTotal(x, m, k); }
        }
        assert IsLeast(s, x);
      } else {
        BelowStrictTotal(x, m, m);
        assert IsLeast(s, m);
      }
    } else {
      assert IsLeast(s, x);
    }
  }

  lemma LeastUnique(s: set<ContentId>, m: ContentId, m': ContentId)
    requires IsLeast(s, m) && IsLeast(s, m')
    ensures m == m'
  {
    if m != m' { BelowStrictTotal(m, m', m); }
  }

  /** The least id of a non-empty set. */
  ghost function Least(s: set<ContentId>): (m: ContentId)
    requires s != {}
    ensures IsLeast(s, m)
  {
    LeastExists(s);
    var m :| IsLeast(s, m); m
  }

  /** The ids of a finite set in ascending order (Python's sorted()). */
  ghost function Ascending(s: set<ContentId>): seq<ContentId>
    decreases |s|
  {
    if s == {} then [] else [Least(s)] + Ascending(s - {Least(s)})
  }

  /** sorted() lists every id of the set exactly once, in strictly ascending order. */
  lemma {:induction false} AscendingSpec(s: set<ContentId>)
    ensures StrictlyAscending(Ascending(s)) && |Ascending(s)| == |s|
    ensures forall k :: k in Ascending(s) <==> k in s
    decreases |s|
  {
    if s != {} {
      var m := Least(s);
      var rest := Ascending(s - {m});
      AscendingSpec(s - {m});
      assert Ascending(s) == [m] + rest;
      forall i, j | 0 <= i < j < |Ascending(s)| ensures Below(Ascending(s)[i], Ascending(s)[j]) {
        if i == 0 {
          assert Ascending(s)[j] == rest[j - 1] && rest[j - 1] in s - {m};
        } else {
          assert Ascending(s)[i] == rest[i - 1] && Ascending(s)[j] == rest[j - 1];
        }
      }
    }
  }

  // ---------------------------------------------------------------------------
  // BufferingPipe

  datatype SliceError =
    | OutOfRange(start: int, end: int)   // BufferingPipe.localize_off
    | BadContentId                       // int(attrs['id']) raised
    | UnexpectedOpen(name: string)       // the tag after </content> is not <content>
    | RegisterCloseOutsideContent        // </reg:register> not preceded by </content>

  /** A non-seekable input made addressable by absolute offsets: `buf` holds the
      stream bytes from offset `off` on, `blist` the reads not yet joined into it. */
  class BufferingPipe {
    var off: nat
    var buf: bytes
    var blist: seq<bytes>
    /** Every byte the descriptor has returned so far. */
    ghost var Stream: bytes

    ghost predicate Valid()
      reads this
    {
      off <= |Stream| && buf + Concat(blist) == Stream[off..]
    }

    constructor ()
      ensures Valid() && off == 0 && buf == [] && blist == [] && Stream == []
    {
      off, buf, blist := 0, [], [];
      Stream := [];
    }

    /** The descriptor answered a read with `blob`; it is queued in blist. */
    method Read(blob: bytes)
      requires Valid()
      modifies this
      ensures Valid()
      ensures Stream == old(Stream) + blob && blist == old(blist) + [blob]
      ensures off == old(off) && buf == old(buf)
    {
      ConcatSnoc(blist, blob);
      blist := blist + [blob];
      Stream := Stream + blob;
    }

    /** Joins pending reads into buf and turns absolute offsets into buffer offsets,
        failing unless off <= start <= end <= off + |buf|. */
    method LocalizeOff(start: int, end: int) returns (r: Result<(int, int), SliceError>)
      requires Valid()
      modifies this
      ensures Valid() && Stream == old(Stream) && off == old(off)
      ensures blist == [] && buf == Stream[off..]
      ensures r.Ok? <==> off <= start <= end <= |Stream|
      ensures r.Ok? ==> r.value == (start - off, end - off)
      ensures r.Err? ==> r.error == OutOfRange(start, end)
    {
      if blist != [] {
        buf := buf + Concat(blist);
        blist := [];
      }
      var locstart, locend := start - off, end - off;
      if !(0 <= locstart <= locend <= |buf|) {
        return Err(OutOfRange(start, end));
      }
      return Ok((locstart, locend));
    }

    /** The stream bytes at absolute offsets [start, end). */
    method GetBuf(start: int, end: int) returns (r: Result<bytes, SliceError>)
      requires Valid()
      modifies this
      ensures Valid() && Stream == old(Stream) && off == old(off) && blist == []
      ensures r.Ok? <==> off <= start <= end <= |Stream|
      ensures r.Ok? ==> r.value == Stream[start..end]
    {
      var loc := LocalizeOff(start, end);
      if loc.Err? {
        return Err(loc.error);
      }
      r := Ok(buf[loc.value.0..loc.value.1]);
    }

    /** Forgets the stream bytes before absolute offset `end`. */
    method DropTo(end: int) returns (r: Outcome<SliceError>)
      requires Valid()
      modifies this
      ensures Valid() && Stream == old(Stream) && blist == []
      ensures r.Pass? <==> old(off) <= end <= |Stream|
      ensures r.Pass? ==> off == end && buf == Stream[end..]
      ensures r.Fail? ==> off == old(off)
      ensures old(off) <= off
    {
      var loc := LocalizeOff(off, end);
      if loc.Err? {
        return Fail(loc.error);
      }
      var locend := loc.value.1;
      if locend != 0 {
        off := off + locend;
        buf := buf[locend..];
      }
      return Pass;
    }
  }

  // ---------------------------------------------------------------------------
  // ContentSlicer

  /** The bytes of a list of spans, concatenated in creation order. */
  function SpanBytes(spans: seq<(ContentId, bytes)>): bytes
  {
    if spans == [] then [] else SpanBytes(spans[..|spans| - 1]) + spans[|spans| - 1].1
  }

  /** The dictionary a list of spans makes: each id mapped to its bytes, a later span
      of an id replacing an earlier one, as acc[cur_id] = … does. */
  ghost function SpanMap(spans: seq<(ContentId, bytes)>): map<ContentId, bytes>
  {
    if spans == [] then map[] else SpanMap(spans[..|spans| - 1])[spans[|spans| - 1].0 := spans[|spans| - 1].1]
  }

  /** No id opens two spans. */
  ghost predicate DistinctIds(spans: seq<(ContentId, bytes)>)
  {
    forall i, j :: 0 <= i < j < |spans| ==> spans[i].0 != spans[j].0
  }

  /** An id that opens none of the spans is not in their dictionary. */
  lemma {:induction false} SpanMapFresh(spans: seq<(ContentId, bytes)>, k: ContentId)
    requires forall i :: 0 <= i < |spans| ==> spans[i].0 != k
    ensures k !in SpanMap(spans)
  {
    if spans != [] {
      var n := |spans| - 1;
      SpanMapFresh(spans[..n], k);
    }
  }

  /** A new span whose id is new to the list adds one entry to the dictionary. */
  lemma SpanMapSnoc(spans: seq<(ContentId, bytes)>, x: (ContentId, bytes))
    requires DistinctIds(spans + [x])
    ensures DistinctIds(spans) && x.0 !in SpanMap(spans)
    ensures SpanMap(spans + [x]) == SpanMap(spans)[x.0 := x.1]
  {
    var s := spans + [x];
    assert s[..|s| - 1] == spans;
    forall i, j | 0 <= i < j < |spans| ensures spans[i].0 != spans[j].0 {
      assert s[i] == spans[i] && s[j] == spans[j];
    }
    forall i | 0 <= i < |spans| ensures spans[i].0 != x.0 {
      assert s[i] == spans[i] && s[|spans|] == x;
    }
    SpanMapFresh(spans, x.0);
  }

  /** Storing a span keeps every span either in acc or popped, while no id repeats. */
  lemma StoreTracks(acc: map<ContentId, bytes>, popped: map<ContentId, bytes>,
                    spans: seq<(ContentId, bytes)>, k: ContentId, v: bytes)
    requires DistinctIds(spans) ==> acc.Keys !! popped.Keys && SpanMap(spans) == acc + popped
    ensures DistinctIds(spans + [(k, v)]) ==>
      acc[k := v].Keys !! popped.Keys && SpanMap(spans + [(k, v)]) == acc[k := v] + popped
  {
    if DistinctIds(spans + [(k, v)]) {
      SpanMapSnoc(spans, (k, v));
      MergeStore(acc, popped, k, v);
    }
  }

  /** A prefix of a list of spans with distinct ids has distinct ids. */
  lemma DistinctPrefix(spans: seq<(ContentId, bytes)>, longer: seq<(ContentId, bytes)>)
    requires spans <= longer && DistinctIds(longer)
    ensures DistinctIds(spans)
  {
    forall i, j | 0 <= i < j < |spans| ensures spans[i].0 != spans[j].0 {
      assert spans[i] == longer[i] && spans[j] == longer[j];
    }
  }

  /** Storing a span whose id was never popped: the entry joins acc only. */
  lemma MergeStore(acc: map<ContentId, bytes>, popped: map<ContentId, bytes>, k: ContentId, v: bytes)
    requires acc.Keys !! popped.Keys && k !in popped
    ensures acc[k := v].Keys !! popped.Keys
    ensures (acc + popped)[k := v] == acc[k := v] + popped
  {
  }

  /** Storing the span that starts where the stored ones end keeps them joined
      equal to the stream up to its end. */
  lemma StoreBytes(spans: seq<(ContentId, bytes)>, stream: bytes, gapless: bool,
                   last: nat, id: ContentId, start: nat, end: nat)
    requires last <= start <= end <= |stream|
    requires gapless ==> SpanBytes(spans) == stream[..last]
    ensures gapless && start == last ==> SpanBytes(spans + [(id, stream[start..end])]) == stream[..end]
  {
    var s := spans + [(id, stream[start..end])];
    assert s[..|s| - 1] == spans;
    if gapless && start == last {
      assert stream[..end] == stream[..last] + stream[start..end];
    }
  }

  /** The id attribute of a <content> tag, as int() reads it. */
  function ContentIdAttr(attrs: Attrs): Option<int>
  {
    if "id" in attrs then ParseInt(attrs["id"]) else None
  }

  /** The part of the slicer's state that decides which handler runs and whether it
      raises: whether next_content and close_tag are installed, and whether a
      </content> has armed the flush for the next opening tag. */
  datatype Phase = Phase(seenContent: bool, flushOnOpen: bool)

  /** The phase of a fresh slicer. */
  const START := Phase(false, false)

  /** The handler expat calls for `e` in phase `p` raises: a <content> without an
      integer id, a tag other than <content> right after a </content>, or a
      </reg:register> that does not follow a </content>. */
  predicate Rejects(p: Phase, e: Event)
  {
    match e
    case StartTag(name, attrs, _) =>
      || (name == "content" && ContentIdAttr(attrs).None?)
      || (p.seenContent && p.flushOnOpen && name != "content")
    case EndTag(name, _) => p.seenContent && !p.flushOnOpen && name == "reg:register"
    case CharData(_) => false
  }

  /** The phase after the handler for `e` returns normally in phase `p`. */
  function Next(p: Phase, e: Event): Phase
  {
    match e
    case StartTag(name, _, _) =>
      if p.seenContent then Phase(true, false)
      else if name == "content" then Phase(true, p.flushOnOpen)
      else p
    case EndTag(name, _) => if p.seenContent && name == "content" then Phase(true, true) else p
    case CharData(_) => p
  }

  /** The handlers run over `events` from phase `p`: the phase they leave, or None
      when one of them raises (which stops the parse). */
  function Run(p: Phase, events: seq<Event>): Option<Phase>
    decreases events
  {
    if events == [] then Some(p)
    else if Rejects(p, events[0]) then None
    else Run(Next(p, events[0]), events[1..])
  }

  /** Running two batches is running the first and, if it passes, the second. */
  lemma {:induction false} RunAppend(p: Phase, a: seq<Event>, b: seq<Event>)
    ensures Run(p, a + b) == if Run(p, a).None? then None else Run(Run(p, a).value, b)
    decreases a
  {
    if a == [] {
      assert a + b == b;
    } else {
      assert (a + b)[1..] == a[1..] + b;
      RunAppend(Next(p, a[0]), a[1..], b);
    }
  }


  /** Cuts one document into spans as expat reports tag events: the PROLOGUE runs up
      to the first <content>, each record from its <content> up to the next tag that
      opens after its </content>, and the EPILOGUE from </reg:register> to the end. */
  class ContentSlicer {
    const pipe: BufferingPipe
    var acc: map<ContentId, bytes>
    var accLastByte: nat
    var curId: ContentId
    var curStart: nat
    var flushOnOpen: bool
    /** false while first_content is the start handler (and there is no end handler);
        true once next_content and close_tag are installed. */
    var seenContent: bool
    /** The parser's CurrentByteIndex at the latest tag event. */
    var byteIndex: nat

    /** Every span stored in acc, in creation order. */
    ghost var Spans: seq<(ContentId, bytes)>
    /** Every stored span began where the one before it ended. This fails only when a
        <content> opens inside an unclosed <content>: the open span then restarts and
        the bytes before it are in no span. */
    ghost var Gapless: bool
    /** The entries pop_common_keys has taken out of acc. */
    ghost var Popped: map<ContentId, bytes>

    /** The byte accounting: the pipe still holds every byte from the end of the last
        stored span on, and the stored spans, joined, are the document up to there.
        While no id repeats, every span is either still in acc or was popped. */
    ghost predicate Accounted()
      reads this, pipe
    {
      && pipe.Valid()
      && pipe.off <= accLastByte <= byteIndex <= |pipe.Stream|
      && curStart <= byteIndex
      && (Gapless ==> SpanBytes(Spans) == pipe.Stream[..accLastByte])
      && (DistinctIds(Spans) ==> acc.Keys !! Popped.Keys && SpanMap(Spans) == acc + Popped)
    }

    ghost predicate Valid()
      reads this, pipe
    {
      Accounted() && accLastByte <= curStart
    }

    constructor ()
      ensures Valid() && fresh(pipe)
      ensures acc == map[] && curId == Prologue && curStart == 0 && accLastByte == 0
      ensures !flushOnOpen && !seenContent && byteIndex == 0 && Spans == [] && Gapless && Popped == map[]
      ensures pipe.Stream == [] && pipe.off == 0
    {
      pipe := new BufferingPipe();
      acc := map[];
      accLastByte := 0;
      curId := Prologue;
      curStart := 0;
      flushOnOpen := false;
      seenContent := false;
      byteIndex := 0;
      Spans := [];
      Gapless := true;
      Popped := map[];
    }

    /** accflush(): stores the open span [curStart, byteIndex) under curId. */
    method AccFlush()
      requires Valid()
      modifies this, pipe
      ensures Accounted() && accLastByte == byteIndex
      ensures acc == old(acc)[curId := pipe.Stream[curStart..byteIndex]]
      ensures Spans == old(Spans) + [(curId, pipe.Stream[curStart..byteIndex])]
      ensures Gapless == (old(Gapless) && curStart == old(accLastByte))
      ensures pipe.Stream == old(pipe.Stream) && pipe.off == old(pipe.off)
      ensures curId == old(curId) && curStart == old(curStart) && byteIndex == old(byteIndex)
      ensures flushOnOpen == old(flushOnOpen) && seenContent == old(seenContent)
      ensures Popped == old(Popped)
    {
      var blob := pipe.GetBuf(curStart, byteIndex);
      var span := blob.value;
      StoreTracks(acc, Popped, Spans, curId, span);
      StoreBytes(Spans, pipe.Stream, Gapless, accLastByte, curId, curStart, byteIndex);
      acc := acc[curId := span];
      Spans := Spans + [(curId, span)];
      Gapless := Gapless && curStart == accLastByte;
      accLastByte := byteIndex;
    }

    /** Opens the span of `id` at the current tag. */
    method OpenSpan(id: ContentId)
      requires Accounted()
      modifies this
      ensures Valid() && curId == id && curStart == byteIndex && seenContent
      ensures acc == old(acc) && Spans == old(Spans) && Gapless == old(Gapless)
      ensures accLastByte == old(accLastByte) && byteIndex == old(byteIndex)
      ensures flushOnOpen == old(flushOnOpen) && Popped == old(Popped)
    {
      curId := id;
      curStart := byteIndex;
      seenContent := true;
    }

    /** first_content: the start handler until the first <content>, which ends the
        PROLOGUE and opens the first record's span. */
    method FirstContent(name: string, attrs: Attrs) returns (r: Outcome<SliceError>)
      requires Valid() && !seenContent
      modifies this, pipe
      ensures Accounted() && (r.Pass? ==> Valid())
      ensures pipe.Stream == old(pipe.Stream) && byteIndex == old(byteIndex)
      ensures name != "content" ==> r.Pass? && acc == old(acc) && Spans == old(Spans) && !seenContent
      ensures old(Spans) <= Spans && Popped == old(Popped) && flushOnOpen == old(flushOnOpen)
      ensures name == "content" ==>
        && acc == old(acc)[old(curId) := pipe.Stream[old(curStart)..byteIndex]]
        && Spans == old(Spans) + [(old(curId), pipe.Stream[old(curStart)..byteIndex])]
        && accLastByte == byteIndex
        && (r.Pass? <==> ContentIdAttr(attrs).Some?)
        && (r.Pass? ==> curId == Real(ContentIdAttr(attrs).value) && curStart == byteIndex && seenContent)
    {
      if name == "content" {
        AccFlush();
        var id := ContentIdAttr(attrs);
        if id.None? {
          return Fail(BadContentId);
        }
        OpenSpan(Real(id.value));
      }
      return Pass;
    }

    /** next_content: the start handler afterwards. After a </content> the next tag
        must be <content>; it ends the previous record's span (with the whitespace
        after its closing tag) and opens its own. */
    method NextContent(name: string, attrs: Attrs) returns (r: Outcome<SliceError>)
      requires Valid() && seenContent
      modifies this, pipe
      ensures Accounted() && (r.Pass? ==> Valid())
      ensures pipe.Stream == old(pipe.Stream) && byteIndex == old(byteIndex) && seenContent
      ensures old(Spans) <= Spans && Popped == old(Popped)
      ensures old(flushOnOpen) && name != "content" ==> r == Fail(UnexpectedOpen(name)) && unchanged(this)
      ensures old(flushOnOpen) && name == "content" ==>
        && acc == old(acc)[old(curId) := pipe.Stream[old(curStart)..byteIndex]]
        && Spans == old(Spans) + [(old(curId), pipe.Stream[old(curStart)..byteIndex])]
        && accLastByte == byteIndex && !flushOnOpen
      ensures !old(flushOnOpen) ==> acc == old(acc) && Spans == old(Spans) && accLastByte == old(accLastByte)
      ensures name == "content" ==> (r.Pass? <==> ContentIdAttr(attrs).Some?)
      ensures name == "content" && r.Pass? ==> curId == Real(ContentIdAttr(attrs).value) && curStart == byteIndex
      ensures name != "content" && !old(flushOnOpen) ==> r.Pass? && unchanged(this)
      ensures r.Pass? ==> !flushOnOpen
    {
      if flushOnOpen {
        if name != "content" {
          return Fail(UnexpectedOpen(name));
        }
        AccFlush();
        flushOnOpen := false;
      }
      if name == "content" {
        var id := ContentIdAttr(attrs);
        if id.None? {
          return Fail(BadContentId);
        }
        OpenSpan(Real(id.value));
      }
      return Pass;
    }

    /** close_tag: </content> arms the flush for the next opening tag;
        </reg:register> ends the last record's span and opens the EPILOGUE. */
    method CloseTag(name: string) returns (r: Outcome<SliceError>)
      requires Valid() && seenContent
      modifies this, pipe
      ensures Accounted() && (r.Pass? ==> Valid())
      ensures pipe.Stream == old(pipe.Stream) && byteIndex == old(byteIndex) && seenContent
      ensures old(Spans) <= Spans && Popped == old(Popped)
      ensures name == "content" ==> r.Pass? && flushOnOpen && acc == old(acc) && Spans == old(Spans)
      ensures name == "reg:register" ==> (r.Pass? <==> old(flushOnOpen))
      ensures name != "content" ==> flushOnOpen == old(flushOnOpen)
      ensures name == "reg:register" && r.Pass? ==>
        && acc == old(acc)[old(curId) := pipe.Stream[old(curStart)..byteIndex]]
        && Spans == old(Spans) + [(old(curId), pipe.Stream[old(curStart)..byteIndex])]
        && accLastByte == byteIndex && curId == Epilogue && curStart == byteIndex
      ensures name != "content" && name != "reg:register" ==> r.Pass? && unchanged(this)
    {
      if name == "content" {
        flushOnOpen := true;
      } else if name == "reg:register" {
        if !flushOnOpen {
          return Fail(RegisterCloseOutsideContent);
        }
        AccFlush();
        OpenSpan(Epilogue);
      }
      return Pass;
    }

    /** Runs the handler that expat calls for one event. */
    method Handle(e: Event) returns (r: Outcome<SliceError>)
      requires Valid() && (e.CharData? || byteIndex <= e.index <= |pipe.Stream|)
      modifies this, pipe
      ensures Accounted() && (r.Pass? ==> Valid()) && pipe.Stream == old(pipe.Stream)
      ensures old(Spans) <= Spans && Popped == old(Popped)
      ensures byteIndex == if e.CharData? then old(byteIndex) else e.index
      ensures r.Fail? <==> Rejects(Phase(old(seenContent), old(flushOnOpen)), e)
      ensures r.Pass? ==> Phase(seenContent, flushOnOpen) == Next(Phase(old(seenContent), old(flushOnOpen)), e)
    {
      match e {
        case StartTag(name, attrs, idx) =>
          byteIndex := idx;
          if seenContent {
            r := NextContent(name, attrs);
          } else {
            r := FirstContent(name, attrs);
          }
        case EndTag(name, idx) =>
          byteIndex := idx;
          if seenContent {
            r := CloseTag(name);
          } else {
            r := Pass;
          }
        case CharData(_) =>
          r := Pass;
      }
    }

    /** Runs the handlers for a batch of events; an exception stops the batch. */
    method HandleAll(events: seq<Event>) returns (r: Outcome<SliceError>)
      requires Valid() && Ordered(events, byteIndex, |pipe.Stream|)
      modifies this, pipe
      ensures Accounted() && (r.Pass? ==> Valid()) && pipe.Stream == old(pipe.Stream)
      ensures old(Spans) <= Spans && Popped == old(Popped)
      ensures r.Pass? ==> byteIndex == LastIndex(events, old(byteIndex))
      ensures r.Fail? <==> Run(Phase(old(seenContent), old(flushOnOpen)), events).None?
      ensures r.Pass? ==> Run(Phase(old(seenContent), old(flushOnOpen)), events) == Some(Phase(seenContent, flushOnOpen))
    {
      var i := 0;
      while i < |events|
        invariant 0 <= i <= |events|
        invariant Valid() && pipe.Stream == old(pipe.Stream)
        invariant Ordered(events[i..], byteIndex, |pipe.Stream|)
        invariant LastIndex(events[i..], byteIndex) == LastIndex(events, old(byteIndex))
        invariant old(Spans) <= Spans && Popped == old(Popped)
        invariant Run(Phase(old(seenContent), old(flushOnOpen)), events) == Run(Phase(seenContent, flushOnOpen), events[i..])
      {
        assert events[i..][1..] == events[i + 1..];
        r := Handle(events[i]);
        if r.Fail? {
          return;
        }
        i := i + 1;
      }
      r := Pass;
    }

    /** pump(): the pipe returned `blob`, expat delivered `events` for it, and the
        bytes before the end of the last stored span are dropped. */
    method Pump(blob: bytes, events: seq<Event>) returns (r: Result<nat, SliceError>)
      requires Valid() && Ordered(events, byteIndex, |pipe.Stream| + |blob|)
      modifies this, pipe
      ensures Accounted() && pipe.Stream == old(pipe.Stream) + blob
      ensures r.Ok? ==> Valid() && r.value == |blob| && byteIndex == LastIndex(events, old(byteIndex))
      ensures old(Spans) <= Spans && Popped == old(Popped)
      ensures r.Ok? ==> pipe.off == accLastByte
      ensures r.Err? <==> Run(Phase(old(seenContent), old(flushOnOpen)), events).None?
      ensures r.Ok? ==> Run(Phase(old(seenContent), old(flushOnOpen)), events) == Some(Phase(seenContent, flushOnOpen))
    {
      pipe.Read(blob);
      var h := HandleAll(events);
      if h.Fail? {
        return Err(h.error);
      }
      var d := pipe.DropTo(accLastByte);
      assert d.Pass?;
      return Ok(|blob|);
    }

    /** close(): the final Parse delivers `events`, after which CurrentByteIndex is
        `endIndex`; the open span is stored and the pipe dropped up to its end. The
        source then asserts acc_last_byte == CurrentByteIndex == pipe.off; that
        check always passes here. */
    method Close(events: seq<Event>, endIndex: nat) returns (r: Outcome<SliceError>)
      requires Valid() && Ordered(events, byteIndex, endIndex) && endIndex <= |pipe.Stream|
      modifies this, pipe
      ensures Accounted() && pipe.Stream == old(pipe.Stream)
      ensures old(Spans) <= Spans && Popped == old(Popped)
      ensures r.Pass? ==> accLastByte == byteIndex == endIndex == pipe.off
      ensures r.Pass? && Gapless ==> SpanBytes(Spans) == pipe.Stream[..endIndex]
      ensures r.Fail? <==> Run(Phase(old(seenContent), old(flushOnOpen)), events).None?
    {
      OrderedWiden(events, byteIndex, endIndex, |pipe.Stream|);
      OrderedLastIndex(events, byteIndex, endIndex);
      r := HandleAll(events);
      if r.Fail? {
        return;
      }
      byteIndex := endIndex;
      AccFlush();
      var d := pipe.DropTo(accLastByte);
      assert d.Pass?;
    }
  }

  // ---------------------------------------------------------------------------
  // pop_common_keys and the differ

  /** One element of the diff stream: an id with its bytes in the old and new document. */
  datatype Change = Change(id: ContentId, v1: bytes, v2: bytes)

  function Ids(cs: seq<Change>): (ks: seq<ContentId>)
    ensures |ks| == |cs| && forall i :: 0 <= i < |cs| ==> ks[i] == cs[i].id
  {
    if cs == [] then [] else [cs[0].id] + Ids(cs[1..])
  }

  /** The changes for the ids of `ks` present on both sides whose bytes differ, in the
      order of `ks`. */
  ghost function Differing(d1: map<ContentId, bytes>, d2: map<ContentId, bytes>, ks: seq<ContentId>): seq<Change>
  {
    if ks == [] then []
    else
      var k := ks[0];
      (if k in d1 && k in d2 && d1[k] != d2[k] then [Change(k, d1[k], d2[k])] else [])
      + Differing(d1, d2, ks[1..])
  }

  /** What pop_common_keys returns: the common ids whose bytes differ, ascending. */
  ghost function CommonChanges(d1: map<ContentId, bytes>, d2: map<ContentId, bytes>): seq<Change>
  {
    Differing(d1, d2, Ascending(d1.Keys * d2.Keys))
  }

  /** The ids of `ks` present in `d`, each paired with b'' on the other side. */
  ghost function OneSided(d: map<ContentId, bytes>, ks: seq<ContentId>, isOld: bool): seq<Change>
  {
    if ks == [] then []
    else
      var k := ks[0];
      (if k !in d then [] else if isOld then [Change(k, d[k], [])] else [Change(k, [], d[k])])
      + OneSided(d, ks[1..], isOld)
  }

  /** What iter_content_diff yields after both slicers are closed. */
  ghost function Drain(d1: map<ContentId, bytes>, d2: map<ContentId, bytes>): seq<Change>
  {
    var o1 := d1 - d2.Keys;
    var o2 := d2 - d1.Keys;
    CommonChanges(d1, d2) + OneSided(o1, Ascending(o1.Keys), true) + OneSided(o2, Ascending(o2.Keys), false)
  }

  /** The changes for `ks` are exactly its ids present on both sides with differing bytes. */
  lemma {:induction false} DifferingMembers(d1: map<ContentId, bytes>, d2: map<ContentId, bytes>, ks: seq<ContentId>)
    ensures forall c :: c in Differing(d1, d2, ks) <==>
      c.id in ks && c.id in d1 && c.id in d2 && d1[c.id] != d2[c.id] && c == Change(c.id, d1[c.id], d2[c.id])
  {
    if ks != [] {
      DifferingMembers(d1, d2, ks[1..]);
      assert forall k :: k in ks <==> k == ks[0] || k in ks[1..];
    }
  }

  /** Over ascending ids the changes come in ascending id order. */
  lemma {:induction false} DifferingAscending(d1: map<ContentId, bytes>, d2: map<ContentId, bytes>, ks: seq<ContentId>)
    requires StrictlyAscending(ks)
    ensures StrictlyAscending(Ids(Differing(d1, d2, ks)))
  {
    if ks != [] {
      var rest := Differing(d1, d2, ks[1..]);
      assert StrictlyAscending(ks[1..]);
      DifferingAscending(d1, d2, ks[1..]);
      DifferingMembers(d1, d2, ks[1..]);
      var out := Differing(d1, d2, ks);
      var k := ks[0];
      if k in d1 && k in d2 && d1[k] != d2[k] {
        assert out == [Change(k, d1[k], d2[k])] + rest;
        AscendingHead(ks);
        forall i | 0 <= i < |rest| ensures Below(k, Ids(rest)[i]) {
          assert rest[i] in rest;
        }
        AscendingCons(k, Ids(rest));
        IdsCons(Change(k, d1[k], d2[k]), rest);
      } else {
        assert out == rest;
      }
    }
  }

  /** The head of an ascending list is below every later id. */
  lemma AscendingHead(ks: seq<ContentId>)
    requires StrictlyAscending(ks) && ks != []
    ensures forall x :: x in ks[1..] ==> Below(ks[0], x)
  {
    forall x | x in ks[1..] ensures Below(ks[0], x) {
      var m :| 0 <= m < |ks[1..]| && ks[1..][m] == x;
      assert ks[m + 1] == x;
    }
  }

  /** An id below every id of an ascending list extends it ascending. */
  lemma AscendingCons(k: ContentId, ks: seq<ContentId>)
    requires StrictlyAscending(ks)
    requires forall i :: 0 <= i < |ks| ==> Below(k, ks[i])
    ensures StrictlyAscending([k] + ks)
  {
    var out := [k] + ks;
    forall i, j | 0 <= i < j < |out| ensures Below(out[i], out[j]) {
      assert out[j] == ks[j - 1];
      if i > 0 {
        assert out[i] == ks[i - 1];
      }
    }
  }

  lemma IdsCons(c: Change, cs: seq<Change>)
    ensures Ids([c] + cs) == [c.id] + Ids(cs)
  {
    assert ([c] + cs)[1..] == cs;
  }

  lemma DifferingSpec(d1: map<ContentId, bytes>, d2: map<ContentId, bytes>, ks: seq<ContentId>)
    requires StrictlyAscending(ks)
    ensures StrictlyAscending(Ids(Differing(d1, d2, ks)))
    ensures forall c :: c in Differing(d1, d2, ks) <==>
      c.id in ks && c.id in d1 && c.id in d2 && d1[c.id] != d2[c.id] && c == Change(c.id, d1[c.id], d2[c.id])
  {
    DifferingAscending(d1, d2, ks);
    DifferingMembers(d1, d2, ks);
  }

  /** pop_common_keys yields exactly the ids on both sides whose bytes differ, each
      with its two byte strings, in strictly ascending id order. */
  lemma CommonChangesSpec(d1: map<ContentId, bytes>, d2: map<ContentId, bytes>)
    ensures StrictlyAscending(Ids(CommonChanges(d1, d2)))
    ensures forall c :: c in CommonChanges(d1, d2) <==>
      c.id in d1 && c.id in d2 && d1[c.id] != d2[c.id] && c == Change(c.id, d1[c.id], d2[c.id])
  {
    AscendingSpec(d1.Keys * d2.Keys);
    DifferingSpec(d1, d2, Ascending(d1.Keys * d2.Keys));
  }

  lemma {:induction false} OneSidedSpec(d: map<ContentId, bytes>, ks: seq<ContentId>, isOld: bool)
    requires StrictlyAscending(ks)
    ensures StrictlyAscending(Ids(OneSided(d, ks, isOld)))
    ensures forall c :: c in OneSided(d, ks, isOld) <==>
      c.id in ks && c.id in d && c == (if isOld then Change(c.id, d[c.id], []) else Change(c.id, [], d[c.id]))
  {
    if ks != [] {
      var rest := OneSided(d, ks[1..], isOld);
      assert StrictlyAscending(ks[1..]);
      OneSidedSpec(d, ks[1..], isOld);
      var out := OneSided(d, ks, isOld);
      var k := ks[0];
      if k in d {
        assert out == [if isOld then Change(k, d[k], []) else Change(k, [], d[k])] + rest;
        forall i, j | 0 <= i < j < |out| ensures Below(Ids(out)[i], Ids(out)[j]) {
          if i == 0 {
            assert out[j] in rest;
            assert out[j].id in ks[1..];
          } else {
            assert out[i] == rest[i - 1] && out[j] == rest[j - 1];
          }
        }
      } else {
        assert out == rest;
      }
    }
  }

  /** The ids of `d` missing from `other`, ascending, each paired with b''. */
  lemma OneSidedRest(d: map<ContentId, bytes>, other: set<ContentId>, isOld: bool)
    ensures var out := OneSided(d - other, Ascending((d - other).Keys), isOld);
            && StrictlyAscending(Ids(out))
            && forall c :: c in out <==>
                 c.id in d && c.id !in other && c == (if isOld then Change(c.id, d[c.id], []) else Change(c.id, [], d[c.id]))
  {
    var o := d - other;
    AscendingSpec(o.Keys);
    OneSidedSpec(o, Ascending(o.Keys), isOld);
    forall k ensures k in o <==> k in d && k !in other {}
    forall k | k in o ensures o[k] == d[k] {}
  }

  /** The one-sided tail of iter_content_diff: every id left on one side only,
      ascending, with b'' for the missing side. */
  lemma OneSidedTail(d1: map<ContentId, bytes>, d2: map<ContentId, bytes>)
    ensures var olds := OneSided(d1 - d2.Keys, Ascending((d1 - d2.Keys).Keys), true);
            && StrictlyAscending(Ids(olds))
            && forall c :: c in olds <==> c.id in d1 && c.id !in d2 && c == Change(c.id, d1[c.id], [])
    ensures var news := OneSided(d2 - d1.Keys, Ascending((d2 - d1.Keys).Keys), false);
            && StrictlyAscending(Ids(news))
            && forall c :: c in news <==> c.id in d2 && c.id !in d1 && c == Change(c.id, [], d2[c.id])
  {
    OneSidedRest(d1, d2.Keys, true);
    OneSidedRest(d2, d1.Keys, false);
  }

  /** Picks the least id of a non-empty set, as iterating over sorted() does. */
  method PickLeast(todo: set<ContentId>) returns (k: ContentId)
    requires todo != {}
    ensures k in todo && Ascending(todo) == [k] + Ascending(todo - {k})
  {
    LeastExists(todo);
    k :| k in todo && forall j :: j in todo && j != k ==> Below(k, j);
    LeastUnique(todo, k, Least(todo));
  }

  lemma DifferingCons(d1: map<ContentId, bytes>, d2: map<ContentId, bytes>, k: ContentId, ks: seq<ContentId>)
    ensures Differing(d1, d2, [k] + ks) ==
      (if k in d1 && k in d2 && d1[k] != d2[k] then [Change(k, d1[k], d2[k])] else []) + Differing(d1, d2, ks)
  {
    assert ([k] + ks)[1..] == ks;
  }

  lemma OneSidedCons(d: map<ContentId, bytes>, k: ContentId, ks: seq<ContentId>, isOld: bool)
    requires k in d
    ensures OneSided(d, [k] + ks, isOld) ==
      [if isOld then Change(k, d[k], []) else Change(k, [], d[k])] + OneSided(d, ks, isOld)
  {
    assert ([k] + ks)[1..] == ks;
  }

  lemma PopStep(d: map<ContentId, bytes>, other: set<ContentId>, todo: set<ContentId>, k: ContentId)
    requires k in todo && todo <= other
    ensures (d - (other - todo)) - {k} == d - (other - (todo - {k}))
    ensures k in d ==> k in d - (other - todo) && (d - (other - todo))[k] == d[k]
  {
    assert other - (todo - {k}) == (other - todo) + {k};
  }

  /** The state of pop_common_keys with the ids of `todo` still to visit. */
  ghost predicate PopInv(d1: map<ContentId, bytes>, d2: map<ContentId, bytes>, todo: set<ContentId>,
                         out: seq<Change>, r1: map<ContentId, bytes>, r2: map<ContentId, bytes>)
  {
    && todo <= d1.Keys * d2.Keys
    && CommonChanges(d1, d2) == out + Differing(d1, d2, Ascending(todo))
    && r1 == d1 - (d2.Keys - todo) && r2 == d2 - (d1.Keys - todo)
  }

  lemma PopInvStep(d1: map<ContentId, bytes>, d2: map<ContentId, bytes>, todo: set<ContentId>,
                   out: seq<Change>, r1: map<ContentId, bytes>, r2: map<ContentId, bytes>, k: ContentId)
    requires PopInv(d1, d2, todo, out, r1, r2)
    requires k in todo && Ascending(todo) == [k] + Ascending(todo - {k})
    ensures k in r1 && k in r2
    ensures PopInv(d1, d2, todo - {k}, out + (if r1[k] != r2[k] then [Change(k, r1[k], r2[k])] else []),
                   r1 - {k}, r2 - {k})
  {
    DifferingCons(d1, d2, k, Ascending(todo - {k}));
    PopStep(d1, d2.Keys, todo, k);
    PopStep(d2, d1.Keys, todo, k);
    var found := if r1[k] != r2[k] then [Change(k, r1[k], r2[k])] else [];
    assert CommonChanges(d1, d2) == out + (found + Differing(d1, d2, Ascending(todo - {k})));
  }

  lemma PopInvInit(d1: map<ContentId, bytes>, d2: map<ContentId, bytes>)
    ensures PopInv(d1, d2, d1.Keys * d2.Keys, [], d1, d2)
  {
    assert d1 - (d2.Keys - d1.Keys * d2.Keys) == d1;
    assert d2 - (d1.Keys - d1.Keys * d2.Keys) == d2;
  }

  lemma PopInvDone(d1: map<ContentId, bytes>, d2: map<ContentId, bytes>,
                   out: seq<Change>, r1: map<ContentId, bytes>, r2: map<ContentId, bytes>)
    requires PopInv(d1, d2, {}, out, r1, r2)
    ensures out == CommonChanges(d1, d2) && r1 == d1 - d2.Keys && r2 == d2 - d1.Keys
  {
    assert d2.Keys - {} == d2.Keys && d1.Keys - {} == d1.Keys;
  }

  /** pop_common_keys(dict1, dict2): removes every id present in both maps from both,
      returning the differing ones in ascending order; one-sided ids stay. */
  method PopCommonKeys(d1: map<ContentId, bytes>, d2: map<ContentId, bytes>)
    returns (out: seq<Change>, r1: map<ContentId, bytes>, r2: map<ContentId, bytes>)
    ensures out == CommonChanges(d1, d2)
    ensures r1 == d1 - d2.Keys && r2 == d2 - d1.Keys
  {
    var todo := d1.Keys * d2.Keys;
    out, r1, r2 := [], d1, d2;
    PopInvInit(d1, d2);
    while todo != {}
      invariant PopInv(d1, d2, todo, out, r1, r2)
      decreases |todo|
    {
      var k := PickLeast(todo);
      PopInvStep(d1, d2, todo, out, r1, r2, k);
      var v1, v2 := r1[k], r2[k];
      r1, r2 := r1 - {k}, r2 - {k};
      if v1 != v2 {
        out := out + [Change(k, v1, v2)];
      } else {
        assert out + [] == out;
      }
      todo := todo - {k};
    }
    PopInvDone(d1, d2, out, r1, r2);
  }

  /** `for k in sorted(acc.keys()): yield k, acc.pop(k), b''` (or b'', acc.pop(k)). */
  method PopAllAscending(d: map<ContentId, bytes>, isOld: bool) returns (out: seq<Change>)
    ensures out == OneSided(d, Ascending(d.Keys), isOld)
  {
    var todo := d.Keys;
    out := [];
    while todo != {}
      invariant todo <= d.Keys
      invariant OneSided(d, Ascending(d.Keys), isOld) == out + OneSided(d, Ascending(todo), isOld)
      decreases |todo|
    {
      var k := PickLeast(todo);
      OneSidedCons(d, k, Ascending(todo - {k}), isOld);
      out := out + [if isOld then Change(k, d[k], []) else Change(k, [], d[k])];
      todo := todo - {k};
    }
  }

  /** The tail of iter_content_diff: one more common-id pass, then the old-only ids
      with b'' as new bytes, then the new-only ids with b'' as old bytes. */
  method DrainAfterClose(d1: map<ContentId, bytes>, d2: map<ContentId, bytes>) returns (out: seq<Change>)
    ensures out == Drain(d1, d2)
  {
    var common, r1, r2 := PopCommonKeys(d1, d2);
    var olds := PopAllAscending(r1, true);
    var news := PopAllAscending(r2, false);
    out := common + olds + news;
  }

  /** What the differ reports for an id, given each document's spans by id: both
      byte strings when the id is in both and they differ, and b'' on the side the
      id is missing from. */
  ghost predicate Differs(m1: map<ContentId, bytes>, m2: map<ContentId, bytes>, c: Change)
  {
    if c.id in m1 && c.id in m2 then m1[c.id] != m2[c.id] && c == Change(c.id, m1[c.id], m2[c.id])
    else if c.id in m1 then c == Change(c.id, m1[c.id], [])
    else if c.id in m2 then c == Change(c.id, [], m2[c.id])
    else false
  }

  /** No id is reported twice. */
  ghost predicate NoDupIds(cs: seq<Change>)
  {
    forall i, j :: 0 <= i < j < |cs| ==> cs[i].id != cs[j].id
  }

  /** `out` reports exactly the differing entries of `p1` and `p2`, once each. */
  ghost predicate Reports(out: seq<Change>, p1: map<ContentId, bytes>, p2: map<ContentId, bytes>)
  {
    (forall c :: c in out <==> Differs(p1, p2, c)) && NoDupIds(out)
  }

  /** The entries of `a` whose id `b` also has: what pop_common_keys takes from `a`. */
  ghost function Taken(a: map<ContentId, bytes>, b: map<ContentId, bytes>): map<ContentId, bytes>
  {
    map k | k in a && k in b :: a[k]
  }

  lemma AscendingNoDup(cs: seq<Change>)
    requires StrictlyAscending(Ids(cs))
    ensures NoDupIds(cs)
  {
    forall i, j | 0 <= i < j < |cs| ensures cs[i].id != cs[j].id {
      assert Below(Ids(cs)[i], Ids(cs)[j]);
      BelowStrictTotal(cs[i].id, cs[j].id, cs[j].id);
    }
  }

  /** Every change of `cs` has its id in `s`. */
  ghost predicate IdsIn(cs: seq<Change>, s: set<ContentId>)
  {
    forall x :: x in cs ==> x.id in s
  }

  /** Two lists without repeated ids whose ids lie apart join without repeated ids. */
  lemma NoDupAppend(a: seq<Change>, b: seq<Change>, s: set<ContentId>, t: set<ContentId>)
    requires NoDupIds(a) && NoDupIds(b) && IdsIn(a, s) && IdsIn(b, t) && s !! t
    ensures NoDupIds(a + b) && IdsIn(a + b, s + t)
  {
    var ab := a + b;
    forall i, j | 0 <= i < j < |ab| ensures ab[i].id != ab[j].id {
      if j < |a| {
        assert ab[i] == a[i] && ab[j] == a[j];
      } else if i >= |a| {
        assert ab[i] == b[i - |a|] && ab[j] == b[j - |a|];
      } else {
        assert ab[i] in a && ab[j] in b;
      }
    }
  }

  /** The common pass between two pumps moves the common entries of the two
      accumulators into what has been popped, and reports exactly the differing
      ones among them, which were not reported before. */
  lemma PopReports(out: seq<Change>, p1: map<ContentId, bytes>, p2: map<ContentId, bytes>,
                   a1: map<ContentId, bytes>, a2: map<ContentId, bytes>)
    requires p1.Keys == p2.Keys && a1.Keys !! p1.Keys && a2.Keys !! p2.Keys
    requires Reports(out, p1, p2)
    ensures (p1 + Taken(a1, a2)).Keys == (p2 + Taken(a2, a1)).Keys
    ensures Reports(out + CommonChanges(a1, a2), p1 + Taken(a1, a2), p2 + Taken(a2, a1))
  {
    var common := CommonChanges(a1, a2);
    var q1, q2 := p1 + Taken(a1, a2), p2 + Taken(a2, a1);
    CommonChangesSpec(a1, a2);
    AscendingNoDup(common);
    forall c ensures c in out + common <==> Differs(q1, q2, c) {
      if c.id in p1 {
        assert q1[c.id] == p1[c.id] && q2[c.id] == p2[c.id] && c !in common;
      } else if c.id in a1 && c.id in a2 {
        assert q1[c.id] == a1[c.id] && q2[c.id] == a2[c.id] && c !in out;
      } else {
        assert c !in out && c !in common && c.id !in q1 && c.id !in q2;
      }
    }
    assert IdsIn(out, p1.Keys) && IdsIn(common, a1.Keys * a2.Keys);
    NoDupAppend(out, common, p1.Keys, a1.Keys * a2.Keys);
  }

  /** Popping keeps every span either in acc or among the popped entries. */
  lemma PopMoves(acc: map<ContentId, bytes>, popped: map<ContentId, bytes>, other: map<ContentId, bytes>)
    requires acc.Keys !! popped.Keys
    ensures (acc - other.Keys).Keys !! (popped + Taken(acc, other)).Keys
    ensures (acc - other.Keys) + (popped + Taken(acc, other)) == acc + popped
  {
  }

  /** The drain after close reports exactly the differing entries of the two
      accumulators. */
  lemma DrainDiffers(a1: map<ContentId, bytes>, a2: map<ContentId, bytes>, c: Change)
    ensures c in Drain(a1, a2) <==> Differs(a1, a2, c)
  {
    var common := CommonChanges(a1, a2);
    var olds := OneSided(a1 - a2.Keys, Ascending((a1 - a2.Keys).Keys), true);
    var news := OneSided(a2 - a1.Keys, Ascending((a2 - a1.Keys).Keys), false);
    assert c in Drain(a1, a2) <==> c in common || c in olds || c in news;
    CommonChangesSpec(a1, a2);
    OneSidedTail(a1, a2);
  }

  /** One change is in the final output exactly when the documents' spans differ
      for its id as Differs says. */
  lemma DrainMember(out: seq<Change>, p1: map<ContentId, bytes>, p2: map<ContentId, bytes>,
                    a1: map<ContentId, bytes>, a2: map<ContentId, bytes>, c: Change)
    requires p1.Keys == p2.Keys && a1.Keys !! p1.Keys && a2.Keys !! p2.Keys
    requires Reports(out, p1, p2)
    ensures c in out + Drain(a1, a2) <==> Differs(a1 + p1, a2 + p2, c)
  {
    DrainDiffers(a1, a2, c);
    var m1, m2 := a1 + p1, a2 + p2;
    if c.id in p1 {
      assert m1[c.id] == p1[c.id] && m2[c.id] == p2[c.id];
      assert !Differs(a1, a2, c);
    } else {
      assert c !in out;
      assert c.id in m1 <==> c.id in a1;
      assert c.id in m2 <==> c.id in a2;
      assert c.id in a1 ==> m1[c.id] == a1[c.id];
      assert c.id in a2 ==> m2[c.id] == a2[c.id];
    }
  }

  /** The three parts of the final drain: each reports no id twice, the common pass
      ids on both sides, and each one-sided pass ids on its side only. */
  lemma DrainParts(a1: map<ContentId, bytes>, a2: map<ContentId, bytes>)
    ensures var common := CommonChanges(a1, a2);
            NoDupIds(common) && IdsIn(common, a1.Keys * a2.Keys)
    ensures var olds := OneSided(a1 - a2.Keys, Ascending((a1 - a2.Keys).Keys), true);
            NoDupIds(olds) && IdsIn(olds, a1.Keys - a2.Keys)
    ensures var news := OneSided(a2 - a1.Keys, Ascending((a2 - a1.Keys).Keys), false);
            NoDupIds(news) && IdsIn(news, a2.Keys - a1.Keys)
  {
    CommonChangesSpec(a1, a2);
    OneSidedTail(a1, a2);
    AscendingNoDup(CommonChanges(a1, a2));
    AscendingNoDup(OneSided(a1 - a2.Keys, Ascending((a1 - a2.Keys).Keys), true));
    AscendingNoDup(OneSided(a2 - a1.Keys, Ascending((a2 - a1.Keys).Keys), false));
  }

  /** The final output reports no id twice. */
  lemma DrainNoDup(out: seq<Change>, popped: set<ContentId>, a1: map<ContentId, bytes>, a2: map<ContentId, bytes>)
    requires a1.Keys !! popped && a2.Keys !! popped
    requires NoDupIds(out) && IdsIn(out, popped)
    ensures NoDupIds(out + Drain(a1, a2))
  {
    var common := CommonChanges(a1, a2);
    var olds := OneSided(a1 - a2.Keys, Ascending((a1 - a2.Keys).Keys), true);
    var news := OneSided(a2 - a1.Keys, Ascending((a2 - a1.Keys).Keys), false);
    DrainParts(a1, a2);
    NoDupAppend(common, olds, a1.Keys * a2.Keys, a1.Keys - a2.Keys);
    NoDupAppend(common + olds, news, a1.Keys * a2.Keys + (a1.Keys - a2.Keys), a2.Keys - a1.Keys);
    assert Drain(a1, a2) == common + olds + news;
    NoDupAppend(out, Drain(a1, a2), popped, a1.Keys * a2.Keys + (a1.Keys - a2.Keys) + (a2.Keys - a1.Keys));
  }

  /** After both slicers are closed, the changes already reported together with the
      final drain are exactly the differing entries of the two documents' spans,
      each reported once. */
  lemma DrainReports(out: seq<Change>, p1: map<ContentId, bytes>, p2: map<ContentId, bytes>,
                     a1: map<ContentId, bytes>, a2: map<ContentId, bytes>)
    requires p1.Keys == p2.Keys && a1.Keys !! p1.Keys && a2.Keys !! p2.Keys
    requires Reports(out, p1, p2)
    ensures Reports(out + Drain(a1, a2), a1 + p1, a2 + p2)
  {
    forall c ensures c in out + Drain(a1, a2) <==> Differs(a1 + p1, a2 + p2, c) {
      DrainMember(out, p1, p2, a1, a2, c);
    }
    assert IdsIn(out, p1.Keys);
    DrainNoDup(out, p1.Keys, a1, a2);
  }

  // ---------------------------------------------------------------------------
  // iter_content_diff

  /** One successful read of the input: its bytes and the events expat delivers for them. */
  datatype Chunk = Chunk(blob: bytes, events: seq<Event>)

  /** One input as the slicer sees it: the non-empty reads before end of file, then
      the events of the final Parse and the CurrentByteIndex after it. */
  datatype Document = Document(chunks: seq<Chunk>, closing: seq<Event>, endIndex: nat)

  /** The expat events fit the bytes: each batch only reports tags within what has
      been fed, never going back. */
  ghost predicate FeedOk(chunks: seq<Chunk>, closing: seq<Event>, endIndex: nat, from: nat, fed: nat)
  {
    if chunks == [] then Ordered(closing, from, endIndex) && endIndex <= fed
    else
      && chunks[0].blob != []
      && Ordered(chunks[0].events, from, fed + |chunks[0].blob|)
      && FeedOk(chunks[1..], closing, endIndex, LastIndex(chunks[0].events, from), fed + |chunks[0].blob|)
  }

  function DocBytes(chunks: seq<Chunk>): bytes
  {
    if chunks == [] then [] else chunks[0].blob + DocBytes(chunks[1..])
  }

  /** Every event expat delivers while the reads are fed, in order. */
  function Events(chunks: seq<Chunk>): seq<Event>
  {
    if chunks == [] then [] else Events(chunks[..|chunks| - 1]) + chunks[|chunks| - 1].events
  }

  /** The phase after the handlers of the first `i` reads, or None if one raised. */
  function DocRun(doc: Document, i: nat): Option<Phase>
    requires i <= |doc.chunks|
  {
    Run(START, Events(doc.chunks[..i]))
  }

  /** No handler raises over the whole document, the final Parse included. */
  predicate DocOk(doc: Document)
  {
    Run(START, Events(doc.chunks) + doc.closing).Some?
  }

  /** Feeding one more read runs its events from the phase the earlier reads left. */
  lemma DocRunStep(doc: Document, i: nat)
    requires i < |doc.chunks|
    ensures DocRun(doc, i + 1) == if DocRun(doc, i).None? then None else Run(DocRun(doc, i).value, doc.chunks[i].events)
  {
    assert doc.chunks[..i + 1][..i] == doc.chunks[..i];
    RunAppend(START, Events(doc.chunks[..i]), doc.chunks[i].events);
  }

  /** Once a handler has raised, no later read brings the document back. */
  lemma {:induction false} DocRunFails(doc: Document, i: nat, j: nat)
    requires i <= j <= |doc.chunks| && DocRun(doc, i).None?
    ensures DocRun(doc, j).None?
    decreases j - i
  {
    if i < j {
      DocRunStep(doc, i);
      DocRunFails(doc, i + 1, j);
    }
  }

  /** A round that raises means one of the documents fails by its last read. */
  lemma RoundFails(doc1: Document, doc2: Document, i1: nat, i2: nat)
    requires (i1 < |doc1.chunks| && DocRun(doc1, i1 + 1).None?) || (i2 < |doc2.chunks| && DocRun(doc2, i2 + 1).None?)
    ensures DocRun(doc1, |doc1.chunks|).None? || DocRun(doc2, |doc2.chunks|).None?
  {
    if i1 < |doc1.chunks| && DocRun(doc1, i1 + 1).None? {
      DocRunFails(doc1, i1 + 1, |doc1.chunks|);
    } else {
      DocRunFails(doc2, i2 + 1, |doc2.chunks|);
    }
  }

  /** The whole document passes exactly when its reads pass and then its final Parse does. */
  lemma DocOkSplit(doc: Document)
    ensures DocOk(doc) <==> DocRun(doc, |doc.chunks|).Some? && Run(DocRun(doc, |doc.chunks|).value, doc.closing).Some?
  {
    assert doc.chunks[..|doc.chunks|] == doc.chunks;
    RunAppend(START, Events(doc.chunks), doc.closing);
  }

  ghost predicate Fresh(cs: ContentSlicer)
    reads cs, cs.pipe
  {
    && cs.Valid() && cs.acc == map[] && cs.byteIndex == 0 && cs.pipe.Stream == [] && cs.Popped == map[]
    && !cs.seenContent && !cs.flushOnOpen
  }

  /** The slicer has been fed the first `i` reads of `doc`, and the rest fits it. */
  ghost predicate Progress(cs: ContentSlicer, doc: Document, i: nat)
    reads cs, cs.pipe
  {
    && cs.Valid() && i <= |doc.chunks|
    && FeedOk(doc.chunks[i..], doc.closing, doc.endIndex, cs.byteIndex, |cs.pipe.Stream|)
    && cs.pipe.Stream + DocBytes(doc.chunks[i..]) == DocBytes(doc.chunks)
    && DocRun(doc, i) == Some(Phase(cs.seenContent, cs.flushOnOpen))
  }

  /** Pumps one slicer with its next read, or with the end-of-file read in step |chunks|. */
  method Step(cs: ContentSlicer, doc: Document, i: nat) returns (r: Outcome<SliceError>)
    requires Progress(cs, doc, i)
    modifies cs, cs.pipe
    ensures r.Pass? ==> Progress(cs, doc, if i < |doc.chunks| then i + 1 else i)
    ensures r.Fail? <==> i < |doc.chunks| && DocRun(doc, i + 1).None?
    ensures old(cs.Spans) <= cs.Spans && cs.Popped == old(cs.Popped)
  {
    if i < |doc.chunks| {
      var c := doc.chunks[i];
      assert doc.chunks[i..][1..] == doc.chunks[i + 1..];
      DocRunStep(doc, i);
      var n := cs.Pump(c.blob, c.events);
      if n.Err? {
        return Fail(n.error);
      }
    } else {
      var n := cs.Pump([], []);
      assert cs.pipe.Stream == old(cs.pipe.Stream) + [];
      // No events, so no handler runs and nothing can raise.
      assert n.Ok?;
    }
    return Pass;
  }

  /** One slicer's part of a zip_longest round: pumped unless it already reached end of file. */
  method Advance(cs: ContentSlicer, doc: Document, i: nat, done: bool)
    returns (r: Outcome<SliceError>, i': nat, done': bool)
    requires Progress(cs, doc, i) && (done ==> i == |doc.chunks|)
    modifies cs, cs.pipe
    ensures r.Pass? ==> Progress(cs, doc, i') && (done' ==> i' == |doc.chunks|)
    ensures done ==> done' && i' == i && r.Pass?
    ensures !done ==> i' == (if i < |doc.chunks| then i + 1 else i) && (done' <==> i == |doc.chunks|)
    ensures r.Fail? <==> !done && i < |doc.chunks| && DocRun(doc, i + 1).None?
    ensures old(cs.Spans) <= cs.Spans && cs.Popped == old(cs.Popped)
  {
    i', done' := i, done;
    r := Pass;
    if !done {
      r := Step(cs, doc, i);
      if i < |doc.chunks| { i' := i + 1; } else { done' := true; }
    }
  }

  /** The two pumps of one zip_longest round; the first failure stops it. */
  method AdvanceBoth(cs1: ContentSlicer, cs2: ContentSlicer, doc1: Document, doc2: Document,
                     i1: nat, done1: bool, i2: nat, done2: bool)
    returns (r: Outcome<SliceError>, i1': nat, done1': bool, i2': nat, done2': bool)
    requires Progress(cs1, doc1, i1) && (done1 ==> i1 == |doc1.chunks|)
    requires Progress(cs2, doc2, i2) && (done2 ==> i2 == |doc2.chunks|)
    requires cs1 != cs2 && cs1.pipe != cs2.pipe
    modifies cs1, cs1.pipe, cs2, cs2.pipe
    ensures r.Pass? ==> Progress(cs1, doc1, i1') && (done1' ==> i1' == |doc1.chunks|)
    ensures r.Pass? ==> Progress(cs2, doc2, i2') && (done2' ==> i2' == |doc2.chunks|)
    ensures r.Pass? && done1 ==> done1' && i1' == i1
    ensures r.Pass? && !done1 ==> i1' == (if i1 < |doc1.chunks| then i1 + 1 else i1) && (done1' <==> i1 == |doc1.chunks|)
    ensures r.Pass? && done2 ==> done2' && i2' == i2
    ensures r.Pass? && !done2 ==> i2' == (if i2 < |doc2.chunks| then i2 + 1 else i2) && (done2' <==> i2 == |doc2.chunks|)
    ensures r.Fail? <==>
      || (!done1 && i1 < |doc1.chunks| && DocRun(doc1, i1 + 1).None?)
      || (!done2 && i2 < |doc2.chunks| && DocRun(doc2, i2 + 1).None?)
    ensures old(cs1.Spans) <= cs1.Spans && cs1.Popped == old(cs1.Popped)
    ensures old(cs2.Spans) <= cs2.Spans && cs2.Popped == old(cs2.Popped)
  {
    i2', done2' := i2, done2;
    r, i1', done1' := Advance(cs1, doc1, i1, done1);
    if r.Fail? {
      return;
    }
    r, i2', done2' := Advance(cs2, doc2, i2, done2);
  }

  /** The two slicers' bookkeeping between pumps: the same ids were popped on both
      sides, and while no id repeats, `out` reports exactly the differing popped entries. */
  ghost predicate Paired(s1: seq<(ContentId, bytes)>, s2: seq<(ContentId, bytes)>,
                         p1: map<ContentId, bytes>, p2: map<ContentId, bytes>, out: seq<Change>)
  {
    p1.Keys == p2.Keys && (DistinctIds(s1) && DistinctIds(s2) ==> Reports(out, p1, p2))
  }

  /** Pumping only appends spans, which keeps the pairing. */
  lemma PairedGrows(s1: seq<(ContentId, bytes)>, s2: seq<(ContentId, bytes)>,
                    t1: seq<(ContentId, bytes)>, t2: seq<(ContentId, bytes)>,
                    p1: map<ContentId, bytes>, p2: map<ContentId, bytes>, out: seq<Change>)
    requires Paired(s1, s2, p1, p2, out) && s1 <= t1 && s2 <= t2
    ensures Paired(t1, t2, p1, p2, out)
  {
    if DistinctIds(t1) && DistinctIds(t2) {
      DistinctPrefix(s1, t1);
      DistinctPrefix(s2, t2);
    }
  }

  /** dict.pop(k) for every id the other accumulator also holds, on one slicer. */
  method PopFrom(cs: ContentSlicer, other: map<ContentId, bytes>, ghost doc: Document, ghost i: nat)
    requires Progress(cs, doc, i)
    modifies cs
    ensures Progress(cs, doc, i)
    ensures cs.acc == old(cs.acc) - other.Keys && cs.Popped == old(cs.Popped) + Taken(old(cs.acc), other)
    ensures cs.Spans == old(cs.Spans) && cs.byteIndex == old(cs.byteIndex)
  {
    if DistinctIds(cs.Spans) {
      PopMoves(cs.acc, cs.Popped, other);
    }
    cs.Popped := cs.Popped + Taken(cs.acc, other);
    cs.acc := cs.acc - other.Keys;
  }

  /** The pop_common_keys(cs1.acc, cs2.acc) call between two pumps: the common
      entries leave both accumulators, and the differing ones among them are yielded. */
  method PopCommon(cs1: ContentSlicer, cs2: ContentSlicer, ghost doc1: Document, ghost doc2: Document,
                   ghost i1: nat, ghost i2: nat, ghost out: seq<Change>) returns (common: seq<Change>)
    requires Progress(cs1, doc1, i1) && Progress(cs2, doc2, i2) && cs1 != cs2
    requires Paired(cs1.Spans, cs2.Spans, cs1.Popped, cs2.Popped, out)
    modifies cs1, cs2
    ensures Progress(cs1, doc1, i1) && Progress(cs2, doc2, i2)
    ensures Paired(cs1.Spans, cs2.Spans, cs1.Popped, cs2.Popped, out + common)
    ensures common == CommonChanges(old(cs1.acc), old(cs2.acc))
    ensures cs1.acc == old(cs1.acc) - old(cs2.acc).Keys && cs2.acc == old(cs2.acc) - old(cs1.acc).Keys
    ensures cs1.Spans == old(cs1.Spans) && cs2.Spans == old(cs2.Spans)
    ensures cs1.byteIndex == old(cs1.byteIndex) && cs2.byteIndex == old(cs2.byteIndex)
  {
    var a1, a2;
    common, a1, a2 := PopCommonKeys(cs1.acc, cs2.acc);
    PopPairs(cs1.Spans, cs2.Spans, cs1.Popped, cs2.Popped, cs1.acc, cs2.acc, out);
    var acc1, acc2 := cs1.acc, cs2.acc;
    PopFrom(cs1, acc2, doc1, i1);
    PopFrom(cs2, acc1, doc2, i2);
  }

  /** The common pass keeps the pairing. */
  lemma PopPairs(s1: seq<(ContentId, bytes)>, s2: seq<(ContentId, bytes)>,
                 p1: map<ContentId, bytes>, p2: map<ContentId, bytes>,
                 a1: map<ContentId, bytes>, a2: map<ContentId, bytes>, out: seq<Change>)
    requires Paired(s1, s2, p1, p2, out)
    requires DistinctIds(s1) ==> a1.Keys !! p1.Keys
    requires DistinctIds(s2) ==> a2.Keys !! p2.Keys
    ensures Paired(s1, s2, p1 + Taken(a1, a2), p2 + Taken(a2, a1), out + CommonChanges(a1, a2))
  {
    assert (p1 + Taken(a1, a2)).Keys == (p2 + Taken(a2, a1)).Keys;
    if DistinctIds(s1) && DistinctIds(s2) {
      PopReports(out, p1, p2, a1, a2);
    }
  }

  /** The zip_longest loop of iter_content_diff: each round pumps both slicers (one
      that has reached end of file is not pumped again) and, unless both have, pops
      the common ids. While no id repeats in either document, what it yields is
      exactly the differing entries among those popped, each once. */
  method PumpAll(cs1: ContentSlicer, cs2: ContentSlicer, doc1: Document, doc2: Document)
    returns (r: Result<seq<Change>, SliceError>)
    requires Fresh(cs1) && Fresh(cs2) && cs1 != cs2 && cs1.pipe != cs2.pipe
    requires FeedOk(doc1.chunks, doc1.closing, doc1.endIndex, 0, 0)
    requires FeedOk(doc2.chunks, doc2.closing, doc2.endIndex, 0, 0)
    modifies cs1, cs1.pipe, cs2, cs2.pipe
    ensures r.Ok? ==> Paired(cs1.Spans, cs2.Spans, cs1.Popped, cs2.Popped, r.value)
    ensures r.Ok? ==> cs1.Valid() && cs1.pipe.Stream == DocBytes(doc1.chunks)
    ensures r.Ok? ==> cs2.Valid() && cs2.pipe.Stream == DocBytes(doc2.chunks)
    ensures r.Ok? ==> Ordered(doc1.closing, cs1.byteIndex, doc1.endIndex) && doc1.endIndex <= |cs1.pipe.Stream|
    ensures r.Ok? ==> Ordered(doc2.closing, cs2.byteIndex, doc2.endIndex) && doc2.endIndex <= |cs2.pipe.Stream|
    ensures r.Err? <==> DocRun(doc1, |doc1.chunks|).None? || DocRun(doc2, |doc2.chunks|).None?
    ensures r.Ok? ==> DocRun(doc1, |doc1.chunks|) == Some(Phase(cs1.seenContent, cs1.flushOnOpen))
    ensures r.Ok? ==> DocRun(doc2, |doc2.chunks|) == Some(Phase(cs2.seenContent, cs2.flushOnOpen))
  {
    var out: seq<Change> := [];
    var i1: nat, i2: nat := 0, 0;
    var done1, done2 := false, false;
    assert doc1.chunks[0..] == doc1.chunks && doc2.chunks[0..] == doc2.chunks;
    while !done1 || !done2
      invariant Progress(cs1, doc1, i1) && Progress(cs2, doc2, i2)
      invariant done1 ==> i1 == |doc1.chunks|
      invariant done2 ==> i2 == |doc2.chunks|
      invariant Paired(cs1.Spans, cs2.Spans, cs1.Popped, cs2.Popped, out)
      decreases (if done1 then 0 else 1) + (if done2 then 0 else 1) + |doc1.chunks| - i1 + |doc2.chunks| - i2
    {
      var st;
      ghost var s1, s2 := cs1.Spans, cs2.Spans;
      ghost var j1, j2 := i1, i2;
      st, i1, done1, i2, done2 := AdvanceBoth(cs1, cs2, doc1, doc2, i1, done1, i2, done2);
      if st.Fail? {
        RoundFails(doc1, doc2, j1, j2);
        return Err(st.error);
      }
      PairedGrows(s1, s2, cs1.Spans, cs2.Spans, cs1.Popped, cs2.Popped, out);
      if !(done1 && done2) {
        var common := PopCommon(cs1, cs2, doc1, doc2, i1, i2, out);
        out := out + common;
      }
    }
    ProgressDone(cs1, doc1);
    ProgressDone(cs2, doc2);
    return Ok(out);
  }

  /** A slicer fed every read of its document has consumed exactly its bytes. */
  lemma ProgressDone(cs: ContentSlicer, doc: Document)
    requires Progress(cs, doc, |doc.chunks|)
    ensures cs.Valid() && cs.pipe.Stream == DocBytes(doc.chunks)
    ensures Ordered(doc.closing, cs.byteIndex, doc.endIndex) && doc.endIndex <= |cs.pipe.Stream|
  {
    assert doc.chunks[|doc.chunks|..] == [];
    assert cs.pipe.Stream + [] == cs.pipe.Stream;
  }

  /** iter_content_diff(in1, in2) on two fresh slicers. While no id opens two spans
      in the same document, the changes are exactly the ids whose spans differ
      between the documents (both byte strings, or b'' for the side the id is
      missing from), each id once; and the spans, joined, are each document. */
  method IterContentDiff(cs1: ContentSlicer, cs2: ContentSlicer, doc1: Document, doc2: Document)
    returns (r: Result<seq<Change>, SliceError>)
    requires Fresh(cs1) && Fresh(cs2) && cs1 != cs2 && cs1.pipe != cs2.pipe
    requires FeedOk(doc1.chunks, doc1.closing, doc1.endIndex, 0, 0)
    requires FeedOk(doc2.chunks, doc2.closing, doc2.endIndex, 0, 0)
    modifies cs1, cs1.pipe, cs2, cs2.pipe
    ensures r.Ok? && DistinctIds(cs1.Spans) && DistinctIds(cs2.Spans) ==>
      Reports(r.value, SpanMap(cs1.Spans), SpanMap(cs2.Spans))
    ensures r.Ok? ==> cs1.pipe.Stream == DocBytes(doc1.chunks) && cs2.pipe.Stream == DocBytes(doc2.chunks)
    ensures r.Ok? ==> doc1.endIndex <= |cs1.pipe.Stream| && doc2.endIndex <= |cs2.pipe.Stream|
    ensures r.Ok? && cs1.Gapless ==> SpanBytes(cs1.Spans) == cs1.pipe.Stream[..doc1.endIndex]
    ensures r.Ok? && cs2.Gapless ==> SpanBytes(cs2.Spans) == cs2.pipe.Stream[..doc2.endIndex]
    ensures r.Ok? <==> DocOk(doc1) && DocOk(doc2)
  {
    DocOkSplit(doc1);
    DocOkSplit(doc2);
    var p := PumpAll(cs1, cs2, doc1, doc2);
    if p.Err? {
      return Err(p.error);
    }
    ghost var s1, s2 := cs1.Spans, cs2.Spans;
    var c1 := cs1.Close(doc1.closing, doc1.endIndex);
    if c1.Fail? {
      return Err(c1.error);
    }
    var c2 := cs2.Close(doc2.closing, doc2.endIndex);
    if c2.Fail? {
      return Err(c2.error);
    }
    var tail := DrainAfterClose(cs1.acc, cs2.acc);
    r := Ok(p.value + tail);
    PairedGrows(s1, s2, cs1.Spans, cs2.Spans, cs1.Popped, cs2.Popped, p.value);
    PairedDrain(cs1.Spans, cs2.Spans, cs1.Popped, cs2.Popped, cs1.acc, cs2.acc, p.value);
  }

  /** Once every span is stored, the yielded changes and the drain together report
      the two documents' span dictionaries. */
  lemma PairedDrain(s1: seq<(ContentId, bytes)>, s2: seq<(ContentId, bytes)>,
                    p1: map<ContentId, bytes>, p2: map<ContentId, bytes>,
                    a1: map<ContentId, bytes>, a2: map<ContentId, bytes>, out: seq<Change>)
    requires Paired(s1, s2, p1, p2, out)
    requires DistinctIds(s1) ==> a1.Keys !! p1.Keys && SpanMap(s1) == a1 + p1
    requires DistinctIds(s2) ==> a2.Keys !! p2.Keys && SpanMap(s2) == a2 + p2
    ensures DistinctIds(s1) && DistinctIds(s2) ==> Reports(out + Drain(a1, a2), SpanMap(s1), SpanMap(s2))
  {
    if DistinctIds(s1) && DistinctIds(s2) {
      DrainReports(out, p1, p2, a1, a2);
    }
  }
}
