/** The binary diff container (rkndex/filediff.py): one frame per differing span,
    a 16-byte header of four little-endian u32 fields (magic, id, len(old),
    len(payload)), then the old bytes, then the payload. The container as a whole is
    gzip-compressed; the model works on the uncompressed stream. */
module FileDiff {
  import opened Wrappers
  import opened Bytes
  import opened IterDiff

  const CONTENT_PROLOGUE: int := 0xffff_ffff
  const CONTENT_EPILOGUE: int := 0xffff_fffe

  const HEAD_SIZE: nat := 16
  const MAGIC_RAW: int := 0x60ba_077e
  /** Payload stored raw because the delta failed to decode back. */
  const MAGIC_UGLY: int := 0xbdc1_1c1e
  const MAGIC_XDELTA3: int := 0xee35_8f4e

  predicate IsMagic(m: int)
  {
    m == MAGIC_RAW || m == MAGIC_UGLY || m == MAGIC_XDELTA3
  }

  // ---------------------------------------------------------------------------
  // Ids

  /** content_id_map.get(k, k): the sentinels get their reserved u32 values, and a
      real id that collides with one of them maps to None so that packing fails. */
  function MapId(k: ContentId): Option<int>
  {
    match k
    case Prologue => Some(CONTENT_PROLOGUE)
    case Epilogue => Some(CONTENT_EPILOGUE)
    case Real(n) => if n == CONTENT_PROLOGUE || n == CONTENT_EPILOGUE then None else Some(n)
  }

  /** How a reader interprets a header id. */
  function UnmapId(n: int): ContentId
  {
    if n == CONTENT_PROLOGUE then Prologue else if n == CONTENT_EPILOGUE then Epilogue else Real(n)
  }

  /** Every id that maps at all can be told apart from every other one in the container. */
  lemma UnmapMapId(k: ContentId)
    requires MapId(k).Some?
    ensures UnmapId(MapId(k).value) == k
  {
  }

  lemma MapIdInjective(a: ContentId, b: ContentId)
    requires MapId(a).Some? && MapId(a) == MapId(b)
    ensures a == b
  {
    UnmapMapId(a);
    UnmapMapId(b);
  }

  // ---------------------------------------------------------------------------
  // Header

  datatype Head = Head(magic: int, id: int, len1: int, len2: int)

  /** CDIFF_HEAD.pack: fails (struct.error) on a None id or a field outside u32. */
  function PackHeader(magic: int, id: Option<int>, len1: int, len2: int): (r: Option<bytes>)
    ensures r.Some? <==> IsU32(magic) && id.Some? && IsU32(id.value) && IsU32(len1) && IsU32(len2)
    ensures r.Some? ==> |r.value| == HEAD_SIZE
  {
    if IsU32(magic) && id.Some? && IsU32(id.value) && IsU32(len1) && IsU32(len2) then
      Some(PackU32(magic) + PackU32(id.value) + PackU32(len1) + PackU32(len2))
    else None
  }

  /** CDIFF_HEAD.unpack on exactly 16 bytes. */
  function UnpackHeader(h: bytes): (r: Head)
    requires |h| == HEAD_SIZE
    ensures IsU32(r.magic) && IsU32(r.id) && IsU32(r.len1) && IsU32(r.len2)
  {
    Head(UnpackU32(h[0..4]), UnpackU32(h[4..8]), UnpackU32(h[8..12]), UnpackU32(h[12..16]))
  }

  /** Unpacking a packed header gives back its four fields. */
  lemma UnpackPackHeader(magic: int, id: Option<int>, len1: int, len2: int)
    requires PackHeader(magic, id, len1, len2).Some?
    ensures UnpackHeader(PackHeader(magic, id, len1, len2).value) == Head(magic, id.value, len1, len2)
  {
    var h := PackHeader(magic, id, len1, len2).value;
    assert h[0..4] == PackU32(magic);
    assert h[4..8] == PackU32(id.value);
    assert h[8..12] == PackU32(len1);
    assert h[12..16] == PackU32(len2);
    UnpackPackU32(magic);
    UnpackPackU32(id.value);
    UnpackPackU32(len1);
    UnpackPackU32(len2);
  }

  // ---------------------------------------------------------------------------
  // The delta codec and the magic choice

  /** What xdelta3.encode does: returns a delta, raises NoDeltaFound, or raises
      anything else. */
  datatype EncodeOutcome = Delta(delta: bytes) | NoDeltaFound | EncodeFailed

  /** xdelta3 as two opaque functions; decode is None where it raises XDeltaError.
      Nothing is taken for granted about decode(encode(x)). */
  datatype DeltaCodec = DeltaCodec(encode: (bytes, bytes) -> EncodeOutcome, decode: (bytes, bytes) -> Option<bytes>)

  datatype WriteError = EncodeRaised | PackFailed

  /** The new bytes a reader rebuilds from a frame's magic, old bytes and payload. */
  function Reconstruct(codec: DeltaCodec, magic: int, v1: bytes, payload: bytes): Option<bytes>
  {
    if magic == MAGIC_XDELTA3 then codec.decode(v1, payload) else Some(payload)
  }

  /** The magic and payload write_content_diff chooses for one change. A delta is only
      kept once decoding it back gave the new bytes; otherwise the new bytes are stored
      raw, tagged UGLY when a delta existed and RAW when there was none. */
  function ChooseMagic(codec: DeltaCodec, v1: bytes, v2: bytes): (r: Result<(int, bytes), WriteError>)
    ensures r.Err? <==> codec.encode(v1, v2).EncodeFailed?
    ensures r.Ok? ==> IsMagic(r.value.0) && Reconstruct(codec, r.value.0, v1, r.value.1) == Some(v2)
    ensures r.Ok? ==> (r.value.0 == MAGIC_RAW <==> codec.encode(v1, v2).NoDeltaFound?)
    ensures r.Ok? && r.value.0 == MAGIC_XDELTA3 ==> r.value.1 == codec.encode(v1, v2).delta
    ensures r.Ok? && r.value.0 != MAGIC_XDELTA3 ==> r.value.1 == v2
  {
    match codec.encode(v1, v2)
    case NoDeltaFound => Ok((MAGIC_RAW, v2))
    case EncodeFailed => Err(EncodeRaised)
    case Delta(d) =>
      if codec.decode(v1, d) == Some(v2) then Ok((MAGIC_XDELTA3, d)) else Ok((MAGIC_UGLY, v2))
  }

  /** The bytes written for one change: header, old bytes, payload. */
  function Frame(codec: DeltaCodec, c: Change): (r: Result<bytes, WriteError>)
    ensures r.Ok? ==> MapId(c.id).Some?
    ensures r.Ok? ==> |r.value| >= HEAD_SIZE + |c.v1|
  {
    var (magic, blob) :- ChooseMagic(codec, c.v1, c.v2);
    var h := PackHeader(magic, MapId(c.id), |c.v1|, |blob|);
    if h.None? then Err(PackFailed) else Ok(h.value + c.v1 + blob)
  }

  /** The uncompressed stream written for a list of changes, and the exception that
      stopped it, if any; frames before the failing change stay written. */
  datatype Written = Written(out: bytes, err: Option<WriteError>)

  function WriteAll(codec: DeltaCodec, changes: seq<Change>): Written
  {
    if changes == [] then Written([], None)
    else
      match Frame(codec, changes[0])
      case Err(e) => Written([], Some(e))
      case Ok(f) =>
        var w := WriteAll(codec, changes[1..]);
        Written(f + w.out, w.err)
  }

  /** write_content_diff: one frame per change of the diff stream, in order. */
  method WriteContentDiff(codec: DeltaCodec, changes: seq<Change>) returns (out: bytes, err: Option<WriteError>)
    ensures Written(out, err) == WriteAll(codec, changes)
  {
    out, err := [], None;
    var i := 0;
    while i < |changes|
      invariant 0 <= i <= |changes|
      invariant WriteAll(codec, changes) ==
        Written(out + WriteAll(codec, changes[i..]).out, WriteAll(codec, changes[i..]).err)
    {
      assert changes[i..][1..] == changes[i + 1..];
      var f := Frame(codec, changes[i]);
      if f.Err? {
        return out, Some(f.error);
      }
      out := out + f.value;
      i := i + 1;
    }
    assert changes[i..] == [];
  }

  // ---------------------------------------------------------------------------
  // Reading

  datatype ReadError = ShortHead | BadFormat | DecodeFailed

  datatype Entry = Entry(id: int, v1: bytes, v2: bytes)

  datatype FrameRead = End | Bad(error: ReadError) | Got(entry: Entry, rest: bytes)

  function Min(a: int, b: int): int { if a <= b then a else b }

  /** One iteration of read_content_diff on the remaining stream `s`: an empty read
      ends it; a short header fails to unpack; an unknown magic or a short old or
      payload read is 'Bad format'; an XDELTA3 payload is decoded against the old bytes. */
  function ReadFrame(codec: DeltaCodec, s: bytes): (r: FrameRead)
    ensures r.End? <==> s == []
    ensures 0 < |s| < HEAD_SIZE ==> r == Bad(ShortHead)
    ensures |s| >= HEAD_SIZE ==>
      var h := UnpackHeader(s[..HEAD_SIZE]);
      (r == Bad(BadFormat) <==> !IsMagic(h.magic) || |s| < HEAD_SIZE + h.len1 + h.len2)
    ensures |s| >= HEAD_SIZE && !r.Bad? ==>
      var h := UnpackHeader(s[..HEAD_SIZE]);
      var v1 := s[HEAD_SIZE..HEAD_SIZE + h.len1];
      var payload := s[HEAD_SIZE + h.len1..HEAD_SIZE + h.len1 + h.len2];
      && Reconstruct(codec, h.magic, v1, payload).Some?
      && r == Got(Entry(h.id, v1, Reconstruct(codec, h.magic, v1, payload).value), s[HEAD_SIZE + h.len1 + h.len2..])
    ensures r == Bad(DecodeFailed) ==> UnpackHeader(s[..HEAD_SIZE]).magic == MAGIC_XDELTA3
    ensures r.Got? ==> |r.rest| < |s|
  {
    if s == [] then End
    else if |s| < HEAD_SIZE then Bad(ShortHead)
    else
      var h := UnpackHeader(s[..HEAD_SIZE]);
      var body := s[HEAD_SIZE..];
      var n1 := Min(h.len1, |body|);
      var v1 := body[..n1];
      var after := body[n1..];
      var n2 := Min(h.len2, |after|);
      var v2 := after[..n2];
      if !IsMagic(h.magic) || n1 != h.len1 || n2 != h.len2 then Bad(BadFormat)
      else
        assert v1 == s[HEAD_SIZE..HEAD_SIZE + h.len1];
        assert v2 == s[HEAD_SIZE + h.len1..HEAD_SIZE + h.len1 + h.len2];
        assert after[n2..] == s[HEAD_SIZE + h.len1 + h.len2..];
        match Reconstruct(codec, h.magic, v1, v2)
        case None => Bad(DecodeFailed)
        case Some(x) => Got(Entry(h.id, v1, x), after[n2..])
  }

  datatype ReadResult = ReadResult(entries: seq<Entry>, err: Option<ReadError>)

  /** Everything read_content_diff yields from `s`, and the exception that ends it. */
  function ReadAll(codec: DeltaCodec, s: bytes): ReadResult
    decreases |s|
  {
    match ReadFrame(codec, s)
    case End => ReadResult([], None)
    case Bad(e) => ReadResult([], Some(e))
    case Got(e, rest) =>
      var r := ReadAll(codec, rest);
      ReadResult([e] + r.entries, r.err)
  }

  /** read_content_diff, consumed to the end. */
  method ReadContentDiff(codec: DeltaCodec, s: bytes) returns (entries: seq<Entry>, err: Option<ReadError>)
    ensures ReadResult(entries, err) == ReadAll(codec, s)
  {
    entries, err := [], None;
    var rest := s;
    while true
      invariant ReadAll(codec, s) == ReadResult(entries + ReadAll(codec, rest).entries, ReadAll(codec, rest).err)
      decreases |rest|
    {
      var f := ReadFrame(codec, rest);
      match f
      case End =>
        return;
      case Bad(e) =>
        return entries, Some(e);
      case Got(e, r) =>
        entries := entries + [e];
        rest := r;
    }
  }

  /** A change as the reader yields it back. */
  function ToEntry(c: Change): Entry
    requires MapId(c.id).Some?
  {
    Entry(MapId(c.id).value, c.v1, c.v2)
  }

  /** A written frame reads back as its change, leaving exactly what follows it. */
  lemma ReadFrameOfFrame(codec: DeltaCodec, c: Change, rest: bytes)
    requires Frame(codec, c).Ok?
    ensures ReadFrame(codec, Frame(codec, c).value + rest) == Got(ToEntry(c), rest)
  {
    var (magic, blob) := ChooseMagic(codec, c.v1, c.v2).value;
    var h := PackHeader(magic, MapId(c.id), |c.v1|, |blob|);
    UnpackPackHeader(magic, MapId(c.id), |c.v1|, |blob|);
    assert Frame(codec, c).value + rest == h.value + c.v1 + blob + rest;
    ReadFrameParts(codec, h.value, c.v1, blob, rest, magic, MapId(c.id).value, c.v2);
  }

  /** A frame with a consistent header and a payload that decodes to `x` reads back
      as its entry, leaving exactly what follows it. */
  lemma ReadFrameParts(codec: DeltaCodec, hd: bytes, v1: bytes, blob: bytes, rest: bytes, magic: int, id: int, x: bytes)
    requires |hd| == HEAD_SIZE && UnpackHeader(hd) == Head(magic, id, |v1|, |blob|)
    requires IsMagic(magic) && Reconstruct(codec, magic, v1, blob) == Some(x)
    ensures ReadFrame(codec, hd + v1 + blob + rest) == Got(Entry(id, v1, x), rest)
  {
    var s := hd + v1 + blob + rest;
    assert s[..HEAD_SIZE] == hd;
    var body := s[HEAD_SIZE..];
    assert body == v1 + blob + rest;
    assert Min(|v1|, |body|) == |v1| && body[..|v1|] == v1;
    var after := body[|v1|..];
    assert after == blob + rest;
    assert Min(|blob|, |after|) == |blob| && after[..|blob|] == blob;
    assert after[|blob|..] == rest;
  }

  /** The entries a fully successful write reads back as. */
  function Entries(changes: seq<Change>): seq<Entry>
    requires forall c :: c in changes ==> MapId(c.id).Some?
  {
    if changes == [] then [] else [ToEntry(changes[0])] + Entries(changes[1..])
  }

  lemma WriteAllCons(codec: DeltaCodec, changes: seq<Change>)
    requires changes != [] && Frame(codec, changes[0]).Ok?
    ensures WriteAll(codec, changes) ==
      Written(Frame(codec, changes[0]).value + WriteAll(codec, changes[1..]).out, WriteAll(codec, changes[1..]).err)
  {
  }

  lemma ReadAllCons(codec: DeltaCodec, s: bytes, e: Entry, rest: bytes)
    requires ReadFrame(codec, s) == Got(e, rest)
    ensures ReadAll(codec, s) == ReadResult([e] + ReadAll(codec, rest).entries, ReadAll(codec, rest).err)
  {
  }

  lemma EntriesCons(changes: seq<Change>, m: nat)
    requires m < |changes| && MapId(changes[0].id).Some?
    requires forall c :: c in changes[1..][..m] ==> MapId(c.id).Some?
    ensures forall c :: c in changes[..m + 1] ==> MapId(c.id).Some?
    ensures Entries(changes[..m + 1]) == [ToEntry(changes[0])] + Entries(changes[1..][..m])
  {
    assert changes[..m + 1][1..] == changes[1..][..m];
    assert changes[..m + 1][0] == changes[0];
    assert forall c :: c in changes[..m + 1] ==> c == changes[0] || c in changes[1..][..m];
  }

  lemma WriteAllStops(codec: DeltaCodec, changes: seq<Change>)
    requires changes == [] || Frame(codec, changes[0]).Err?
    ensures WriteAll(codec, changes).out == []
    ensures ReadAll(codec, []) == ReadResult([], None)
  {
    assert ReadFrame(codec, []) == End;
  }

  /** Reading back what write_content_diff wrote yields the changes of a prefix of the
      diff stream, in order, with their mapped ids and their old and new bytes, and
      never fails; when the write succeeded the prefix is the whole stream. */
  lemma {:induction false} ReadWritten(codec: DeltaCodec, changes: seq<Change>) returns (n: nat)
    ensures n <= |changes| && (WriteAll(codec, changes).err.None? ==> n == |changes|)
    ensures forall c :: c in changes[..n] ==> MapId(c.id).Some?
    ensures ReadAll(codec, WriteAll(codec, changes).out) == ReadResult(Entries(changes[..n]), None)
  {
    if changes == [] || Frame(codec, changes[0]).Err? {
      n := 0;
      WriteAllStops(codec, changes);
    } else {
      var m := ReadWritten(codec, changes[1..]);
      n := m + 1;
      var w := WriteAll(codec, changes[1..]);
      WriteAllCons(codec, changes);
      ReadFrameOfFrame(codec, changes[0], w.out);
      ReadAllCons(codec, Frame(codec, changes[0]).value + w.out, ToEntry(changes[0]), w.out);
      EntriesCons(changes, m);
    }
  }

  // ---------------------------------------------------------------------------
  // index_content_diff

  datatype LookupError = NotFound | ReadFailed(error: ReadError)

  /** index_content_diff on the remaining stream: frames are read lazily, so a bad
      frame after the first match is never reached. */
  function Lookup(codec: DeltaCodec, s: bytes, needle: int): Result<(bytes, bytes), LookupError>
    decreases |s|
  {
    match ReadFrame(codec, s)
    case End => Err(NotFound)
    case Bad(e) => Err(ReadFailed(e))
    case Got(e, rest) => if e.id == needle then Ok((e.v1, e.v2)) else Lookup(codec, rest, needle)
  }

  method IndexContentDiff(codec: DeltaCodec, s: bytes, needle: int) returns (r: Result<(bytes, bytes), LookupError>)
    ensures r == Lookup(codec, s, needle)
  {
    var rest := s;
    while true
      invariant Lookup(codec, rest, needle) == Lookup(codec, s, needle)
      decreases |rest|
    {
      var f := ReadFrame(codec, rest);
      match f
      case End =>
        return Err(NotFound);
      case Bad(e) =>
        return Err(ReadFailed(e));
      case Got(e, rest') =>
        if e.id == needle {
          return Ok((e.v1, e.v2));
        }
        rest := rest';
    }
  }

  /** The position of the first entry with the given id, if any. */
  function FirstWithId(entries: seq<Entry>, needle: int): (r: Option<nat>)
    ensures r.Some? ==> r.value < |entries| && entries[r.value].id == needle
    ensures r.Some? ==> forall i :: 0 <= i < r.value ==> entries[i].id != needle
    ensures r.None? ==> forall i :: 0 <= i < |entries| ==> entries[i].id != needle
  {
    if entries == [] then None
    else if entries[0].id == needle then Some(0)
    else
      match FirstWithId(entries[1..], needle)
      case None => None
      case Some(i) => Some(i + 1)
  }

  /** The lazy lookup agrees with reading the whole stream: it returns the first entry
      with the id, fails only when the stream fails before any such entry, and
      otherwise raises IndexError. */
  lemma {:induction false} LookupReadAll(codec: DeltaCodec, s: bytes, needle: int)
    ensures var all := ReadAll(codec, s);
      Lookup(codec, s, needle) ==
        match FirstWithId(all.entries, needle)
        case Some(i) => Ok((all.entries[i].v1, all.entries[i].v2))
        case None => if all.err.Some? then Err(ReadFailed(all.err.value)) else Err(NotFound)
    decreases |s|
  {
    match ReadFrame(codec, s)
    case End =>
    case Bad(e) =>
    case Got(e, rest) =>
      LookupReadAll(codec, rest, needle);
      var all := ReadAll(codec, s);
      assert all.entries[1..] == ReadAll(codec, rest).entries;
  }
}
