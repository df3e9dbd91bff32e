# rkndex diff pipeline, modelled in Dafny

rkndex keeps a history of the Russian block-list registry (`dump.xml`) and
turns each pair of consecutive snapshots into row-level add/remove records in
PostgreSQL. This project models the core of that pipeline and proves what it
promises:

- **Span slicer and differ** (`iterdiff.dfy`, module `IterDiff`).
  - `BufferingPipe` is a byte window over a non-seekable stream, addressed by absolute offsets.
  - `ContentSlicer` cuts a document into PROLOGUE / `<content id=…>` / EPILOGUE spans from the parser's tag events.
  - `pop_common_keys` and `iter_content_diff` yield exactly the ids whose spans differ between the two documents, with b'' for a side an id is missing from.
  - Span ids are `Prologue | Real(n) | Epilogue`, ordered as `-inf` < every integer < `+inf`.
- **Binary diff container** (`filediff.dfy`, module `FileDiff`).
  - Each frame is a 16-byte little-endian header, then the old bytes, then a payload.
  - The sentinel ids map to reserved 32-bit values.
  - The magic is one of three, with a verify-after-encode fallback.
  - The reader ends on an empty read, fails on a short header, raises 'Bad format' on an unknown magic or a truncated frame, and decodes XDELTA3 payloads; the lookup returns the first entry with an id.
- **Record parser, merger and reduction** (`index_diff.dfy`, module `IndexDiff`).
  - `DumpParser` is the expat handler state machine. It builds record dicts and raises its soft error flags in `DumpParserErr`.
  - The derived `has_*` flags are computed when a record closes.
  - The merger pairs the records of the two documents by id.
  - `del_commons` drops the (value, ts) items both versions share.
- **Ingest** (`ingest_diff.dfy`, module `DiffIngest`).
  - `fetch_diff_from_xdelta` collects the reduced pairs.
  - `ingest_diff` classifies each pair into `write_content` calls.
  - `DbWriter` expands each record into 18-column COPY rows.
- **COPY encoders and write buffer** (`pg.py` → `pg.dfy`, module `Pg`).
  - The encoders `str_nn`, `str_nullable`, `int_nn`, `bool_nn`, `rkn_ts_nn`.
  - The size-bounded `PGCopyFrom` buffer.
- **Known-dump listing** (`index_list.dfy`, module `IndexList`).
  - `main_list_valwrap`, the 13-column row line, and the paging cursor of `iter_known_dumps_with_duplicates`.
- **git-log reader** (`gitarlog.dfy`, module `GitarLog`).
  - The line loop of `GitArLog.insert_up_to`: a 15-column row is filled line by line and inserted at each `. . .` separator.

Supporting modules:

- `wrappers.dfy`: `Option`, `Result` and `Outcome`.
- `bytes.dfy`: bytes and little-endian u32.
- `text.dfy`: the Python `str`/`bytes` built-ins the core relies on, such as `int()`, `str()`, `strip()`, `split(None, 2)`, ASCII, UTF-8 and hex.
- `expat.dfy`: the XML parser seen as a sequence of tag and character-data events with byte indices.

How the source is modelled:

- Python exceptions and failed `assert`s become `Result`/`Outcome` error values.
- Objects whose fields the source updates are classes: `BufferingPipe`, `ContentSlicer`, `DumpParserErr`, `DumpParser`, `PGCopyFrom` and `DbWriter`.
- Loops are methods proved against specification functions.
- Every byte the stream has delivered is kept in a ghost variable (`Stream`). The lines a buffer has been given are kept the same way (`Lines`).

## Model

| member | source | states |
|---|---|---|
| IterDiff.BelowStrictTotal | rkndex/iterdiff.py:10-11 | the order of span ids is irreflexive, asymmetric, transitive and total |
| IterDiff.SentinelsBound | rkndex/iterdiff.py:10-11 | PROLOGUE sorts before every real id, and EPILOGUE after every real id |
| IterDiff.AscendingSentinels | rkndex/iterdiff.py:10-11 | in a sorted id list, PROLOGUE can only be first and EPILOGUE only last |
| IterDiff.AscendingSpec | rkndex/iterdiff.py:94 | `sorted()` lists every id of the set exactly once, strictly ascending |
| IterDiff.BufferingPipe.constructor | rkndex/iterdiff.py:15-19 | a new pipe has offset 0, an empty buffer and no pending reads |
| IterDiff.BufferingPipe.Read | rkndex/iterdiff.py:20-23 | a read is queued in `blist`; the stream grows by it; `off` and `buf` are unchanged |
| IterDiff.BufferingPipe.LocalizeOff | rkndex/iterdiff.py:24-32 | pending reads are folded into `buf`, which then holds the stream from `off`; it succeeds iff off ≤ start ≤ end ≤ stream length, returning (start−off, end−off), else raises 'Out of range' |
| IterDiff.BufferingPipe.GetBuf | rkndex/iterdiff.py:33-35 | returns exactly the stream bytes at absolute offsets [start, end), under the same bound |
| IterDiff.BufferingPipe.DropTo | rkndex/iterdiff.py:36-40 | succeeds iff off ≤ end ≤ stream length; it then moves `off` to `end` and `buf` keeps the stream from `end`; `off` never decreases |
| IterDiff.ContentSlicer.constructor | rkndex/iterdiff.py:44-52 | starts in the PROLOGUE span at byte 0, with nothing accumulated and the flush disarmed |
| IterDiff.ContentSlicer.AccFlush | rkndex/iterdiff.py:60-62 | stores exactly the stream bytes [cur_start, index) under cur_id, appends that span, and sets acc_last_byte to the index |
| IterDiff.ContentSlicer.OpenSpan | rkndex/iterdiff.py:69-70 | the next span starts at the current byte index under the new id |
| IterDiff.ContentSlicer.FirstContent | rkndex/iterdiff.py:53-59 | tags before the first `<content>` change nothing; the first `<content>` stores the PROLOGUE span and opens the record's span, failing iff its id is not an integer |
| IterDiff.ContentSlicer.NextContent | rkndex/iterdiff.py:63-70 | after `</content>`, any opening tag other than `content` fails and changes nothing; a `<content>` there stores the previous span first; every `<content>` opens a span at the current index |
| IterDiff.ContentSlicer.CloseTag | rkndex/iterdiff.py:71-78 | `</content>` arms the flush; `</reg:register>` succeeds iff it follows a `</content>`, then stores the last record's span and opens EPILOGUE; other closing tags change nothing |
| IterDiff.ContentSlicer.Handle | rkndex/iterdiff.py:53-78 | one expat callback: it raises exactly when `Rejects` says (a `<content>` whose id is not an integer, a non-`<content>` opening tag after `</content>`, or `</reg:register>` not after `</content>`); otherwise it moves the phase as `Next` says; it keeps the byte accounting and moves the byte index to the event's index |
| IterDiff.ContentSlicer.HandleAll | rkndex/iterdiff.py:81 | the callbacks of one Parse call in order; it fails exactly when `Run` over the batch from the current phase fails, and otherwise ends in the phase `Run` gives |
| IterDiff.RunAppend | rkndex/iterdiff.py:79-86 | running the handlers over two batches is running the first and, unless it raised, the second from where the first left |
| IterDiff.ContentSlicer.Pump | rkndex/iterdiff.py:79-83 | the stream grows by the read; it fails exactly when a handler of the batch raises (`Run` is None); on success it returns the read's length, ends in the phase `Run` gives, and the pipe has dropped exactly the bytes up to acc_last_byte |
| IterDiff.ContentSlicer.Close | rkndex/iterdiff.py:84-89 | it fails exactly when a handler of the final batch raises; on success acc_last_byte == CurrentByteIndex == pipe.off, and the spans in creation order concatenate to the consumed document |
| IterDiff.DifferingSpec | rkndex/iterdiff.py:92-98 | scanning ascending ids yields exactly the ids on both sides with differing bytes, ascending, each with both values |
| IterDiff.CommonChangesSpec | rkndex/iterdiff.py:92-98 | what `pop_common_keys` returns: every common id whose bytes differ and nothing else, in strictly ascending order |
| IterDiff.OneSidedSpec | rkndex/iterdiff.py:114-117 | the one-sided list holds exactly the listed ids present in the map, ascending, paired with b'' on the other side |
| IterDiff.OneSidedRest | rkndex/iterdiff.py:114-117 | the ids of one map missing from the other, ascending, each with its bytes and b'' |
| IterDiff.OneSidedTail | rkndex/iterdiff.py:110-117 | after the final common pass, old-only ids come as (k, v, b'') and new-only ids as (k, b'', v), each ascending |
| IterDiff.PickLeast | rkndex/iterdiff.py:94 | picks the id that `sorted()` puts first |
| IterDiff.PopCommonKeys | rkndex/iterdiff.py:92-98 | returns the changes of `CommonChangesSpec`; every common key is removed from both maps, and one-sided keys are untouched |
| IterDiff.PopAllAscending | rkndex/iterdiff.py:114-117 | pops the whole map, least id first, each paired with b'' on the other side |
| IterDiff.DrainAfterClose | rkndex/iterdiff.py:112-117 | the tail of the differ: the final common pass, then the old-only and new-only ids |
| IterDiff.Step | rkndex/iterdiff.py:104-107 | pumping one slicer with its next read keeps it consistent with its document; it fails exactly when the handlers of the reads so far raise (the end-of-file read has no events and never fails) |
| IterDiff.DocRunStep | rkndex/iterdiff.py:79-81 | feeding one more read runs its events from the phase the earlier reads left |
| IterDiff.DocRunFails | rkndex/iterdiff.py:79-81 | once a handler has raised on a document, it has raised for every longer prefix of its reads |
| IterDiff.DocOkSplit | rkndex/iterdiff.py:79-86 | a document passes exactly when its reads pass and then its final Parse passes from the phase they leave |
| IterDiff.Advance | rkndex/iterdiff.py:104-107 | one zip_longest round for one slicer: pumped until its input ends, then left alone; it fails exactly when the read it pumps makes the handlers raise |
| IterDiff.PopCommon | rkndex/iterdiff.py:108-109 | the common-key pass between pumps returns exactly the common ids with differing bytes, removes the common ids from both accumulators, and keeps the record of what was popped paired between the two slicers |
| IterDiff.AdvanceBoth | rkndex/iterdiff.py:104-107 | one zip_longest round over both slicers: each is pumped unless its input has ended; the round fails exactly when the read pumped into either slicer makes its handlers raise |
| IterDiff.RoundFails | rkndex/iterdiff.py:104-107 | a round that raises on either read means that document has raised by its last read |
| IterDiff.PumpAll | rkndex/iterdiff.py:104-109 | the zip_longest loop fails exactly when the handlers raise on one of the documents' reads; on success the same ids have been popped from both accumulators, and while no id repeats in either document, the changes yielded are exactly the popped ids whose bytes differ, each once; both slicers have consumed their whole input |
| IterDiff.PopFrom | rkndex/iterdiff.py:94-95 | `dict.pop(k)` for every id the other accumulator holds: those entries leave acc and join the record of what was popped; the spans and byte index are untouched |
| IterDiff.PopReports | rkndex/iterdiff.py:108-109 | one common pass extends what has been yielded by exactly the differing entries among the newly popped ids, none of them yielded before |
| IterDiff.DrainDiffers | rkndex/iterdiff.py:112-117 | the tail after close yields a change exactly when an id's bytes differ between the two accumulators, with b'' for a side the id is missing from |
| IterDiff.DrainReports | rkndex/iterdiff.py:101-117 | what the pumping loop yielded plus the tail after close is exactly the per-id difference of the two documents' span dictionaries, each id once |
| IterDiff.SpanMapSnoc | rkndex/iterdiff.py:61 | storing a span under a new id adds exactly that entry to the span dictionary |
| IterDiff.IterContentDiff | rkndex/iterdiff.py:101-117 | it succeeds exactly when no handler raises on either document (`DocOk`, the final Parse included); while no id opens two spans in one document, the output is exactly the ids whose spans differ between the two documents: both byte strings when the id is in both, and b'' for the side it is missing from, each id once; each slicer's spans reproduce its document |
| FileDiff.UnmapMapId | rkndex/filediff.py:25-30 | every id that maps reads back as itself: PROLOGUE ↔ 0xffffffff, EPILOGUE ↔ 0xfffffffe |
| FileDiff.MapIdInjective | rkndex/filediff.py:25-30 | no two ids map to the same header id (a real id equal to a sentinel maps to None) |
| FileDiff.PackHeader | rkndex/filediff.py:47 | packing succeeds iff the id is not None and all four fields fit in u32; the result has 16 bytes |
| FileDiff.UnpackHeader | rkndex/filediff.py:57 | 16 bytes unpack into four u32 fields |
| FileDiff.UnpackPackHeader | rkndex/filediff.py:16 | `<IIII` unpacking gives back the packed magic, id and both lengths |
| FileDiff.ChooseMagic | rkndex/filediff.py:36-46 | fails iff encode raises something other than NoDeltaFound; NoDeltaFound gives RAW with v2; a delta that does not decode back to v2 gives UGLY with v2; otherwise XDELTA3 with the delta; in every case the reader rebuilds v2 |
| FileDiff.Frame | rkndex/filediff.py:35-49 | a frame is only written for an id that maps, and holds at least the header and the old bytes |
| FileDiff.WriteContentDiff | rkndex/filediff.py:24-49 | one frame per change, in order, stopping at the first exception |
| FileDiff.ReadFrame | rkndex/filediff.py:54-64 | an empty read ends the stream; 1-15 bytes fail the header unpack; with a header, 'Bad format' is raised exactly when the magic is unknown or the stream is shorter than header + len1 + len2; otherwise the entry is (header id, the next len1 bytes, the payload decoded by magic), the rest starts right after the payload, and only an XDELTA3 payload can fail to decode |
| FileDiff.ReadContentDiff | rkndex/filediff.py:51-64 | the loop yields the entries of `ReadAll` and stops with its error |
| FileDiff.ReadFrameOfFrame | rkndex/filediff.py:47-64 | a written frame reads back as (mapped id, v1, v2) and leaves exactly what follows it |
| FileDiff.ReadWritten | rkndex/filediff.py:40-64 | reading back what was written yields, without error, the changes written before the first write error; after a complete write, all of them |
| FileDiff.IndexContentDiff | rkndex/filediff.py:66-72 | the loop returns what the lazy lookup returns |
| FileDiff.FirstWithId | rkndex/filediff.py:69-71 | finds the first entry with the needle id, or reports that there is none |
| FileDiff.LookupReadAll | rkndex/filediff.py:66-72 | the lookup returns the first entry with the id; if none, the read error when the stream is bad, else IndexError |
| Pg.StrNnIsEscape | rkndex/pg.py:50-52 | the four chained replaces escape each character on its own |
| Pg.UnescapeStrNn | rkndex/pg.py:50-52 | `str_nn` is injective: COPY's un-escaping of its output gives the input back |
| Pg.StrNnWellEscaped | rkndex/pg.py:50-52 | the output of `str_nn` has no raw newline, CR or tab, and every backslash is followed by `\`, `n`, `r` or `t` |
| Pg.WellEscapedNoControls | rkndex/pg.py:50-52 | a well-escaped field holds no tab, newline or carriage return |
| Pg.NullIsNotString | rkndex/pg.py:45-48 | `\N` differs from `str_nn(s)` for every string s |
| Pg.ReadStrNullable | rkndex/pg.py:45-48 | COPY reads `str_nullable(v)` back as v, None included |
| Pg.ReadBoolNn | rkndex/pg.py:58-60 | `bool_nn` yields exactly "TRUE" or "FALSE", read back as the boolean |
| Pg.ReadIntNn | rkndex/pg.py:41-43 | `int_nn` is the decimal text that `int()` reads back as the integer |
| Pg.RknTsNn | rkndex/pg.py:62-64 | defined iff RKN_EPOCH ≤ v ≤ 0x7fffffff, bounds included, and then is the UTC isoformat of v; `IndexList.ValwrapRknTsNn` compares it with `main_list_valwrap` |
| IndexList.ValwrapRknTsNn | rkndex/index_list.py:34-35 | `main_list_valwrap` and `rkn_ts_nn` agree strictly inside (RKN_EPOCH, 0x7fffffff); at the two endpoints `rkn_ts_nn` formats the time and `main_list_valwrap` raises; outside both reject it |
| Pg.SplitJoinTabs | rkndex/index_diff.py:288 | splitting a tab-joined row at its tabs gives back its fields, when none holds a tab |
| Pg.PGCopyFrom.constructor | rkndex/pg.py:15-21 | a new buffer is empty and open, with nothing sent |
| Pg.PGCopyFrom.Flush | rkndex/pg.py:28-33 | the whole buffer goes to the sink and the buffer is emptied |
| Pg.PGCopyFrom.Write | rkndex/pg.py:22-27 | the line must be empty or end in 0x0a; it flushes first iff the buffer is non-empty and would overflow; the buffer never exceeds max(wbufsize, len(line)); sent chunks plus the buffer are all lines written, in order |
| Pg.PGCopyFrom.Close | rkndex/pg.py:34-36 | a last flush: the chunks sent are exactly the lines written, in order, and the buffer is closed |
| Text.ParseDecimalText | rkndex/pg.py:41-43 | `int(str(n)) == n` for every integer n |
| Text.SplitThreeWords | rkndex/gitarlog.py:120 | `split(None, 2)` of two words and a remainder gives them back |
| Text.UnhexlifyHexlify | rkndex/gitarlog.py:127 | `unhexlify` undoes `hexlify` |
| IndexDiff.TagOf | rkndex/index_diff.py:40-43 | recognises a value tag by its name |
| IndexDiff.TagOfName | rkndex/index_diff.py:40 | each of the six value tags is recognised by its own name |
| IndexDiff.MatchScans | rkndex/index_diff.py:84 | any match of `[^/:]+://[^/]+/+[^/#]+` at the start of a url is found by the scan |
| IndexDiff.HasPathMatches | rkndex/index_diff.py:100 | `has_path` holds for a url iff the pattern matches at its start |
| IndexDiff.DeriveConsistent | rkndex/index_diff.py:95-101 | a domain wildcard implies has_domain; http, https or a path imply has_url; has_ip iff one of the four ip maps is non-empty |
| IndexDiff.IntAttr | rkndex/index_diff.py:55-56 | `int(attr[key])` succeeds iff the attribute is present and an integer, and gives its value |
| IndexDiff.OptIntAttr | rkndex/index_diff.py:73-74 | an absent urgencyType is None; a present one must be an integer |
| IndexDiff.OpenContent | rkndex/index_diff.py:53-78 | `<content>` opens iff id and entryType are integers and urgencyType (if present) is one; the record starts with those, blockType from its attribute and six empty value maps; unknown attributes only raise `unknown_attrs` |
| IndexDiff.OpenValue | rkndex/index_diff.py:43-47 | a value tag fails iff a value is already being collected (no nesting); otherwise it starts an empty buffer, takes its `ts` and flags any other attribute |
| IndexDiff.CloseValue | rkndex/index_diff.py:86-92 | closing a value tag stores cdata → tag ts in that tag's map only (a later ts overwrites) and raises `duplicate_cdata_tag` iff the cdata was already there |
| IndexDiff.CloseContent | rkndex/index_diff.py:93-106 | fails iff blockType is literally "<null>"; an absent blockType becomes "<null>"; the record carries its flags from its values |
| IndexDiff.UnknownTag | rkndex/index_diff.py:82-83 | unknown tags only raise `unknown_tags` and never abort the parse |
| IndexDiff.HashFlagged | rkndex/index_diff.py:39 | as written, a content element with a `hash` attribute raises `unknown_attrs` |
| IndexDiff.ContentOpens | rkndex/index_diff.py:77-78 | a content element whose integers parse opens, flagged iff it has an attribute outside the known keys |
| IndexDiff.HashFlaggedAsWritten | rkndex/index_diff.py:39 | `<content id="1" entryType="0" hash="00">` raises `unknown_attrs` as written |
| IndexDiff.HashKnown | rkndex/index_diff.py:39 | with `hash` a known key, a content element with only known attributes leaves `unknown_attrs` as it was |
| IndexDiff.HandledKeeps | rkndex/index_diff.py:42-106 | a callback never clears an error flag, and every record it hands over has a non-NULL blockType and flags from its values |
| IndexDiff.ParsedKeeps | rkndex/index_diff.py:118-119 | the same over any run of events |
| IndexDiff.ParsedAppend | rkndex/index_diff.py:118-119 | parsing in chunks is parsing the concatenation |
| IndexDiff.DumpParserErr.constructor | rkndex/index_diff.py:21-25 | all three flags start False |
| IndexDiff.DumpParser.constructor | rkndex/index_diff.py:28-35 | no content, no buffer, no tag ts, flags clear |
| IndexDiff.DumpParser.OpenTag | rkndex/index_diff.py:42-83 | the parser's fields become exactly what `open_tag` makes them, or its exception is returned |
| IndexDiff.DumpParser.CloseTag | rkndex/index_diff.py:85-106 | likewise for `close_tag`, returning the record handed to content_cb |
| IndexDiff.DumpParser.CharData | rkndex/index_diff.py:116-117 | character data is appended to the open value buffer |
| IndexDiff.DumpParser.Handle | rkndex/index_diff.py:32-33 | one expat callback on the parser's fields |
| IndexDiff.DumpParser.Parse | rkndex/index_diff.py:118-119 | the callbacks of a chunk in order; the records in delivery order; the first exception stops it |
| IndexDiff.Absorb | rkndex/index_diff.py:123-124 | content_cb keys every record by its own id, and the keys are the old keys plus the delivered ids |
| IndexDiff.FinalBlob | rkndex/index_diff.py:136 | the final blob is empty iff the EPILOGUE entry was seen, else `</reg:register>` |
| IndexDiff.DrainedRest | rkndex/index_diff.py:134-135 | after the common-id pass, each side keeps exactly its one-sided ids with their records |
| IndexDiff.DrainedElems | rkndex/index_diff.py:134-135 | each yielded triple is (k, acc1[k], acc2[k]) for a common id k |
| IndexDiff.DrainedCovers | rkndex/index_diff.py:134-135 | every common id is yielded |
| IndexDiff.DrainedIncreasing | rkndex/index_diff.py:134-135 | each id is yielded once (ascending, in this model) |
| IndexDiff.LoneElems | rkndex/index_diff.py:141-144 | each leftover triple is (k, c, None) for the old side or (k, None, c) for the new side |
| IndexDiff.LoneCovers | rkndex/index_diff.py:141-144 | every leftover id is yielded |
| IndexDiff.LoneIncreasing | rkndex/index_diff.py:141-144 | each leftover id is yielded once |
| IndexDiff.DrainedKeyed | rkndex/index_diff.py:134-135 | common-id triples carry records whose ids are the triple's id |
| IndexDiff.LoneKeyed | rkndex/index_diff.py:141-144 | so do leftover triples |
| IndexDiff.StepFacts | rkndex/index_diff.py:127-135 | one diff entry keeps the accumulators keyed by id, yields well-paired triples, and sets seen_epilogue iff its id is CONTENT_EPILOGUE |
| IndexDiff.StepsFacts | rkndex/index_diff.py:126-135 | the loop over entries: seen_epilogue is set iff some entry is the epilogue |
| IndexDiff.MergeFacts | rkndex/index_diff.py:121-145 | every yielded triple carries records of its own id (so the assertion in fetch_diff_from_xdelta holds); `</reg:register>` is fed iff no EPILOGUE entry was seen |
| IndexDiff.PickLeast | rkndex/index_diff.py:134 | picks the least remaining id |
| IndexDiff.PopCommon | rkndex/index_diff.py:134-135 | the pop loop over common ids computes the drained pass |
| IndexDiff.PopLone | rkndex/index_diff.py:141-144 | the pop loop over one accumulator computes the leftover triples |
| IndexDiff.Advance | rkndex/index_diff.py:127-135 | one loop pass over the two parsers computes `Step` |
| IndexDiff.Complete | rkndex/index_diff.py:136-144 | the final parse and drains compute `Finish` |
| IndexDiff.MergeRecords | rkndex/index_diff.py:121-145 | the generator run to its end computes `Merge` |
| IndexDiff.Shared | rkndex/index_diff.py:162 | `items() & items()`: the values present on both sides with equal ts |
| IndexDiff.DelCommonsExact | rkndex/index_diff.py:157-163 | no change unless both records exist with equal CONTENT_PREKEY; otherwise each side loses exactly the (value, ts) items both share; values whose ts differs survive; nothing else changes |
| IndexDiff.ReducedUnshared | rkndex/index_diff.py:162-163 | after the deletion the two sides share no item |
| IndexDiff.DelCommonsIdempotent | rkndex/index_diff.py:157-163 | applying `del_commons` twice changes nothing more |
| IndexDiff.SharedSymmetric | rkndex/index_diff.py:162 | the shared items are the same seen from either side |
| IndexDiff.DelShared | rkndex/index_diff.py:162-163 | the deletion loop removes the shared items from both maps |
| IndexDiff.DelCommonsInPlace | rkndex/index_diff.py:157-163 | the tag-by-tag loop computes `del_commons` |
| DiffIngest.RowOf | rkndex/index_diff.py:266-274 | the row of one value: the head, tag ts, tag and value; ip_inet is None for url/domain and otherwise the value, or None if empty |
| DiffIngest.Rank | rkndex/index_diff.py:266-270 | the tag order of `write_content`: url, domain, ip, ipv6, ipSubnet, ipv6Subnet |
| DiffIngest.RowsOfUnique | rkndex/index_diff.py:262-274 | the rows of a record are determined up to order |
| DiffIngest.TagRows | rkndex/index_diff.py:267-274 | one row per item of a tag's map, none twice |
| DiffIngest.ContentRows | rkndex/index_diff.py:262-274 | one row per (tag, value) item of the record, all with the same head, none twice, tags in `write_content`'s order |
| DiffIngest.ApplyAll | rkndex/index_diff.py:288 | zipping encoders with a row gives one field per value |
| DiffIngest.ReadApply | rkndex/index_diff.py:276-286 | COPY reads every encoder's output back as the value |
| DiffIngest.ReadApplyAll | rkndex/index_diff.py:288 | the same for the whole row |
| DiffIngest.ApplyTabFree | rkndex/index_diff.py:288 | no encoder output holds a tab |
| DiffIngest.ApplyAllTabFree | rkndex/index_diff.py:288 | the same for every field of the row |
| DiffIngest.RowTextReadsBack | rkndex/index_diff.py:276-288 | a well-typed 18-field row is written as its fields tab-joined plus a newline, and COPY reads it back as the same values |
| DiffIngest.RowValues | rkndex/index_diff.py:287 | the row tuple has exactly as many values as `types` |
| DiffIngest.FitsApply | rkndex/pg.py:41-60 | an encoder's isinstance assertion holds exactly on values of its type |
| DiffIngest.RowValuesTyped | rkndex/index_diff.py:276-287 | every content row passes all 18 encoders' assertions |
| DiffIngest.FromRowValues | rkndex/index_diff.py:263-274 | the tuple `head + tail` stands for its row alone |
| DiffIngest.RowValuesTimes | rkndex/index_diff.py:264 | the only datetime values are the two update times |
| DiffIngest.RowLine | rkndex/index_diff.py:288 | the encoded line is non-empty and ends in 0x0a, as `PGCopyFrom.write` requires |
| DiffIngest.RowReadsBack | rkndex/index_diff.py:262-288 | each row's COPY line reads back as that row |
| DiffIngest.DbWriter.constructor | rkndex/index_diff.py:249-253 | two fresh, distinct, empty COPY buffers and the two update times |
| DiffIngest.DbWriter.WriteContent | rkndex/index_diff.py:262-274 | the rows of the record, as `ContentRows` states them, are appended to `content` as COPY lines |
| DiffIngest.DbWriter.WriteLines | rkndex/index_diff.py:288 | the lines are written to `content` in order |
| DiffIngest.DbWriter.AddContent | rkndex/index_diff.py:254-255 | `write_content` with is_deletion False |
| DiffIngest.DbWriter.DelContent | rkndex/index_diff.py:256-257 | `write_content` with is_deletion True |
| DiffIngest.DbWriter.UpdContent | rkndex/index_diff.py:258-261 | the old record's rows as deletions, then the new record's rows as additions |
| DiffIngest.DbWriter.Close | rkndex/index_diff.py:292-294 | both buffers are closed, and everything written to `content` was sent, in order |
| DiffIngest.RowLines | rkndex/index_diff.py:288 | one line per row, each ending in 0x0a |
| DiffIngest.CollectDiff | rkndex/index_diff.py:173-176 | succeeds iff every triple's records carry its id, and then returns the `del_commons` of each pair, in order |
| DiffIngest.FetchDiffFromXdelta | rkndex/index_diff.py:165-178 | fails exactly where the merger fails; otherwise the id assertion holds and it returns the reduced pairs with both parsers' flags |
| DiffIngest.Classify | rkndex/index_diff.py:226-236 | fails iff both records are None or their ids differ; otherwise deletes c1 if present, then adds c2 if present (upd_content does the same) |
| DiffIngest.WriteOne | rkndex/index_diff.py:227-230 | the add-only or delete-only branch writes that record's rows |
| DiffIngest.WriteTwo | rkndex/index_diff.py:231-236 | both the prekey-change branch and the `upd_content` branch write c1's rows as deletions, then c2's rows |
| DiffIngest.IngestPair | rkndex/index_diff.py:226-239 | one pair: fails as `Classify` does, writing nothing; otherwise writes the rows of its classified calls |
| DiffIngest.WritesPrefixErr | rkndex/index_diff.py:226-239 | the first failing pair stops the whole loop |
| DiffIngest.IngestPairs | rkndex/index_diff.py:225-239 | the loop over the diff: it fails at the first failing pair; otherwise `content` receives the rows of every classified call, in order |
| DiffIngest.DelCommonsKeepsIds | rkndex/index_diff.py:174-175 | `del_commons` keeps each side present or absent, with its id |
| DiffIngest.PairsClassify | rkndex/index_diff.py:173-176 | every pair of a merged diff classifies: it has a record, and its records share an id |
| DiffIngest.IngestDiff | rkndex/index_diff.py:219-246 | fails exactly where parsing fails; otherwise every pair is written without error, the chunks sent are the rows of the writes in order, and the ingested_diff row has has_exc False and the flags of both parsers |
| IndexList.PageSince | rkndex/index_list.py:23-25 | the cursor after a page is the running maximum of `since` and the update times; it fails at the first dump without an integer update time |
| IndexList.ListFromRequests | rkndex/index_list.py:17-22 | one request per page-size draw; the first carries since = 0; the cursor never decreases |
| IndexList.ListFromCursor | rkndex/index_list.py:17-27 | the listing ends cleanly only on a page shorter than its size; each cursor is at least every update time of the page before |
| IndexList.ListFromPage | rkndex/index_list.py:18-27 | one page, unfolded: its dumps, then the next page from the new cursor unless the page was short |
| IndexList.ScanPage | rkndex/index_list.py:23-25 | the scan over a page computes `PageSince` |
| IndexList.IterKnownDumps | rkndex/index_list.py:15-27 | the generator computes the listing |
| IndexList.Valwrap | rkndex/index_list.py:29-37 | a str becomes `\\x` + str; None becomes `\N`; an integer strictly between RKN_EPOCH and 0x7fffffff becomes its UTC isoformat; anything else, both endpoints included, raises |
| IndexList.ValwrapReadsBack | rkndex/index_list.py:29-33 | COPY reads a wrapped digest as the bytea input `\x` + hex, and `\N` as NULL |
| IndexList.Fields | rkndex/index_list.py:50 | one wrapped value per key in key order, or the first missing key or bad value |
| IndexList.RowLine | rkndex/index_list.py:49-52 | the ASCII line is non-empty and ends in a newline |
| IndexList.RowLineShape | rkndex/index_list.py:49-52 | the line splits back into one wrapped value per key |
| IndexList.RowLines | rkndex/index_list.py:48-52 | the lines of the dumps up to the first that cannot be written; all of them when none fails |
| IndexList.RowLinesAreRows | rkndex/index_list.py:48-52 | each line written is the row line of the dump at that position |
| IndexList.MainList | rkndex/index_list.py:47-52 | the buffer receives exactly those lines, in listing order, and the error that stops it |
| GitarLog.TimeColumn | rkndex/gitarlog.py:100-106 | the times_map columns are the first five |
| GitarLog.DigestColumn | rkndex/gitarlog.py:126-128 | a digest column exists iff the file name is known, and it is `<xml\|sig>_<algo>` |
| GitarLog.ClassifyWords | rkndex/gitarlog.py:121-141 | a time line whose value is not an integer is bad; one carrying RKN_EPOCH sets its column to NULL, any other integer sets it to that integer; a digest line sets `<file>_<algo>` to the unhexlified bytes and is bad when the file name is unknown or the hex does not decode; the line is the separator iff all three words are `.`; any other shape is bad; no time cell is ever RKN_EPOCH |
| GitarLog.ClassifyWordsRejects | rkndex/gitarlog.py:121-141 | exactly the three-word lines that raise: a non-integer time, a digest of an unknown file or with bad hex, and any line that is neither a time, a digest nor `. . .` |
| GitarLog.ClassifyDots | rkndex/gitarlog.py:129 | the words `.` `.` `.` classify as the separator (the converse of ClassifyWords' "only `. . .` is the separator") |
| GitarLog.ClassifyEpochWords | rkndex/gitarlog.py:121-125 | the time line written with RKN_EPOCH reads back as setting that column to NULL |
| GitarLog.Classify | rkndex/gitarlog.py:118-141 | the line `\n` alone is skipped; a line that is not ASCII or does not split into three words is bad; any other line is classified by its three words |
| GitarLog.Apply | rkndex/gitarlog.py:121-137 | the row keeps its fifteen columns; the separator inserts only a non-empty row and leaves it empty |
| GitarLog.Feed | rkndex/gitarlog.py:116-141 | the row keeps its fifteen columns through the loop |
| GitarLog.FeedLine | rkndex/gitarlog.py:116-141 | the same for one turn of the loop |
| GitarLog.FeedRowsNotEmpty | rkndex/gitarlog.py:129-137 | every inserted row has fifteen columns and at least one of them set |
| GitarLog.FeedStep | rkndex/gitarlog.py:116-141 | a bad line stops with 'Bad line in git log' and the row; a good one updates the row and goes on |
| GitarLog.ApplyLine | rkndex/gitarlog.py:121-137 | one well-formed line updates the row in place as `Apply` states: a cell is set, or at a separator a non-empty row is inserted and reset |
| GitarLog.InsertUpTo | rkndex/gitarlog.py:114-143 | the loop computes the rows inserted and the error; a non-zero exit raises after the loop |
| GitarLog.FeedErrorStops | rkndex/gitarlog.py:140-141 | after a bad line no further line is read |
| GitarLog.WordsOfLine | rkndex/gitarlog.py:120 | a line of three words splits back into them and is not `\n` |
| GitarLog.TimeColumnWord | rkndex/gitarlog.py:100-106 | each times_map key names its own column |
| GitarLog.DigestColumnWord | rkndex/gitarlog.py:107-110 | each digest name and file name names its own column |
| GitarLog.ClassifyColumnWords | rkndex/gitarlog.py:121-128 | the words stating a cell classify as setting that cell |
| GitarLog.ClassifyColumnLine | rkndex/gitarlog.py:120-128 | the line stating a cell classifies as setting that cell |
| GitarLog.ClassifySeparator | rkndex/gitarlog.py:129 | `. . .` classifies as the separator |
| GitarLog.FeedColumnLine | rkndex/gitarlog.py:121-128 | the line of a non-NULL cell sets it and the loop goes on |
| GitarLog.FeedSeparatorLine | rkndex/gitarlog.py:129-137 | the separator inserts the row unless it is all None, and resets it |
| GitarLog.FeedLinesFrom | rkndex/gitarlog.py:116-137 | the lines for the remaining cells rebuild the row before the separator |
| GitarLog.ReadCommitBody | rkndex/gitarlog.py:116-137 | reading a row's commit body inserts exactly that row, or nothing if it is all None |

## Left out

- gzip (RFC 1952) around the diff container: the model reads and writes the decompressed stream.
- xdelta3 (RFC 3284): the encoder and decoder are two function parameters. The model never relies on decode undoing encode, beyond the check the writer makes.
- expat: its tokenising, buffering and error states are not modelled. The handlers are driven by a sequence of events with byte indices.
- A parse that raised once is not stopped from being fed again.
- The slicer's failures are the three handler raises only (`IterDiff.Rejects`). Its other two failure points, getbuf's 'Out of range' inside accflush and the assertion at the end of close, are proved unreachable. Malformed XML, which expat itself rejects, is not modelled.
- datetime formatting: `isoformat`/`utcfromtimestamp` are a function parameter in `Pg.RknTsNn` and `IndexList.Valwrap`. `DiffIngest` receives the two update times as the text `datetime_nn` writes.
- Network, SQL, subprocess and file handles are not modelled:
  - HTTP (`fetch_url`, the listing requests): page answers are a `server` function parameter, and the random page sizes are a list of draws.
  - `select_update_time`, `main_diff` and `main_alldiff`.
  - The ingested_diff INSERT is modelled as the returned `IngestedDiff` row.
  - The COPY cursor is modelled as the `sent` list of chunks.
  - `Popen`: the lines of `git log` and its exit code are parameters.
  - The sqlite INSERT is modelled as the list of inserted rows.
- Transactions: rows already sent to COPY before an exception are not rolled back in the model.
- Generators and laziness: each generator is run to its end (or its first exception) and its output is a list. The interleaving of yields with the consumer's work is not modelled.
- Dict and set iteration order: the merger's `acc1.keys() & acc2.keys()` and `list(acc.keys())` are iterated least id first. `write_content` states its rows within a tag up to order (`DiffIngest.RowsOfUnique`).
- Dicts changed in place (`del_commons`, the accumulators, `pop_common_keys`) are modelled as maps returned or reassigned. Aliasing between a yielded record and the accumulator is not modelled.
- `DbWriter.upd_meta` and `DbWriter.zerodiff`: the former is a no-op stub, and the latter is opened and closed but never written.
- IndexDiff.DumpParser.CloseTag: a value tag closed with no open buffer returns NoCdata. The source would store the value None instead. Expat's balanced tags make this unreachable after a successful open.
- IterDiff.ContentSlicer.Close: the spans reproduce the document only while no `<content>` opens inside an unclosed `<content>` (ghost `Gapless`). The source's assertion does not notice such lost bytes either.
- Pg.ReadIntNn: `int_nn` also accepts `bool`, which Python counts as Integral; the model takes `int` only.
- IndexList.Valwrap: a JSON float is not modelled; the source formats a float strictly between RKN_EPOCH and 0x7fffffff, and the model has no such value, so its `Other` case (floats, booleans, lists and objects) always fails.
- IndexList.PageSince: an `update_time` that is a float (or a bool) passes the source's `max()`, and the model has no such value; a dump whose update time is not an integer stops the page in the model.
- IndexDiff.IntAttr: `int()` is modelled on ASCII digits, with an optional sign, single underscores between digits and surrounding whitespace. The non-ASCII decimal digits that Python's `int()` also accepts (Arabic-Indic or full-width digits, say) are rejected.
- IndexDiff.OpenContent: the content attributes are checked against the corrected key set that includes `hash` (`IndexDiff.HashKnown`); the key set as written at rkndex/index_diff.py:39 flags `hash` and accepts `h`, `a` and `s`, which the model shows only in `IndexDiff.HashFlaggedAsWritten` (see Findings).
- IndexDiff.DumpParser.OpenTag: runs `OpenContent`, so it uses the corrected content key set, not the one as written at rkndex/index_diff.py:39.
- DiffIngest.FetchDiffFromXdelta: the parsers' `unknown_attrs` flags it returns follow the corrected content key set; with the key set as written, a record with a `hash` attribute would also raise the flag.
- DiffIngest.IngestDiff: the `unknown_attrs` flags of the ingested_diff row follow the corrected content key set, as in `FetchDiffFromXdelta`.
- GitarLog.InsertUpTo: sqlite's column constraints are not modelled. In the source a row with NULL in a NOT NULL column (all but `update_time_urgently`, `xml_mtime` and `sig_mtime`), or an `xml_sha1` already in the table, makes the INSERT raise inside the `try`, which stops the loop with 'Bad line in git log'; the model inserts every row that is not all NULL.
- IterDiff.IterContentDiff: the exact-difference statement holds while no id opens two spans in one document. With a repeated id, `acc` keeps the later span, and what is compared depends on where the reads split the input.
- The binsha1 length assertion and the hexlify of the hashes in `ingest_diff`: they only feed the omitted SQL and HTTP calls.
- The `known_dump`/`log` head bookkeeping in gitarlog.py and `refresh_known_diff`: SQL.

## Findings

| source | as written | input that shows it | evidently intended | confidence | as-written member | corrected member |
|---|---|---|---|---|---|---|
| rkndex/index_diff.py:39 | `frozenset(('hash'))` is the set of the letters h, a, s, so `hash` is not a known content attribute | `<content id="1" entryType="0" hash="00">` raises `unknown_attrs` | `frozenset(('hash',))`: `hash` is a known attribute | high; not executed | IndexDiff.HashFlaggedAsWritten | IndexDiff.HashKnown |
