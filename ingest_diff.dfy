/** ingest_diff and its DbWriter (rkndex/index_diff.py): the paired records of a
    diff, with what both versions share dropped, become deletions and additions,
    each written as COPY rows of the `content` table. */
module DiffIngest {
  import opened Wrappers
  import opened Bytes
  import opened Text
  import opened IndexDiff
  import opened Expat
  import Pg

  // ---------------------------------------------------------------------------
  // Rows of the `content` table

  /** The head of every row write_content produces for one record: CONTENT_PREKEY,
      is_deletion, update_time_from, update_time_to (as their isoformat() text, which
      datetime_nn writes), includeTime and ts. */
  datatype RowHead = RowHead(prekey: Prekey, isDeletion: bool, updateTimeFrom: string, updateTimeTo: string,
                             includeTime: Option<string>, ts: Option<string>)

  /** A head and the tail (tag_ts, tag, cdata, ip_inet) of one value. */
  datatype ContentRow = ContentRow(head: RowHead, tagTs: Option<string>, tag: ValueTag, value: string,
                                   ipInet: Option<string>)

  function Head(c: Record, isDeletion: bool, updateTimeFrom: string, updateTimeTo: string): RowHead
  {
    RowHead(PrekeyOf(c), isDeletion, updateTimeFrom, updateTimeTo, c.content.includeTime, c.content.ts)
  }

  /** The row of one value: ip_inet is None for url and domain, and for the four ip
      tags it is the cdata itself unless that is empty. */
  function RowOf(head: RowHead, t: ValueTag, cdata: string, tagTs: Option<string>): (r: ContentRow)
    ensures r.head == head && r.tag == t && r.value == cdata && r.tagTs == tagTs
    ensures r.ipInet.Some? <==> t != Url && t != Domain && cdata != []
    ensures r.ipInet.Some? ==> r.ipInet.value == cdata
  {
    var ipInet := if t == Url || t == Domain then None else if |cdata| > 0 then Some(cdata) else None;
    ContentRow(head, tagTs, t, cdata, ipInet)
  }

  /** The position of a tag in the order write_content visits them: url, domain, ip,
      ipv6, ipSubnet, ipv6Subnet. */
  function Rank(t: ValueTag): (r: nat)
    ensures r < |ALL_TAGS| && ALL_TAGS[r] == t
  {
    match t
    case Url => 0
    case Domain => 1
    case Ip => 2
    case Ipv6 => 3
    case IpSubnet => 4
    case Ipv6Subnet => 5
  }

  /** Every row is the row of one (tag, cdata) item of `v`. */
  predicate RowsValid(rows: seq<ContentRow>, head: RowHead, v: Values)
  {
    forall i :: 0 <= i < |rows| ==>
      rows[i].value in v.Get(rows[i].tag)
      && rows[i] == RowOf(head, rows[i].tag, rows[i].value, v.Get(rows[i].tag)[rows[i].value])
  }

  /** Every item of the first n tags has a row. */
  predicate RowsCover(rows: seq<ContentRow>, v: Values, n: nat)
  {
    forall t, k :: Rank(t) < n && k in v.Get(t) ==> exists i :: 0 <= i < |rows| && rows[i].tag == t && rows[i].value == k
  }

  /** No item has two rows. */
  predicate RowsDistinct(rows: seq<ContentRow>)
  {
    forall i, j :: 0 <= i < j < |rows| ==> rows[i].tag != rows[j].tag || rows[i].value != rows[j].value
  }

  /** The tags come in write_content's order. */
  predicate RowsOrdered(rows: seq<ContentRow>)
  {
    forall i, j :: 0 <= i < j < |rows| ==> Rank(rows[i].tag) <= Rank(rows[j].tag)
  }

  /** `rows` are the rows write_content produces from `head` and the value maps `v`:
      every row is the row of one (tag, cdata) item, every item of every tag has a
      row, no item has two, and the tags come in write_content's order. Within one
      tag the order is the dict's, which the model leaves open. */
  predicate RowsOf(rows: seq<ContentRow>, head: RowHead, v: Values)
  {
    RowsValid(rows, head, v) && RowsCover(rows, v, |ALL_TAGS|) && RowsDistinct(rows) && RowsOrdered(rows)
  }

  /** The rows are determined up to their order: two lists that both satisfy RowsOf
      hold the same rows. */
  lemma RowsOfUnique(r1: seq<ContentRow>, r2: seq<ContentRow>, head: RowHead, v: Values)
    requires RowsOf(r1, head, v) && RowsOf(r2, head, v)
    ensures forall x :: x in r1 <==> x in r2
  {
    forall x | x in r1
      ensures x in r2
    {
      var i :| 0 <= i < |r1| && r1[i] == x;
      var j :| 0 <= j < |r2| && r2[j].tag == x.tag && r2[j].value == x.value;
    }
    forall x | x in r2
      ensures x in r1
    {
      var j :| 0 <= j < |r2| && r2[j] == x;
      var i :| 0 <= i < |r1| && r1[i].tag == x.tag && r1[i].value == x.value;
    }
  }

  /** The rows of one tag t with value map e: one per item, none twice. */
  predicate TagRowsOf(rows: seq<ContentRow>, head: RowHead, t: ValueTag, e: Entries)
  {
    && (forall i :: 0 <= i < |rows| ==> rows[i].value in e && rows[i] == RowOf(head, t, rows[i].value, e[rows[i].value]))
    && (forall k :: k in e ==> exists i :: 0 <= i < |rows| && rows[i].value == k)
    && (forall i, j :: 0 <= i < j < |rows| ==> rows[i].value != rows[j].value)
  }

  /** `for cdata, tag_ts in c[tag].items()`: the rows of one tag. */
  method TagRows(head: RowHead, t: ValueTag, e: Entries) returns (rows: seq<ContentRow>)
    ensures TagRowsOf(rows, head, t, e)
  {
    var keys := e.Keys;
    rows := [];
    while keys != {}
      invariant keys <= e.Keys
      invariant forall i :: 0 <= i < |rows| ==>
        rows[i].value in e && rows[i].value !in keys && rows[i] == RowOf(head, t, rows[i].value, e[rows[i].value])
      invariant forall k :: k in e && k !in keys ==> exists i :: 0 <= i < |rows| && rows[i].value == k
      invariant forall i, j :: 0 <= i < j < |rows| ==> rows[i].value != rows[j].value
      decreases keys
    {
      var k :| k in keys;
      var prev := rows;
      rows := rows + [RowOf(head, t, k, e[k])];
      assert forall i :: 0 <= i < |prev| ==> rows[i] == prev[i];
      assert rows[|prev|].value == k;
      keys := keys - {k};
    }
  }

  /** The rows write_content produces for one record, tag by tag. */
  method ContentRows(head: RowHead, v: Values) returns (rows: seq<ContentRow>)
    ensures RowsOf(rows, head, v)
  {
    rows := [];
    for n := 0 to |ALL_TAGS|
      invariant RowsValid(rows, head, v) && RowsCover(rows, v, n) && RowsDistinct(rows) && RowsOrdered(rows)
      invariant forall i :: 0 <= i < |rows| ==> Rank(rows[i].tag) < n
    {
      var more := TagRows(head, ALL_TAGS[n], v.Get(ALL_TAGS[n]));
      AppendTag(rows, more, head, v, n);
      rows := rows + more;
    }
  }

  /** One step of ContentRows: the rows of the n-th tag go after those of the tags
      before it. */
  lemma AppendTag(rows: seq<ContentRow>, more: seq<ContentRow>, head: RowHead, v: Values, n: nat)
    requires n < |ALL_TAGS|
    requires RowsValid(rows, head, v) && RowsCover(rows, v, n) && RowsDistinct(rows) && RowsOrdered(rows)
    requires forall i :: 0 <= i < |rows| ==> Rank(rows[i].tag) < n
    requires TagRowsOf(more, head, ALL_TAGS[n], v.Get(ALL_TAGS[n]))
    ensures var all := rows + more;
      RowsValid(all, head, v) && RowsCover(all, v, n + 1) && RowsDistinct(all) && RowsOrdered(all)
      && forall i :: 0 <= i < |all| ==> Rank(all[i].tag) < n + 1
  {
    AppendValid(rows, more, head, v, n);
    AppendCover(rows, more, head, v, n);
    AppendOrdered(rows, more, head, v, n);
    AppendDistinct(rows, more, head, v, n);
  }

  lemma AppendOrdered(rows: seq<ContentRow>, more: seq<ContentRow>, head: RowHead, v: Values, n: nat)
    requires n < |ALL_TAGS|
    requires RowsOrdered(rows)
    requires forall i :: 0 <= i < |rows| ==> Rank(rows[i].tag) < n
    requires TagRowsOf(more, head, ALL_TAGS[n], v.Get(ALL_TAGS[n]))
    ensures RowsOrdered(rows + more) && forall i :: 0 <= i < |rows + more| ==> Rank((rows + more)[i].tag) < n + 1
  {
    var all := rows + more;
    forall i | 0 <= i < |all|
      ensures Rank(all[i].tag) <= n && (i >= |rows| ==> Rank(all[i].tag) == n)
    {
      if i >= |rows| {
        assert all[i] == more[i - |rows|];
      }
    }
  }

  lemma AppendDistinct(rows: seq<ContentRow>, more: seq<ContentRow>, head: RowHead, v: Values, n: nat)
    requires n < |ALL_TAGS|
    requires RowsDistinct(rows)
    requires forall i :: 0 <= i < |rows| ==> Rank(rows[i].tag) < n
    requires TagRowsOf(more, head, ALL_TAGS[n], v.Get(ALL_TAGS[n]))
    ensures RowsDistinct(rows + more)
  {
    var all := rows + more;
    forall i, j | 0 <= i < j < |all|
      ensures all[i].tag != all[j].tag || all[i].value != all[j].value
    {
      if j >= |rows| {
        assert all[j] == more[j - |rows|];
        if i >= |rows| {
          assert all[i] == more[i - |rows|];
        }
      }
    }
  }

  lemma AppendValid(rows: seq<ContentRow>, more: seq<ContentRow>, head: RowHead, v: Values, n: nat)
    requires n < |ALL_TAGS|
    requires RowsValid(rows, head, v)
    requires TagRowsOf(more, head, ALL_TAGS[n], v.Get(ALL_TAGS[n]))
    ensures RowsValid(rows + more, head, v)
  {
    var all := rows + more;
    forall i | 0 <= i < |all|
      ensures all[i].value in v.Get(all[i].tag)
      ensures all[i] == RowOf(head, all[i].tag, all[i].value, v.Get(all[i].tag)[all[i].value])
    {
      if i >= |rows| {
        assert all[i] == more[i - |rows|];
      }
    }
  }

  lemma AppendCover(rows: seq<ContentRow>, more: seq<ContentRow>, head: RowHead, v: Values, n: nat)
    requires n < |ALL_TAGS|
    requires RowsCover(rows, v, n)
    requires TagRowsOf(more, head, ALL_TAGS[n], v.Get(ALL_TAGS[n]))
    ensures RowsCover(rows + more, v, n + 1)
  {
    var all := rows + more;
    forall t, k | Rank(t) < n + 1 && k in v.Get(t)
      ensures exists i :: 0 <= i < |all| && all[i].tag == t && all[i].value == k
    {
      if Rank(t) < n {
        var i :| 0 <= i < |rows| && rows[i].tag == t && rows[i].value == k;
        assert all[i] == rows[i];
      } else {
        var i :| 0 <= i < |more| && more[i].value == k;
        assert all[|rows| + i] == more[i];
      }
    }
  }

  // ---------------------------------------------------------------------------
  // write_content_row: one row as a COPY line

  /** The encoders of pg.py that write_content_row zips with the row. */
  datatype Encoder = IntNn | StrNn | BoolNn | DatetimeNn | StrNullable

  /** A value of the row tuple: an int, a str, a bool, a datetime (held as the text
      its isoformat() gives) or None. */
  datatype Field = IntValue(i: int) | StrValue(s: string) | BoolValue(b: bool) | TimeValue(iso: string) | NoneValue

  /** The `types` tuple of write_content_row. */
  const ROW_TYPES: seq<Encoder> :=
    [IntNn, StrNn, BoolNn, BoolNn, BoolNn, BoolNn, BoolNn, BoolNn, BoolNn, BoolNn, DatetimeNn, DatetimeNn,
     StrNullable, StrNullable, StrNullable, StrNn, StrNn, StrNullable]

  /** `fn(v)`: None where the encoder's isinstance assertion fails. */
  function Apply(enc: Encoder, f: Field): Option<string>
  {
    match enc
    case IntNn => if f.IntValue? then Some(Pg.IntNn(f.i)) else None
    case StrNn => if f.StrValue? then Some(Pg.StrNn(f.s)) else None
    case BoolNn => if f.BoolValue? then Some(Pg.BoolNn(f.b)) else None
    case DatetimeNn => if f.TimeValue? then Some(f.iso) else None
    case StrNullable =>
      if f.NoneValue? then Some(Pg.StrNullable(None))
      else if f.StrValue? then Some(Pg.StrNullable(Some(f.s)))
      else None
  }

  /** `fn(v) for fn, v in zip(types, row)`. */
  function ApplyAll(encs: seq<Encoder>, fs: seq<Field>): (r: Option<seq<string>>)
    requires |encs| == |fs|
    ensures r.Some? ==> |r.value| == |fs|
  {
    if encs == [] then Some([])
    else
      var t, ts := Apply(encs[0], fs[0]), ApplyAll(encs[1..], fs[1..]);
      if t.Some? && ts.Some? then Some([t.value] + ts.value) else None
  }

  /** The line write_content_row hands to the COPY buffer, before encoding to UTF-8;
      None where `len(types) == len(row)` or an encoder's assertion fails. */
  function RowText(row: seq<Field>): Option<string>
  {
    if |ROW_TYPES| != |row| then None
    else match ApplyAll(ROW_TYPES, row)
      case Some(fs) => Some(Pg.JoinTabs(fs) + "\n")
      case None => None
  }

  /** How COPY reads one field back under its column's type. */
  function Read(enc: Encoder, t: string): Option<Field>
  {
    match enc
    case IntNn => (match ParseInt(t) case Some(i) => Some(IntValue(i)) case None => None)
    case StrNn => (match Pg.Unescape(t) case Some(s) => Some(StrValue(s)) case None => None)
    case BoolNn => (match Pg.ReadBool(t) case Some(b) => Some(BoolValue(b)) case None => None)
    case DatetimeNn => Some(TimeValue(t))
    case StrNullable =>
      match Pg.ReadNullable(t)
      case Some(None) => Some(NoneValue)
      case Some(Some(s)) => Some(StrValue(s))
      case None => None
  }

  function ReadAll(encs: seq<Encoder>, ts: seq<string>): Option<seq<Field>>
    requires |encs| == |ts|
  {
    if encs == [] then Some([])
    else match (Read(encs[0], ts[0]), ReadAll(encs[1..], ts[1..]))
      case (Some(f), Some(fs)) => Some([f] + fs)
      case _ => None
  }

  /** Every encoder is undone by COPY's reading of its column. */
  lemma ReadApply(enc: Encoder, f: Field)
    requires Apply(enc, f).Some?
    ensures Read(enc, Apply(enc, f).value) == Some(f)
  {
    match enc
    case IntNn => Pg.ReadIntNn(f.i);
    case StrNn => Pg.UnescapeStrNn(f.s);
    case BoolNn => Pg.ReadBoolNn(f.b);
    case DatetimeNn =>
    case StrNullable => Pg.ReadStrNullable(OptionOf(f));
  }

  lemma {:induction false} ReadApplyAll(encs: seq<Encoder>, fs: seq<Field>)
    requires |encs| == |fs| && ApplyAll(encs, fs).Some?
    ensures ReadAll(encs, ApplyAll(encs, fs).value) == Some(fs)
  {
    if encs != [] {
      var ts := ApplyAll(encs, fs).value;
      ReadApply(encs[0], fs[0]);
      ReadApplyAll(encs[1..], fs[1..]);
      assert ts[0] == Apply(encs[0], fs[0]).value && ts[1..] == ApplyAll(encs[1..], fs[1..]).value;
      assert [fs[0]] + fs[1..] == fs;
    }
  }

  lemma DecimalTabFree(n: int)
    ensures Pg.TabFree(Pg.IntNn(n))
  {
    var t := NatText(if n < 0 then -n else n);
    if n < 0 {
      assert forall i :: 1 <= i < |"-" + t| ==> ("-" + t)[i] == t[i - 1];
    }
  }

  lemma StrNnTabFree(s: string)
    ensures Pg.TabFree(Pg.StrNn(s))
  {
    Pg.StrNnWellEscaped(s);
    Pg.WellEscapedNoControls(Pg.StrNn(s));
  }

  /** No encoder output holds a tab, except a datetime whose text has one. */
  lemma ApplyTabFree(enc: Encoder, f: Field)
    requires Apply(enc, f).Some? && (f.TimeValue? ==> Pg.TabFree(f.iso))
    ensures Pg.TabFree(Apply(enc, f).value)
  {
    match enc
    case IntNn => DecimalTabFree(f.i);
    case StrNn => StrNnTabFree(f.s);
    case BoolNn =>
    case DatetimeNn =>
    case StrNullable => if f.StrValue? { StrNnTabFree(f.s); }
  }

  lemma {:induction false} ApplyAllTabFree(encs: seq<Encoder>, fs: seq<Field>)
    requires |encs| == |fs| && ApplyAll(encs, fs).Some?
    requires forall k :: 0 <= k < |fs| && fs[k].TimeValue? ==> Pg.TabFree(fs[k].iso)
    ensures forall k :: 0 <= k < |fs| ==> Pg.TabFree(ApplyAll(encs, fs).value[k])
  {
    if encs != [] {
      var ts := ApplyAll(encs, fs).value;
      ApplyTabFree(encs[0], fs[0]);
      ApplyAllTabFree(encs[1..], fs[1..]);
      assert ts[0] == Apply(encs[0], fs[0]).value && ts[1..] == ApplyAll(encs[1..], fs[1..]).value;
      assert forall k :: 1 <= k < |ts| ==> ts[k] == ts[1..][k - 1];
    }
  }

  /** A well-typed row splits back at its tabs into its fields (so `len(types) ==
      len(row)` holds on the way back too), and COPY reads them as the same values,
      provided no datetime text holds a tab. */
  lemma RowTextReadsBack(row: seq<Field>)
    requires |row| == |ROW_TYPES| && ApplyAll(ROW_TYPES, row).Some?
    requires forall k :: 0 <= k < |row| && row[k].TimeValue? ==> Pg.TabFree(row[k].iso)
    ensures var fs := ApplyAll(ROW_TYPES, row).value;
      && RowText(row) == Some(Pg.JoinTabs(fs) + "\n")
      && Pg.SplitTabs(Pg.JoinTabs(fs)) == fs
      && ReadAll(ROW_TYPES, fs) == Some(row)
  {
    ApplyAllTabFree(ROW_TYPES, row);
    Pg.SplitJoinTabs(ApplyAll(ROW_TYPES, row).value);
    ReadApplyAll(ROW_TYPES, row);
  }

  // ---------------------------------------------------------------------------
  // The row tuple of write_content

  function Nullable(o: Option<string>): Field
  {
    match o
    case None => NoneValue
    case Some(s) => StrValue(s)
  }

  /** `head + tail`, the tuple write_content passes to write_content_row. */
  function RowValues(row: ContentRow): (r: seq<Field>)
    ensures |r| == |ROW_TYPES|
  {
    var h := row.head;
    var d := h.prekey.derived;
    [IntValue(h.prekey.id), StrValue(h.prekey.blockType),
     BoolValue(d.hasDomain), BoolValue(d.hasDomainMask), BoolValue(d.hasUrl), BoolValue(d.hasHttp),
     BoolValue(d.hasHttps), BoolValue(d.hasPath), BoolValue(d.hasIp),
     BoolValue(h.isDeletion), TimeValue(h.updateTimeFrom), TimeValue(h.updateTimeTo),
     Nullable(h.includeTime), Nullable(h.ts), Nullable(row.tagTs),
     StrValue(TagName(row.tag)), StrValue(row.value), Nullable(row.ipInet)]
  }

  /** The content row a tuple of values stands for, if it is one. */
  function FromValues(vs: seq<Field>): Option<ContentRow>
  {
    if |vs| == 18 && vs[0].IntValue? && vs[1].StrValue?
       && vs[2].BoolValue? && vs[3].BoolValue? && vs[4].BoolValue? && vs[5].BoolValue?
       && vs[6].BoolValue? && vs[7].BoolValue? && vs[8].BoolValue? && vs[9].BoolValue?
       && vs[10].TimeValue? && vs[11].TimeValue?
       && (vs[12].NoneValue? || vs[12].StrValue?) && (vs[13].NoneValue? || vs[13].StrValue?)
       && (vs[14].NoneValue? || vs[14].StrValue?)
       && vs[15].StrValue? && TagOf(vs[15].s).Some? && vs[16].StrValue?
       && (vs[17].NoneValue? || vs[17].StrValue?)
    then
      var derived := Derived(vs[2].b, vs[3].b, vs[4].b, vs[5].b, vs[6].b, vs[7].b, vs[8].b);
      var head := RowHead(Prekey(vs[0].i, vs[1].s, derived), vs[9].b, vs[10].iso, vs[11].iso,
                          OptionOf(vs[12]), OptionOf(vs[13]));
      Some(ContentRow(head, OptionOf(vs[14]), TagOf(vs[15].s).value, vs[16].s, OptionOf(vs[17])))
    else None
  }

  function OptionOf(f: Field): Option<string>
  {
    if f.StrValue? then Some(f.s) else None
  }

  /** The value is of the type the encoder asserts. */
  predicate Fits(enc: Encoder, f: Field)
  {
    match enc
    case IntNn => f.IntValue?
    case StrNn => f.StrValue?
    case BoolNn => f.BoolValue?
    case DatetimeNn => f.TimeValue?
    case StrNullable => f.StrValue? || f.NoneValue?
  }

  /** An encoder's assertion holds exactly on values of its type. */
  lemma FitsApply(enc: Encoder, f: Field)
    ensures Apply(enc, f).Some? <==> Fits(enc, f)
  {
  }

  lemma {:induction false} ApplyAllTyped(encs: seq<Encoder>, fs: seq<Field>)
    requires |encs| == |fs| && forall k :: 0 <= k < |fs| ==> Fits(encs[k], fs[k])
    ensures ApplyAll(encs, fs).Some?
  {
    if encs != [] {
      FitsApply(encs[0], fs[0]);
      ApplyAllTyped(encs[1..], fs[1..]);
    }
  }

  /** The tuple of a content row is well typed for `types`. */
  lemma RowValuesTyped(row: ContentRow)
    ensures ApplyAll(ROW_TYPES, RowValues(row)).Some?
  {
    var vs := RowValues(row);
    assert forall k :: 0 <= k < |vs| ==> Fits(ROW_TYPES[k], vs[k]);
    ApplyAllTyped(ROW_TYPES, vs);
  }

  /** The tuple of a content row stands for that row alone. */
  lemma FromRowValues(row: ContentRow)
    ensures FromValues(RowValues(row)) == Some(row)
  {
    var h := row.head;
    RowValuesAt(row);
    TagOfName(row.tag);
    OptionOfNullable(h.includeTime);
    OptionOfNullable(h.ts);
    OptionOfNullable(row.tagTs);
    OptionOfNullable(row.ipInet);
  }

  lemma RowValuesAt(row: ContentRow)
    ensures var vs := RowValues(row); var h := row.head; var d := h.prekey.derived;
      && |vs| == 18 && vs[0] == IntValue(h.prekey.id) && vs[1] == StrValue(h.prekey.blockType)
      && vs[2] == BoolValue(d.hasDomain) && vs[3] == BoolValue(d.hasDomainMask) && vs[4] == BoolValue(d.hasUrl)
      && vs[5] == BoolValue(d.hasHttp) && vs[6] == BoolValue(d.hasHttps) && vs[7] == BoolValue(d.hasPath)
      && vs[8] == BoolValue(d.hasIp) && vs[9] == BoolValue(h.isDeletion)
      && vs[10] == TimeValue(h.updateTimeFrom) && vs[11] == TimeValue(h.updateTimeTo)
      && vs[12] == Nullable(h.includeTime) && vs[13] == Nullable(h.ts) && vs[14] == Nullable(row.tagTs)
      && vs[15] == StrValue(TagName(row.tag)) && vs[16] == StrValue(row.value) && vs[17] == Nullable(row.ipInet)
  {
    RowValuesFirst(row);
    RowValuesMiddle(row);
    RowValuesLast(row);
  }

  lemma RowValuesFirst(row: ContentRow)
    ensures var vs := RowValues(row); var h := row.head; var d := h.prekey.derived;
      && |vs| == 18 && vs[0] == IntValue(h.prekey.id) && vs[1] == StrValue(h.prekey.blockType)
      && vs[2] == BoolValue(d.hasDomain) && vs[3] == BoolValue(d.hasDomainMask) && vs[4] == BoolValue(d.hasUrl)
      && vs[5] == BoolValue(d.hasHttp)
  {
  }

  lemma RowValuesMiddle(row: ContentRow)
    ensures var vs := RowValues(row); var h := row.head; var d := h.prekey.derived;
      && |vs| == 18 && vs[6] == BoolValue(d.hasHttps) && vs[7] == BoolValue(d.hasPath)
      && vs[8] == BoolValue(d.hasIp) && vs[9] == BoolValue(h.isDeletion)
      && vs[10] == TimeValue(h.updateTimeFrom) && vs[11] == TimeValue(h.updateTimeTo)
  {
  }

  lemma RowValuesLast(row: ContentRow)
    ensures var vs := RowValues(row); var h := row.head;
      && |vs| == 18 && vs[12] == Nullable(h.includeTime) && vs[13] == Nullable(h.ts) && vs[14] == Nullable(row.tagTs)
      && vs[15] == StrValue(TagName(row.tag)) && vs[16] == StrValue(row.value) && vs[17] == Nullable(row.ipInet)
  {
  }

  lemma OptionOfNullable(o: Option<string>)
    ensures OptionOf(Nullable(o)) == o
    ensures Nullable(o).NoneValue? || Nullable(o).StrValue?
  {
  }

  /** Only the two update times are datetimes. */
  lemma RowValuesTimes(row: ContentRow)
    ensures forall k :: 0 <= k < |RowValues(row)| && RowValues(row)[k].TimeValue? ==>
      RowValues(row)[k].iso in {row.head.updateTimeFrom, row.head.updateTimeTo}
  {
  }

  /** The UTF-8 bytes of a content row's line: non-empty and ending in a newline, as
      PGCopyFrom.write demands. */
  function RowLine(row: ContentRow): (r: bytes)
    ensures r != [] && r[|r| - 1] == 10
  {
    RowValuesTyped(row);
    var t := RowText(RowValues(row)).value;
    Utf8EndsInNewline(t);
    EncodeUtf8(t)
  }

  /** COPY's reading of a content row's line (before UTF-8): the fields split at
      tabs, read by their column types, and taken as a content row. */
  function ReadRow(text: string): Option<ContentRow>
  {
    var fs := Pg.SplitTabs(text);
    if |fs| != |ROW_TYPES| then None
    else match ReadAll(ROW_TYPES, fs)
      case Some(vs) => FromValues(vs)
      case None => None
  }

  /** Each content row line reads back as that row, provided the two update times'
      text holds no tab. */
  lemma RowReadsBack(row: ContentRow)
    requires Pg.TabFree(row.head.updateTimeFrom) && Pg.TabFree(row.head.updateTimeTo)
    ensures RowText(RowValues(row)).Some?
    ensures var t := RowText(RowValues(row)).value; ReadRow(t[..|t| - 1]) == Some(row)
  {
    var vs := RowValues(row);
    RowValuesTyped(row);
    RowValuesTimes(row);
    FromRowValues(row);
    RowTextReadsBack(vs);
    var t := RowText(vs).value;
    assert t[..|t| - 1] == Pg.JoinTabs(ApplyAll(ROW_TYPES, vs).value);
  }

  // ---------------------------------------------------------------------------
  // DbWriter

  /** The writer of one diff's rows: the update times of its two dumps (as the text
      datetime_nn writes) and the COPY buffers of `content` and `content_zerodiff`. */
  class DbWriter {
    const updateTimeFrom: string
    const updateTimeTo: string
    const content: Pg.PGCopyFrom
    const zerodiff: Pg.PGCopyFrom

    ghost predicate Valid()
      reads this, content, zerodiff
    {
      && content != zerodiff
      && content.Valid() && !content.closed
      && zerodiff.Valid() && !zerodiff.closed
    }

    constructor (updateTimeFrom: string, updateTimeTo: string, wbufsize: nat)
      ensures Valid() && fresh(content) && fresh(zerodiff)
      ensures this.updateTimeFrom == updateTimeFrom && this.updateTimeTo == updateTimeTo
      ensures content.Lines == [] && content.sent == [] && zerodiff.Lines == []
    {
      this.updateTimeFrom := updateTimeFrom;
      this.updateTimeTo := updateTimeTo;
      content := new Pg.PGCopyFrom(wbufsize);
      zerodiff := new Pg.PGCopyFrom(wbufsize);
    }

    /** write_content: one row per value of the record, every one with the same head,
      each written as its line. */
    method WriteContent(c: Record, isDeletion: bool) returns (rows: seq<ContentRow>)
      requires Valid()
      modifies content
      ensures Valid()
      ensures RowsOf(rows, Head(c, isDeletion, updateTimeFrom, updateTimeTo), c.content.values)
      ensures content.Lines == old(content.Lines) + RowLines(rows)
    {
      rows := ContentRows(Head(c, isDeletion, updateTimeFrom, updateTimeTo), c.content.values);
      WriteLines(RowLines(rows));
    }

    /** The content.write calls of write_content_row, in order. */
    method WriteLines(lines: seq<bytes>)
      requires Valid()
      requires forall i :: 0 <= i < |lines| ==> lines[i] != [] && lines[i][|lines[i]| - 1] == 10
      modifies content
      ensures Valid() && content.Lines == old(content.Lines) + lines
    {
      for i := 0 to |lines|
        invariant Valid()
        invariant content.Lines == old(content.Lines) + lines[..i]
      {
        assert lines[..i + 1] == lines[..i] + [lines[i]];
        content.Write(lines[i]);
        AppendAssoc(old(content.Lines), lines[..i], [lines[i]]);
      }
      assert lines[..|lines|] == lines;
    }

    /** add_content. */
    method AddContent(c: Record) returns (rows: seq<ContentRow>)
      requires Valid()
      modifies content
      ensures Valid()
      ensures RowsOf(rows, Head(c, false, updateTimeFrom, updateTimeTo), c.content.values)
      ensures content.Lines == old(content.Lines) + RowLines(rows)
    {
      rows := WriteContent(c, false);
    }

    /** del_content. */
    method DelContent(c: Record) returns (rows: seq<ContentRow>)
      requires Valid()
      modifies content
      ensures Valid()
      ensures RowsOf(rows, Head(c, true, updateTimeFrom, updateTimeTo), c.content.values)
      ensures content.Lines == old(content.Lines) + RowLines(rows)
    {
      rows := WriteContent(c, true);
    }

    /** upd_content: the old version's rows as deletions, then the new version's as
      additions; nothing goes to `content_zerodiff`. */
    method UpdContent(c1: Record, c2: Record) returns (rows1: seq<ContentRow>, rows2: seq<ContentRow>)
      requires Valid()
      modifies content
      ensures Valid()
      ensures RowsOf(rows1, Head(c1, true, updateTimeFrom, updateTimeTo), c1.content.values)
      ensures RowsOf(rows2, Head(c2, false, updateTimeFrom, updateTimeTo), c2.content.values)
      ensures content.Lines == old(content.Lines) + (RowLines(rows1) + RowLines(rows2))
    {
      rows1 := WriteContent(c1, true);
      rows2 := WriteContent(c2, false);
      AppendAssoc(old(content.Lines), RowLines(rows1), RowLines(rows2));
    }

    /** close(): both buffers flushed and closed; every line written went to the
      `content` sink. */
    method Close()
      requires Valid()
      modifies content, zerodiff
      ensures content.closed && zerodiff.closed
      ensures content.Lines == old(content.Lines)
      ensures Concat(content.sent) == Concat(content.Lines)
    {
      content.Close();
      zerodiff.Close();
    }
  }

  /** The lines of a list of rows, as write_content_row encodes them. */
  function RowLines(rows: seq<ContentRow>): (r: seq<bytes>)
    ensures |r| == |rows|
    ensures forall i :: 0 <= i < |r| ==> r[i] != [] && r[i][|r[i]| - 1] == 10
  {
    seq(|rows|, i requires 0 <= i < |rows| => RowLine(rows[i]))
  }

  /** The lines of consecutive write_content calls. */
  function BlockLines(blocks: seq<seq<ContentRow>>): (r: seq<bytes>)
  {
    if blocks == [] then [] else BlockLines(blocks[..|blocks| - 1]) + RowLines(blocks[|blocks| - 1])
  }

  lemma BlockLinesOne(rows: seq<ContentRow>)
    ensures BlockLines([rows]) == RowLines(rows)
  {
    assert [rows][..0] == [];
  }

  lemma BlockLinesTwo(rows1: seq<ContentRow>, rows2: seq<ContentRow>)
    ensures BlockLines([rows1, rows2]) == RowLines(rows1) + RowLines(rows2)
  {
    assert [rows1, rows2][..1] == [rows1];
    BlockLinesOne(rows1);
  }

  lemma {:induction false} BlockLinesAppend(a: seq<seq<ContentRow>>, b: seq<seq<ContentRow>>)
    ensures BlockLines(a + b) == BlockLines(a) + BlockLines(b)
    decreases |b|
  {
    if b == [] {
      assert a + b == a;
    } else {
      var front := b[..|b| - 1];
      assert (a + b)[..|a + b| - 1] == a + front;
      assert (a + b)[|a + b| - 1] == b[|b| - 1];
      BlockLinesAppend(a, front);
      AppendAssoc(BlockLines(a), BlockLines(front), RowLines(b[|b| - 1]));
    }
  }

  // ---------------------------------------------------------------------------
  // fetch_diff_from_xdelta

  /** One element of `diff`: the old and the new version of a record. */
  type Pair = (Option<Record>, Option<Record>)

  /** `assert all(_ is None or _['id'] == content_id for _ in (c1, c2))`. */
  predicate IdsMatch(t: Triple)
  {
    (t.before.None? || t.before.value.Id() == t.id) && (t.after.None? || t.after.value.Id() == t.id)
  }

  /** The diff of a list of triples: each pair after del_commons. */
  function DiffPairs(triples: seq<Triple>): seq<Pair>
  {
    seq(|triples|, i requires 0 <= i < |triples| => DelCommons(triples[i].before, triples[i].after))
  }

  /** The loop of fetch_diff_from_xdelta: None where the assertion on ids fails. */
  method CollectDiff(triples: seq<Triple>) returns (diff: Option<seq<Pair>>)
    ensures diff.Some? <==> forall i :: 0 <= i < |triples| ==> IdsMatch(triples[i])
    ensures diff.Some? ==> diff.value == DiffPairs(triples)
  {
    var out: seq<Pair> := [];
    for i := 0 to |triples|
      invariant forall j :: 0 <= j < i ==> IdsMatch(triples[j])
      invariant |out| == i && forall j :: 0 <= j < i ==> out[j] == DelCommons(triples[j].before, triples[j].after)
    {
      if !IdsMatch(triples[i]) {
        return None;
      }
      var d1, d2 := DelCommonsInPlace(triples[i].before, triples[i].after);
      out := out + [(d1, d2)];
    }
    return Some(out);
  }

  /** What fetch_diff_from_xdelta returns: the diff and the two parsers' error flags. */
  datatype Fetched = Fetched(diff: seq<Pair>, errFrom: PState, errTo: PState)

  /** fetch_diff_from_xdelta over the documents the binary diff gives: it fails only
      where parsing fails, since the merger's triples always pass the assertion on ids. */
  method FetchDiffFromXdelta(fed: seq<Fed>, closing1: seq<Event>, closing2: seq<Event>) returns (r: Result<Fetched, ParseError>)
    ensures r.Ok? <==> Merge(fed, closing1, closing2).Ok?
    ensures r.Err? ==> r.error == Merge(fed, closing1, closing2).error
    ensures r.Ok? ==>
      var m := Merge(fed, closing1, closing2).value;
      && AllWellPaired(m.triples)
      && r.value == Fetched(DiffPairs(m.triples), m.from, m.to)
  {
    var m := MergeRecords(fed, closing1, closing2);
    if m.Err? {
      return Err(m.error);
    }
    MergeFacts(fed, closing1, closing2);
    var diff := CollectDiff(m.value.triples);
    assert diff.Some?;
    return Ok(Fetched(diff.value, m.value.from, m.value.to));
  }

  // ---------------------------------------------------------------------------
  // ingest_diff

  /** One write_content call: the record and is_deletion. */
  datatype Write = Write(rec: Record, isDeletion: bool)

  /** How ingest_diff fails on a pair: add_content(None) raises a TypeError when both
      sides are missing, and the assertion on ids fails when the CONTENT_PREKEY
      differs along with the id. */
  datatype IngestError = NoRecord | IdMismatch(id1: int, id2: int)

  /** The write_content calls ingest_diff makes for one pair: add_content for a new
      record, del_content for a removed one, del_content then add_content when
      blockType or a has_* flag changed, upd_content otherwise. */
  function Classify(c1: Option<Record>, c2: Option<Record>): (r: Result<seq<Write>, IngestError>)
    ensures r.Err? <==> (c1.None? && c2.None?) || (c1.Some? && c2.Some? && c1.value.Id() != c2.value.Id())
    ensures r.Ok? ==>
      r.value == (if c1.Some? then [Write(c1.value, true)] else []) + (if c2.Some? then [Write(c2.value, false)] else [])
  {
    if c1.None? then
      if c2.None? then Err(NoRecord) else Ok([Write(c2.value, false)])
    else if c2.None? then Ok([Write(c1.value, true)])
    else if PrekeyOf(c1.value) != PrekeyOf(c2.value) then
      if c1.value.Id() != c2.value.Id() then Err(IdMismatch(c1.value.Id(), c2.value.Id()))
      else Ok([Write(c1.value, true), Write(c2.value, false)])
    else Ok([Write(c1.value, true), Write(c2.value, false)])
  }

  /** The write_content calls for a whole diff, or the first pair's failure. */
  function Writes(diff: seq<Pair>): Result<seq<Write>, IngestError>
  {
    if diff == [] then Ok([])
    else
      var last := diff[|diff| - 1];
      match Writes(diff[..|diff| - 1])
      case Err(e) => Err(e)
      case Ok(ws) =>
        match Classify(last.0, last.1)
        case Err(e) => Err(e)
        case Ok(more) => Ok(ws + more)
  }

  /** `blocks` are the rows of the write_content calls `ws`, one block per call. */
  ghost predicate WroteRows(ws: seq<Write>, blocks: seq<seq<ContentRow>>, updateTimeFrom: string, updateTimeTo: string)
    decreases |ws|
  {
    && |blocks| == |ws|
    && (ws != [] ==>
         var n := |ws| - 1;
         && WroteRows(ws[..n], blocks[..n], updateTimeFrom, updateTimeTo)
         && RowsOf(blocks[n], Head(ws[n].rec, ws[n].isDeletion, updateTimeFrom, updateTimeTo), ws[n].rec.content.values))
  }

  /** Each block holds the rows of its call. */
  lemma {:induction false} WroteRowsAt(ws: seq<Write>, blocks: seq<seq<ContentRow>>, updateTimeFrom: string, updateTimeTo: string, k: nat)
    requires WroteRows(ws, blocks, updateTimeFrom, updateTimeTo) && k < |ws|
    ensures RowsOf(blocks[k], Head(ws[k].rec, ws[k].isDeletion, updateTimeFrom, updateTimeTo), ws[k].rec.content.values)
    decreases |ws|
  {
    var n := |ws| - 1;
    if k < n {
      WroteRowsAt(ws[..n], blocks[..n], updateTimeFrom, updateTimeTo, k);
    }
  }

  lemma {:induction false} WroteRowsAppend(ws1: seq<Write>, b1: seq<seq<ContentRow>>, ws2: seq<Write>, b2: seq<seq<ContentRow>>,
                                           updateTimeFrom: string, updateTimeTo: string)
    requires WroteRows(ws1, b1, updateTimeFrom, updateTimeTo) && WroteRows(ws2, b2, updateTimeFrom, updateTimeTo)
    ensures WroteRows(ws1 + ws2, b1 + b2, updateTimeFrom, updateTimeTo)
    decreases |ws2|
  {
    if ws2 == [] {
      assert ws1 + ws2 == ws1 && b1 + b2 == b1;
    } else {
      var n := |ws2| - 1;
      WroteRowsAppend(ws1, b1, ws2[..n], b2[..n], updateTimeFrom, updateTimeTo);
      assert (ws1 + ws2)[..|ws1| + n] == ws1 + ws2[..n];
      assert (b1 + b2)[..|ws1| + n] == b1 + b2[..n];
      assert (ws1 + ws2)[|ws1| + n] == ws2[n] && (b1 + b2)[|ws1| + n] == b2[n];
    }
  }

  lemma WroteOne(w: Write, rows: seq<ContentRow>, updateTimeFrom: string, updateTimeTo: string)
    requires RowsOf(rows, Head(w.rec, w.isDeletion, updateTimeFrom, updateTimeTo), w.rec.content.values)
    ensures WroteRows([w], [rows], updateTimeFrom, updateTimeTo)
  {
    assert [w][..0] == [] && [rows][..0] == [];
  }

  lemma WroteTwo(w1: Write, rows1: seq<ContentRow>, w2: Write, rows2: seq<ContentRow>, updateTimeFrom: string, updateTimeTo: string)
    requires RowsOf(rows1, Head(w1.rec, w1.isDeletion, updateTimeFrom, updateTimeTo), w1.rec.content.values)
    requires RowsOf(rows2, Head(w2.rec, w2.isDeletion, updateTimeFrom, updateTimeTo), w2.rec.content.values)
    ensures WroteRows([w1, w2], [rows1, rows2], updateTimeFrom, updateTimeTo)
  {
    WroteOne(w1, rows1, updateTimeFrom, updateTimeTo);
    WroteOne(w2, rows2, updateTimeFrom, updateTimeTo);
    WroteRowsAppend([w1], [rows1], [w2], [rows2], updateTimeFrom, updateTimeTo);
    assert [w1] + [w2] == [w1, w2] && [rows1] + [rows2] == [rows1, rows2];
  }

  /** The single-record branches of ingest_diff: add_content or del_content. */
  method WriteOne(w: DbWriter, c: Record, isDeletion: bool) returns (ghost blocks: seq<seq<ContentRow>>)
    requires w.Valid()
    modifies w.content
    ensures w.Valid()
    ensures WroteRows([Write(c, isDeletion)], blocks, w.updateTimeFrom, w.updateTimeTo)
    ensures w.content.Lines == old(w.content.Lines) + BlockLines(blocks)
  {
    var rows;
    if isDeletion {
      rows := w.DelContent(c);
    } else {
      rows := w.AddContent(c);
    }
    WroteOne(Write(c, isDeletion), rows, w.updateTimeFrom, w.updateTimeTo);
    BlockLinesOne(rows);
    blocks := [rows];
  }

  /** The two-record branches of ingest_diff: del_content then add_content when the
      CONTENT_PREKEY changed, upd_content when it did not. */
  method WriteTwo(w: DbWriter, c1: Record, c2: Record) returns (ghost blocks: seq<seq<ContentRow>>)
    requires w.Valid()
    modifies w.content
    ensures w.Valid()
    ensures WroteRows([Write(c1, true), Write(c2, false)], blocks, w.updateTimeFrom, w.updateTimeTo)
    ensures w.content.Lines == old(w.content.Lines) + BlockLines(blocks)
  {
    var rows1, rows2;
    if PrekeyOf(c1) != PrekeyOf(c2) {
      rows1 := w.DelContent(c1);
      rows2 := w.AddContent(c2);
      AppendAssoc(old(w.content.Lines), RowLines(rows1), RowLines(rows2));
    } else {
      rows1, rows2 := w.UpdContent(c1, c2);
    }
    WroteTwo(Write(c1, true), rows1, Write(c2, false), rows2, w.updateTimeFrom, w.updateTimeTo);
    BlockLinesTwo(rows1, rows2);
    blocks := [rows1, rows2];
  }

  /** The body of ingest_diff's loop for one pair (upd_meta does nothing). */
  method IngestPair(w: DbWriter, c1: Option<Record>, c2: Option<Record>)
    returns (r: Result<(), IngestError>, ghost blocks: seq<seq<ContentRow>>)
    requires w.Valid()
    modifies w.content
    ensures w.Valid()
    ensures r.Ok? <==> Classify(c1, c2).Ok?
    ensures r.Err? ==> r.error == Classify(c1, c2).error && w.content.Lines == old(w.content.Lines)
    ensures r.Ok? ==>
      && WroteRows(Classify(c1, c2).value, blocks, w.updateTimeFrom, w.updateTimeTo)
      && w.content.Lines == old(w.content.Lines) + BlockLines(blocks)
  {
    if c1.None? {
      if c2.None? {
        return Err(NoRecord), [];
      }
      blocks := WriteOne(w, c2.value, false);
    } else if c2.None? {
      blocks := WriteOne(w, c1.value, true);
    } else {
      if PrekeyOf(c1.value) != PrekeyOf(c2.value) && c1.value.Id() != c2.value.Id() {
        return Err(IdMismatch(c1.value.Id(), c2.value.Id())), [];
      }
      blocks := WriteTwo(w, c1.value, c2.value);
    }
    r := Ok(());
  }

  lemma WritesSnoc(diff: seq<Pair>, i: nat)
    requires i < |diff|
    ensures diff[..i + 1][..i] == diff[..i] && diff[..i + 1][i] == diff[i]
  {
  }

  /** One more pair extends the writes by its classification, or fails with it. */
  lemma WritesStep(diff: seq<Pair>, i: nat)
    requires i < |diff| && Writes(diff[..i]).Ok?
    ensures var cl := Classify(diff[i].0, diff[i].1);
      && (cl.Ok? ==> Writes(diff[..i + 1]) == Ok(Writes(diff[..i]).value + cl.value))
      && (cl.Err? ==> Writes(diff[..i + 1]) == Err(cl.error))
  {
    WritesSnoc(diff, i);
  }

  /** Once a prefix of the diff fails, the whole diff fails the same way. */
  lemma {:induction false} WritesPrefixErr(diff: seq<Pair>, j: nat)
    requires j <= |diff| && Writes(diff[..j]).Err?
    ensures Writes(diff) == Writes(diff[..j])
    decreases |diff| - j
  {
    if j == |diff| {
      assert diff[..j] == diff;
    } else {
      var init := diff[..|diff| - 1];
      assert init[..j] == diff[..j];
      WritesPrefixErr(init, j);
    }
  }

  /** ingest_diff's loop over the diff. */
  method IngestPairs(w: DbWriter, diff: seq<Pair>) returns (r: Result<(), IngestError>, ghost blocks: seq<seq<ContentRow>>)
    requires w.Valid()
    modifies w.content
    ensures w.Valid()
    ensures r.Ok? <==> Writes(diff).Ok?
    ensures r.Err? ==> r.error == Writes(diff).error
    ensures r.Ok? ==>
      && WroteRows(Writes(diff).value, blocks, w.updateTimeFrom, w.updateTimeTo)
      && w.content.Lines == old(w.content.Lines) + BlockLines(blocks)
  {
    blocks := [];
    for i := 0 to |diff|
      invariant w.Valid()
      invariant Writes(diff[..i]).Ok?
      invariant WroteRows(Writes(diff[..i]).value, blocks, w.updateTimeFrom, w.updateTimeTo)
      invariant w.content.Lines == old(w.content.Lines) + BlockLines(blocks)
    {
      WritesStep(diff, i);
      var res, more := IngestPair(w, diff[i].0, diff[i].1);
      if res.Err? {
        WritesPrefixErr(diff, i + 1);
        return Err(res.error), blocks;
      }
      WroteRowsAppend(Writes(diff[..i]).value, blocks, Classify(diff[i].0, diff[i].1).value, more,
                      w.updateTimeFrom, w.updateTimeTo);
      BlockLinesAppend(blocks, more);
      AppendAssoc(old(w.content.Lines), BlockLines(blocks), BlockLines(more));
      blocks := blocks + more;
    }
    assert diff[..|diff|] == diff;
    r := Ok(());
  }

  /** del_commons keeps both sides present or absent, and their ids. */
  lemma DelCommonsKeepsIds(c1: Option<Record>, c2: Option<Record>)
    ensures var (d1, d2) := DelCommons(c1, c2);
      && d1.Some? == c1.Some? && d2.Some? == c2.Some?
      && (d1.Some? ==> d1.value.Id() == c1.value.Id())
      && (d2.Some? ==> d2.value.Id() == c2.value.Id())
  {
    DelCommonsExact(c1, c2);
  }

  /** Every pair of a merged diff has a record, and its two records share the id. */
  lemma PairsClassify(triples: seq<Triple>)
    requires AllWellPaired(triples)
    ensures forall i :: 0 <= i < |triples| ==> Classify(DiffPairs(triples)[i].0, DiffPairs(triples)[i].1).Ok?
  {
    forall i | 0 <= i < |triples|
      ensures Classify(DiffPairs(triples)[i].0, DiffPairs(triples)[i].1).Ok?
    {
      assert WellPaired(triples[i]);
      DelCommonsKeepsIds(triples[i].before, triples[i].after);
    }
  }

  /** A diff each of whose pairs classifies has its writes. */
  lemma {:induction false} WritesOk(diff: seq<Pair>)
    requires forall i :: 0 <= i < |diff| ==> Classify(diff[i].0, diff[i].1).Ok?
    ensures Writes(diff).Ok?
  {
    if diff != [] {
      WritesOk(diff[..|diff| - 1]);
    }
  }

  /** The row of ingested_diff that follows a diff: no exception, and the error
      flags each parser collected. */
  datatype IngestedDiff = IngestedDiff(
    updateTimeFrom: string, updateTimeTo: string, hasExc: bool,
    unknownAttrsFrom: bool, unknownAttrsTo: bool, unknownTagsFrom: bool, unknownTagsTo: bool,
    duplicateCdataTagFrom: bool, duplicateCdataTagTo: bool)

  function IngestedRow(updateTimeFrom: string, updateTimeTo: string, errFrom: PState, errTo: PState): IngestedDiff
  {
    IngestedDiff(updateTimeFrom, updateTimeTo, false, errFrom.unknownAttrs, errTo.unknownAttrs,
                 errFrom.unknownTags, errTo.unknownTags, errFrom.duplicateCdataTag, errTo.duplicateCdataTag)
  }

  /** What ingest_diff hands to the database: the chunks sent to COPY `content`, and
      the ingested_diff row. */
  datatype Ingested = Ingested(sent: seq<bytes>, row: IngestedDiff)

  /** ingest_diff, given the update times of the two dumps (as datetime_nn writes
      them) and the documents the binary diff gives. It fails exactly where parsing
      fails; otherwise the rows sent to `content` are those of the diff's writes,
      and the ingested_diff row carries the two parsers' flags. */
  method IngestDiff(fed: seq<Fed>, closing1: seq<Event>, closing2: seq<Event>,
                    updateTimeFrom: string, updateTimeTo: string, wbufsize: nat)
    returns (r: Result<Ingested, ParseError>, ghost blocks: seq<seq<ContentRow>>)
    ensures r.Ok? <==> Merge(fed, closing1, closing2).Ok?
    ensures r.Err? ==> r.error == Merge(fed, closing1, closing2).error
    ensures r.Ok? ==>
      var m := Merge(fed, closing1, closing2).value;
      var ws := Writes(DiffPairs(m.triples));
      && ws.Ok?
      && WroteRows(ws.value, blocks, updateTimeFrom, updateTimeTo)
      && Concat(r.value.sent) == Concat(BlockLines(blocks))
      && r.value.row == IngestedRow(updateTimeFrom, updateTimeTo, m.from, m.to)
  {
    var f := FetchDiffFromXdelta(fed, closing1, closing2);
    if f.Err? {
      return Err(f.error), [];
    }
    ghost var m := Merge(fed, closing1, closing2).value;
    PairsClassify(m.triples);
    WritesOk(f.value.diff);
    var w := new DbWriter(updateTimeFrom, updateTimeTo, wbufsize);
    var res;
    res, blocks := IngestPairs(w, f.value.diff);
    assert res.Ok?;
    AppendEmpty(BlockLines(blocks));
    w.Close();
    r := Ok(Ingested(w.content.sent, IngestedRow(updateTimeFrom, updateTimeTo, f.value.errFrom, f.value.errTo)));
  }
}
