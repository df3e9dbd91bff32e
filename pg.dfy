/** Field encoders for PostgreSQL's COPY text format and the size-bounded COPY
    write buffer (rkndex/pg.py). */
module Pg {
  import opened Wrappers
  import opened Bytes
  import opened Text

  const RKN_EPOCH: int := 1343462400

  // ---------------------------------------------------------------------------
  // str_nn

  /** str.replace(from, rep) for a one-character pattern. */
  function ReplaceChar(s: string, from: char, rep: string): string
  {
    if s == [] then [] else (if s[0] == from then rep else [s[0]]) + ReplaceChar(s[1..], from, rep)
  }

  lemma {:induction false} ReplaceCharAppend(a: string, b: string, from: char, rep: string)
    ensures ReplaceChar(a + b, from, rep) == ReplaceChar(a, from, rep) + ReplaceChar(b, from, rep)
  {
    if a == [] {
      assert a + b == b;
    } else {
      assert (a + b)[1..] == a[1..] + b;
      ReplaceCharAppend(a[1..], b, from, rep);
    }
  }

  /** str_nn: backslash is doubled first, then newline, carriage return and tab
      become backslash sequences. */
  function StrNn(s: string): string
  {
    ReplaceChar(ReplaceChar(ReplaceChar(ReplaceChar(s, '\\', "\\\\"), '\n', "\\n"), '\r', "\\r"), '\t', "\\t")
  }

  /** COPY's escaping of one character. */
  function EscapeChar(c: char): string
  {
    if c == '\\' then "\\\\"
    else if c == '\n' then "\\n"
    else if c == '\r' then "\\r"
    else if c == '\t' then "\\t"
    else [c]
  }

  /** COPY's escaping, character by character. */
  function Escape(s: string): string
  {
    if s == [] then [] else EscapeChar(s[0]) + Escape(s[1..])
  }

  lemma ReplaceCharSingle(c: char, from: char, rep: string)
    ensures ReplaceChar([c], from, rep) == if c == from then rep else [c]
  {
    assert [c][1..] == [];
  }

  lemma ReplaceCharPair(c: char, d: char, from: char, rep: string)
    ensures ReplaceChar([c, d], from, rep) == (if c == from then rep else [c]) + (if d == from then rep else [d])
  {
    assert [c, d][1..] == [d];
    ReplaceCharSingle(d, from, rep);
  }

  lemma StrNnChar(c: char)
    ensures StrNn([c]) == EscapeChar(c)
  {
    ReplaceCharSingle(c, '\\', "\\\\");
    if c == '\\' {
      ReplaceCharPair('\\', '\\', '\n', "\\n");
      ReplaceCharPair('\\', '\\', '\r', "\\r");
      ReplaceCharPair('\\', '\\', '\t', "\\t");
    } else {
      ReplaceCharSingle(c, '\n', "\\n");
      if c == '\n' {
        ReplaceCharPair('\\', 'n', '\r', "\\r");
        ReplaceCharPair('\\', 'n', '\t', "\\t");
      } else {
        ReplaceCharSingle(c, '\r', "\\r");
        if c == '\r' {
          ReplaceCharPair('\\', 'r', '\t', "\\t");
        } else {
          ReplaceCharSingle(c, '\t', "\\t");
        }
      }
    }
  }

  lemma StrNnAppend(a: string, b: string)
    ensures StrNn(a + b) == StrNn(a) + StrNn(b)
  {
    ReplaceCharAppend(a, b, '\\', "\\\\");
    var a1, b1 := ReplaceChar(a, '\\', "\\\\"), ReplaceChar(b, '\\', "\\\\");
    ReplaceCharAppend(a1, b1, '\n', "\\n");
    var a2, b2 := ReplaceChar(a1, '\n', "\\n"), ReplaceChar(b1, '\n', "\\n");
    ReplaceCharAppend(a2, b2, '\r', "\\r");
    var a3, b3 := ReplaceChar(a2, '\r', "\\r"), ReplaceChar(b2, '\r', "\\r");
    ReplaceCharAppend(a3, b3, '\t', "\\t");
  }

  /** The four chained replaces escape each character independently: no replace
      touches what an earlier one produced. */
  lemma {:induction false} StrNnIsEscape(s: string)
    ensures StrNn(s) == Escape(s)
  {
    if s != [] {
      assert s == [s[0]] + s[1..];
      StrNnAppend([s[0]], s[1..]);
      StrNnChar(s[0]);
      StrNnIsEscape(s[1..]);
    }
  }

  /** COPY's reading of an escaped field: a backslash followed by \, n, r or t stands
      for that character; any other backslash sequence is not produced by str_nn. */
  function Unescape(t: string): Option<string>
  {
    if t == [] then Some([])
    else if t[0] != '\\' then
      match Unescape(t[1..])
      case Some(rest) => Some([t[0]] + rest)
      case None => None
    else if |t| == 1 then None
    else
      var c := t[1];
      var d := if c == '\\' then Some('\\') else if c == 'n' then Some('\n')
               else if c == 'r' then Some('\r') else if c == 't' then Some('\t') else None;
      match (d, Unescape(t[2..]))
      case (Some(x), Some(rest)) => Some([x] + rest)
      case _ => None
  }

  lemma {:induction false} UnescapeEscape(s: string)
    ensures Unescape(Escape(s)) == Some(s)
  {
    if s != [] {
      UnescapeEscape(s[1..]);
      var e := EscapeChar(s[0]);
      var t := Escape(s);
      assert t == e + Escape(s[1..]);
      if |e| == 2 {
        assert t[2..] == Escape(s[1..]);
      } else {
        assert t[1..] == Escape(s[1..]);
      }
      assert [s[0]] + s[1..] == s;
    }
  }

  /** str_nn is injective: un-escaping its output gives the input back. */
  lemma UnescapeStrNn(s: string)
    ensures Unescape(StrNn(s)) == Some(s)
  {
    StrNnIsEscape(s);
    UnescapeEscape(s);
  }

  /** The shape of an escaped field: no raw newline, carriage return or tab, and every
      backslash starts one of the sequences \\ \n \r \t. */
  predicate WellEscaped(t: string)
  {
    if t == [] then true
    else if t[0] == '\n' || t[0] == '\r' || t[0] == '\t' then false
    else if t[0] != '\\' then WellEscaped(t[1..])
    else |t| >= 2 && t[1] in "\\nrt" && WellEscaped(t[2..])
  }

  lemma {:induction false} WellEscapedEscape(s: string)
    ensures WellEscaped(Escape(s))
  {
    if s != [] {
      WellEscapedEscape(s[1..]);
      var t := Escape(s);
      if |EscapeChar(s[0])| == 2 {
        assert t[2..] == Escape(s[1..]);
      } else {
        assert t[1..] == Escape(s[1..]);
      }
    }
  }

  lemma StrNnWellEscaped(s: string)
    ensures WellEscaped(StrNn(s))
  {
    StrNnIsEscape(s);
    WellEscapedEscape(s);
  }

  /** A well-escaped field holds no tab and no line break. */
  lemma {:induction false} WellEscapedNoControls(t: string)
    requires WellEscaped(t)
    ensures forall i :: 0 <= i < |t| ==> t[i] != '\t' && t[i] != '\n' && t[i] != '\r'
  {
    if t != [] {
      if t[0] != '\\' {
        WellEscapedNoControls(t[1..]);
        assert forall i :: 1 <= i < |t| ==> t[i] == t[1..][i - 1];
      } else {
        WellEscapedNoControls(t[2..]);
        assert forall i :: 2 <= i < |t| ==> t[i] == t[2..][i - 2];
      }
    }
  }

  // ---------------------------------------------------------------------------
  // The other encoders

  /** str_nullable: None is COPY's NULL marker \N. */
  function StrNullable(v: Option<string>): string
  {
    match v
    case None => "\\N"
    case Some(s) => StrNn(s)
  }

  /** The NULL marker can never be confused with an escaped string. */
  lemma NullIsNotString(s: string)
    ensures StrNullable(None) != StrNn(s)
  {
    StrNnWellEscaped(s);
    assert !WellEscaped("\\N");
  }

  /** COPY's reading of a nullable text field. */
  function ReadNullable(t: string): Option<Option<string>>
  {
    if t == "\\N" then Some(None)
    else match Unescape(t)
      case Some(s) => Some(Some(s))
      case None => None
  }

  lemma ReadStrNullable(v: Option<string>)
    ensures ReadNullable(StrNullable(v)) == Some(v)
  {
    match v
    case None =>
    case Some(s) =>
      NullIsNotString(s);
      UnescapeStrNn(s);
  }

  /** bool_nn. */
  function BoolNn(b: bool): string
  {
    if b then "TRUE" else "FALSE"
  }

  function ReadBool(t: string): Option<bool>
  {
    if t == "TRUE" then Some(true) else if t == "FALSE" then Some(false) else None
  }

  lemma ReadBoolNn(b: bool)
    ensures ReadBool(BoolNn(b)) == Some(b)
  {
  }

  /** int_nn: str() of an integer. */
  function IntNn(v: int): string
  {
    DecimalText(v)
  }

  lemma ReadIntNn(v: int)
    ensures ParseInt(IntNn(v)) == Some(v)
  {
    ParseDecimalText(v);
  }

  /** rkn_ts_nn: a UNIX time from RKN_EPOCH to 0x7fffffff, as the isoformat() of its
      UTC datetime; anything else fails the assertion. The calendar formatting is
      the parameter `utcIso`. */
  function RknTsNn(utcIso: int -> string, v: int): (r: Option<string>)
    ensures r.Some? <==> RKN_EPOCH <= v <= 0x7fff_ffff
    ensures r.Some? ==> r.value == utcIso(v)
  {
    if RKN_EPOCH <= v <= 0x7fff_ffff then Some(utcIso(v)) else None
  }

  // ---------------------------------------------------------------------------
  // Rows

  /** '\t'.join(fields). */
  function JoinTabs(fields: seq<string>): string
  {
    if fields == [] then [] else if |fields| == 1 then fields[0] else fields[0] + "\t" + JoinTabs(fields[1..])
  }

  /** str.split('\t'): the inverse of JoinTabs on tab-free fields. */
  function SplitTabs(t: string): (r: seq<string>)
    ensures |r| >= 1
  {
    if t == [] then [[]]
    else
      var r := SplitTabs(t[1..]);
      if t[0] == '\t' then [[]] + r else [[t[0]] + r[0]] + r[1..]
  }

  predicate TabFree(s: string)
  {
    forall i :: 0 <= i < |s| ==> s[i] != '\t'
  }

  /** A tab-free field followed by a tab splits off as the first field. */
  lemma {:induction false} SplitTabsField(f: string, rest: string)
    requires TabFree(f)
    ensures SplitTabs(f + "\t" + rest) == [f] + SplitTabs(rest)
  {
    var t := f + "\t" + rest;
    if f == [] {
      assert t[1..] == rest;
    } else {
      assert t[1..] == f[1..] + "\t" + rest;
      SplitTabsField(f[1..], rest);
      assert [f[0]] + f[1..] == f;
    }
  }

  lemma {:induction false} SplitTabsFree(f: string)
    requires TabFree(f)
    ensures SplitTabs(f) == [f]
  {
    if f != [] {
      SplitTabsFree(f[1..]);
      assert [f[0]] + f[1..] == f;
    }
  }

  /** Splitting a joined row at its tabs gives the fields back, provided no field
      holds a tab. */
  lemma {:induction false} SplitJoinTabs(fields: seq<string>)
    requires |fields| >= 1 && forall k :: 0 <= k < |fields| ==> TabFree(fields[k])
    ensures SplitTabs(JoinTabs(fields)) == fields
  {
    if |fields| == 1 {
      SplitTabsFree(fields[0]);
    } else {
      SplitJoinTabs(fields[1..]);
      SplitTabsField(fields[0], JoinTabs(fields[1..]));
      assert [fields[0]] + fields[1..] == fields;
    }
  }

  // ---------------------------------------------------------------------------
  // PGCopyFrom

  /** A COPY FROM write buffer for one table. Every flush hands the whole buffer to
      the COPY sink, recorded here as the list `sent`. */
  class PGCopyFrom {
    const wbufsize: nat
    var buf: bytes
    var sent: seq<bytes>
    var closed: bool
    /** The lines written so far. */
    ghost var Lines: seq<bytes>

    ghost predicate Valid()
      reads this
    {
      && Concat(sent) + buf == Concat(Lines)
      && (|buf| <= wbufsize || (Lines != [] && buf == Lines[|Lines| - 1]))
    }

    constructor (wbufsize: nat)
      ensures Valid() && this.wbufsize == wbufsize
      ensures buf == [] && sent == [] && Lines == [] && !closed
    {
      this.wbufsize := wbufsize;
      buf := [];
      sent := [];
      closed := false;
      Lines := [];
    }

    /** flush(): the whole buffer goes to the sink (even when empty) and the buffer
        is emptied. */
    method Flush()
      requires Valid() && !closed
      modifies this
      ensures Valid() && buf == [] && sent == old(sent) + [old(buf)]
      ensures Lines == old(Lines) && closed == old(closed)
    {
      ConcatSnoc(sent, buf);
      sent := sent + [buf];
      buf := [];
    }

    /** write(line): flushes first iff the buffer is non-empty and the line would
        take it past wbufsize; then appends the line. */
    method Write(line: bytes)
      requires Valid() && !closed
      requires line == [] || line[|line| - 1] == 10
      modifies this
      ensures Valid() && Lines == old(Lines) + [line] && !closed
      ensures buf == (if |old(buf)| > 0 && |old(buf)| + |line| > wbufsize then line else old(buf) + line)
      ensures sent == if |old(buf)| > 0 && |old(buf)| + |line| > wbufsize then old(sent) + [old(buf)] else old(sent)
      ensures |buf| <= if wbufsize < |line| then |line| else wbufsize
    {
      if |buf| > 0 && |buf| + |line| > wbufsize {
        Flush();
      }
      ConcatSnoc(Lines, line);
      Lines := Lines + [line];
      buf := buf + line;
    }

    /** close(): a last flush, after which the buffer is closed. */
    method Close()
      requires Valid() && !closed
      modifies this
      ensures Valid() && closed && buf == [] && Lines == old(Lines)
      ensures sent == old(sent) + [old(buf)]
      ensures Concat(sent) == Concat(Lines)
    {
      Flush();
      closed := true;
    }
  }
}
