/** gitarlog: reading the commit bodies of the dump archive's `git log` into rows
    of the `log` table. Each body is a list of `<a> <b> <c>` lines (a time or a
    digest of dump.xml / dump.xml.sig) closed by a `. . .` line. */
module GitarLog {
  import opened Wrappers
  import opened Bytes
  import opened Text
  import Pg

  /** A column value: NULL, a UNIX time, or a digest. */
  datatype Cell = Null | Int(n: int) | Blob(b: bytes)

  /** The columns of the `log` table, in INSERT order. */
  const ROW_KEYS: seq<string> := [
    "update_time", "update_time_urgently", "signing_time", "xml_mtime", "sig_mtime",
    "xml_md5", "sig_md5", "xml_sha1", "sig_sha1", "xml_git", "sig_git",
    "xml_sha256", "sig_sha256", "xml_sha512", "sig_sha512"]

  /** The row dict, held as one cell per column of ROW_KEYS: the dict always has
      exactly those fifteen keys. */
  type Row = seq<Cell>

  predicate WellKeyed(row: Row)
  {
    |row| == |ROW_KEYS|
  }

  /** dict.fromkeys(row_keys): every column NULL. */
  const EMPTY_ROW: Row := [Null, Null, Null, Null, Null, Null, Null, Null, Null, Null, Null, Null, Null, Null, Null]

  /** times_map: the third word of a time line names its column. */
  function TimeColumn(c: string): (r: Option<nat>)
    ensures r.Some? ==> r.value < 5
  {
    if c == "updateTime" then Some(0)
    else if c == "updateTimeUrgently" then Some(1)
    else if c == "signingTime" then Some(2)
    else if c == "dump.xml mtime" then Some(3)
    else if c == "dump.xml.sig mtime" then Some(4)
    else None
  }

  /** fname_map. */
  function FileName(c: string): Option<string>
  {
    if c == "dump.xml" then Some("xml") else if c == "dump.xml.sig" then Some("sig") else None
  }

  /** a.lower() for the five digest names, None for anything else. */
  function DigestName(a: string): Option<string>
  {
    if a == "MD5" then Some("md5") else if a == "SHA1" then Some("sha1")
    else if a == "GIT" then Some("git") else if a == "SHA256" then Some("sha256")
    else if a == "SHA512" then Some("sha512") else None
  }

  /** The column `<fname_map[c]>_<a.lower()>` of a digest line. */
  function DigestColumn(a: string, c: string): (r: Option<nat>)
    requires DigestName(a).Some?
    ensures r.Some? <==> FileName(c).Some?
    ensures r.Some? ==> 5 <= r.value < |ROW_KEYS| && ROW_KEYS[r.value] == FileName(c).value + "_" + DigestName(a).value
  {
    var file := FileName(c);
    var algo := DigestName(a).value;
    if file.None? then None
    else
      var k := (if algo == "md5" then 5 else if algo == "sha1" then 7 else if algo == "git" then 9
                else if algo == "sha256" then 11 else 13) + (if file.value == "xml" then 0 else 1);
      Some(k)
  }

  /** `line.decode('ascii').strip().split(None, 2)` when it gives three parts. */
  function Words(line: bytes): Option<(string, string, string)>
  {
    match DecodeAscii(line)
    case None => None
    case Some(text) =>
      var t := Strip(text);
      assert t == [] || t[0] == LStrip(text)[0];
      SplitThree(t)
  }

  /** What one line of the log does. */
  datatype Action = Skip | SetCell(column: nat, cell: Cell) | Separator

  /** The classification of a line by its three words; None for a bad line. */
  function ClassifyWords(a: string, b: string, c: string): (r: Option<Action>)
    ensures r.Some? ==> !r.value.Skip?
    ensures r.Some? && r.value.SetCell? ==> r.value.column < |ROW_KEYS|
    ensures r.Some? && r.value.SetCell? && r.value.cell.Int? ==> r.value.cell.n != Pg.RKN_EPOCH
    ensures TimeColumn(c).Some? && ParseInt(b).None? ==> r.None?
    ensures TimeColumn(c).Some? && ParseInt(b) == Some(Pg.RKN_EPOCH) ==> r == Some(SetCell(TimeColumn(c).value, Null))
    ensures TimeColumn(c).Some? && ParseInt(b).Some? && ParseInt(b).value != Pg.RKN_EPOCH ==>
      r == Some(SetCell(TimeColumn(c).value, Int(ParseInt(b).value)))
    ensures TimeColumn(c).None? && DigestName(a).Some? && (FileName(c).None? || Unhexlify(b).None?) ==> r.None?
    ensures r.Some? && r.value.SetCell? && r.value.cell.Blob? ==>
      && TimeColumn(c).None? && DigestName(a).Some? && FileName(c).Some?
      && Unhexlify(b) == Some(r.value.cell.b) && r.value.column == DigestColumn(a, c).value
    ensures r == Some(Separator) ==> a == "." && b == "." && c == "."
    ensures r.Some? ==> TimeColumn(c).Some? || DigestName(a).Some? || (a == "." && b == "." && c == ".")
  {
    if TimeColumn(c).Some? then
      match ParseInt(b)
      case None => None
      case Some(v) => Some(SetCell(TimeColumn(c).value, if v == Pg.RKN_EPOCH then Null else Int(v)))
    else if DigestName(a).Some? then
      var v := Unhexlify(b);
      var col := DigestColumn(a, c);
      if v.Some? && col.Some? then Some(SetCell(col.value, Blob(v.value))) else None
    else if a == "." && b == "." && c == "." then Some(Separator)
    else None
  }

  /** The lines that raise 'Bad line in git log' once split into three words: a time
      that is not an integer, a digest of an unknown file or with bad hex, and any
      line that is neither a time, a digest nor the `. . .` separator. */
  lemma ClassifyWordsRejects(a: string, b: string, c: string)
    ensures ClassifyWords(a, b, c).None? <==>
      || (TimeColumn(c).Some? && ParseInt(b).None?)
      || (TimeColumn(c).None? && DigestName(a).Some? && (FileName(c).None? || Unhexlify(b).None?))
      || (TimeColumn(c).None? && DigestName(a).None? && !(a == "." && b == "." && c == "."))
  {
  }

  /** The classification of one line; None for a bad line. */
  function Classify(line: bytes): (r: Option<Action>)
    ensures r == Some(Skip) <==> line == [10]
    ensures r.Some? && r.value.SetCell? ==> r.value.column < |ROW_KEYS|
    ensures line != [10] && Words(line).None? ==> r.None?
    ensures line != [10] && Words(line).Some? ==>
      r == ClassifyWords(Words(line).value.0, Words(line).value.1, Words(line).value.2)
  {
    if line == [10] then Some(Skip)
    else match Words(line)
      case None => None
      case Some((a, b, c)) => ClassifyWords(a, b, c)
  }

  datatype LogError = BadLine(line: bytes, row: Row) | GitFailed(code: int)

  /** The rows inserted so far, the row being accumulated, and the error that
      stopped the loop, if any. */
  datatype Ingest = Ingest(rows: seq<Row>, row: Row, err: Option<LogError>)

  /** The effect of one well-formed line on the row: the new row and the rows
      inserted. A separator inserts the row unless it is all NULL, then resets it. */
  function Apply(row: Row, act: Action): (r: (Row, seq<Row>))
    requires WellKeyed(row) && (act.SetCell? ==> act.column < |ROW_KEYS|)
    ensures WellKeyed(r.0)
    ensures forall t :: t in r.1 ==> WellKeyed(t) && t != EMPTY_ROW
    ensures act.Separator? ==> r.0 == EMPTY_ROW
  {
    match act
    case Skip => (row, [])
    case SetCell(col, v) => (row[col := v], [])
    case Separator => if row != EMPTY_ROW then (EMPTY_ROW, [row]) else (row, [])
  }

  /** The loop of insert_up_to over the lines still to read. */
  function Feed(row: Row, lines: seq<bytes>): (r: Ingest)
    requires WellKeyed(row)
    ensures WellKeyed(r.row)
    decreases |lines|, 1
  {
    if lines == [] then Ingest([], row, None) else FeedLine(row, lines[0], lines[1..])
  }

  /** One turn of the loop on `line`, then the loop over `rest`; a bad line stops
      it with the row as it stood. */
  function FeedLine(row: Row, line: bytes, rest: seq<bytes>): (r: Ingest)
    requires WellKeyed(row)
    ensures WellKeyed(r.row)
    decreases |rest| + 1, 0
  {
    match Classify(line)
    case None => Ingest([], row, Some(BadLine(line, row)))
    case Some(act) =>
      var (row', out) := Apply(row, act);
      var more := Feed(row', rest);
      Ingest(out + more.rows, more.row, more.err)
  }

  /** Every inserted row has the fifteen columns and at least one of them set. */
  lemma {:induction false} FeedRowsNotEmpty(row: Row, lines: seq<bytes>)
    requires WellKeyed(row)
    ensures forall t :: t in Feed(row, lines).rows ==> WellKeyed(t) && t != EMPTY_ROW
    decreases |lines|
  {
    if lines != [] {
      assert Feed(row, lines) == FeedLine(row, lines[0], lines[1..]);
      if Classify(lines[0]).Some? {
        FeedRowsNotEmpty(Apply(row, Classify(lines[0]).value).0, lines[1..]);
      }
    }
  }

  /** Rows already inserted in front of a run of the loop. */
  function After(inserted: seq<Row>, f: Ingest): Ingest
  {
    Ingest(inserted + f.rows, f.row, f.err)
  }

  /** One line of the loop, unfolded. */
  lemma FeedStep(inserted: seq<Row>, row: Row, lines: seq<bytes>, i: nat)
    requires WellKeyed(row) && i < |lines|
    ensures Classify(lines[i]).None? ==>
      After(inserted, Feed(row, lines[i..])) == Ingest(inserted, row, Some(BadLine(lines[i], row)))
    ensures Classify(lines[i]).Some? ==>
      var (row', out) := Apply(row, Classify(lines[i]).value);
      After(inserted, Feed(row, lines[i..])) == After(inserted + out, Feed(row', lines[i + 1..]))
  {
    assert lines[i..][0] == lines[i] && lines[i..][1..] == lines[i + 1..];
    if Classify(lines[i]).Some? {
      var (row', out) := Apply(row, Classify(lines[i]).value);
      var rest := Feed(row', lines[i + 1..]);
      assert inserted + (out + rest.rows) == (inserted + out) + rest.rows;
    } else {
      assert inserted + [] == inserted;
    }
  }

  /** insert_up_to after `git log` exited with `exitCode`: the rows inserted and
      the error raised, if any. A bad line stops the loop before the exit code is
      looked at. */
  function Ingested(lines: seq<bytes>, exitCode: int): (r: (seq<Row>, Option<LogError>))
  {
    var f := Feed(EMPTY_ROW, lines);
    if f.err.Some? then (f.rows, f.err)
    else if exitCode != 0 then (f.rows, Some(GitFailed(exitCode)))
    else (f.rows, None)
  }

  /** The body of the loop for a well-formed line: the row updated in place, and
      inserted (then reset) at a separator unless it is all NULL. */
  method ApplyLine(row: Row, inserted: seq<Row>, act: Action) returns (row': Row, inserted': seq<Row>)
    requires WellKeyed(row) && (act.SetCell? ==> act.column < |ROW_KEYS|)
    ensures row' == Apply(row, act).0 && inserted' == inserted + Apply(row, act).1
  {
    row', inserted' := row, inserted;
    match act {
      case Skip =>
        assert inserted + [] == inserted;
      case SetCell(col, v) =>
        row' := row[col := v];
        assert inserted + [] == inserted;
      case Separator =>
        if row != EMPTY_ROW {
          inserted' := inserted + [row];
          row' := EMPTY_ROW;
        } else {
          assert inserted + [] == inserted;
        }
    }
  }

  /** The line loop of insert_up_to: `row` is updated in place and reset after
      every insert. */
  method InsertUpTo(lines: seq<bytes>, exitCode: int) returns (inserted: seq<Row>, err: Option<LogError>)
    ensures inserted == Ingested(lines, exitCode).0 && err == Ingested(lines, exitCode).1
  {
    var row := EMPTY_ROW;
    inserted := [];
    var i := 0;
    assert lines[0..] == lines && [] + Feed(EMPTY_ROW, lines).rows == Feed(EMPTY_ROW, lines).rows;
    while i < |lines|
      invariant 0 <= i <= |lines| && WellKeyed(row)
      invariant Feed(EMPTY_ROW, lines) == After(inserted, Feed(row, lines[i..]))
    {
      FeedStep(inserted, row, lines, i);
      var action := Classify(lines[i]);
      if action.None? {
        return inserted, Some(BadLine(lines[i], row));
      }
      row, inserted := ApplyLine(row, inserted, action.value);
      i := i + 1;
    }
    assert lines[i..] == [] && inserted + [] == inserted;
    if exitCode != 0 {
      err := Some(GitFailed(exitCode));
    } else {
      err := None;
    }
  }

  /** Once a line is bad, the lines after it are never read. */
  lemma {:induction false} FeedErrorStops(row: Row, lines: seq<bytes>, more: seq<bytes>)
    requires WellKeyed(row) && Feed(row, lines).err.Some?
    ensures Feed(row, lines + more) == Feed(row, lines)
    decreases |lines|
  {
    assert lines != [];
    assert (lines + more)[0] == lines[0] && (lines + more)[1..] == lines[1..] + more;
    if Classify(lines[0]).Some? {
      FeedErrorStops(Apply(row, Classify(lines[0]).value).0, lines[1..], more);
    }
  }

  // ---------------------------------------------------------------------------
  // Writing a row as a commit body, and reading it back

  /** The times_map keys, in column order. */
  const TIME_WORDS: seq<string> := ["updateTime", "updateTimeUrgently", "signingTime", "dump.xml mtime", "dump.xml.sig mtime"]

  /** The fname_map keys, in column order. */
  const FILE_WORDS: seq<string> := ["dump.xml", "dump.xml.sig"]

  /** The digest names, in column order. */
  const DIGEST_WORDS: seq<string> := ["MD5", "SHA1", "GIT", "SHA256", "SHA512"]

  /** The third word of the line for column j: its times_map key or fname_map key. */
  function ThirdWord(j: nat): string
    requires j < |ROW_KEYS|
  {
    if j < 5 then TIME_WORDS[j] else FILE_WORDS[(j - 5) % 2]
  }

  /** The digest name opening the line of digest column j. */
  function DigestWord(j: nat): string
    requires 5 <= j < |ROW_KEYS|
  {
    DIGEST_WORDS[(j - 5) / 2]
  }

  /** Non-empty ASCII that strip() leaves alone. */
  predicate Plain(w: string)
  {
    w != [] && !IsSpace(w[0]) && !IsSpace(w[|w| - 1]) && forall k :: 0 <= k < |w| ==> w[k] as int < 128
  }

  lemma ThirdWordPlain(j: nat)
    requires j < |ROW_KEYS|
    ensures Plain(ThirdWord(j))
  {
    if j < 5 {
      if j == 0 {} else if j == 1 {} else if j == 2 {} else if j == 3 {} else {}
    } else if (j - 5) % 2 == 0 {
      assert ThirdWord(j) == "dump.xml";
    } else {
      assert ThirdWord(j) == "dump.xml.sig";
    }
  }

  lemma DigestWordPlain(j: nat)
    requires 5 <= j < |ROW_KEYS|
    ensures Plain(DigestWord(j)) && forall k :: 0 <= k < |DigestWord(j)| ==> !IsSpace(DigestWord(j)[k])
  {
    var i := (j - 5) / 2;
    if i == 0 {} else if i == 1 {} else if i == 2 {} else if i == 3 {} else {}
  }

  /** A word that can open a time line: non-empty ASCII without whitespace. */
  predicate IsLabel(word: string)
  {
    word != [] && forall k :: 0 <= k < |word| ==> word[k] as int < 128 && !IsSpace(word[k])
  }

  /** A cell the log can express: a time column holds a time other than RKN_EPOCH
      (which reads back as NULL), a digest column a non-empty digest. */
  predicate Writable(j: nat, cell: Cell)
  {
    j < |ROW_KEYS| && (cell.Null? || (if j < 5 then cell.Int? && cell.n != Pg.RKN_EPOCH else cell.Blob? && cell.b != []))
  }

  function AsciiLine(s: string): (b: bytes)
    requires forall k :: 0 <= k < |s| ==> s[k] as int < 128
  {
    EncodeAscii(s + "\n").value
  }

  /** The words of the line stating a non-NULL cell of column j. */
  function ColumnWords(word: string, j: nat, cell: Cell): (r: (string, string, string))
    requires IsLabel(word) && Writable(j, cell) && !cell.Null?
    ensures r.0 != [] && r.1 != [] && Plain(r.2)
    ensures forall k :: 0 <= k < |r.0| ==> r.0[k] as int < 128 && !IsSpace(r.0[k])
    ensures forall k :: 0 <= k < |r.1| ==> r.1[k] as int < 128 && !IsSpace(r.1[k])
  {
    ThirdWordPlain(j);
    if j < 5 then
      DecimalTextShape(cell.n);
      (word, DecimalText(cell.n), ThirdWord(j))
    else
      DigestWordPlain(j);
      (DigestWord(j), Hexlify(cell.b), ThirdWord(j))
  }

  function JoinWords(w: (string, string, string)): string
  {
    w.0 + " " + w.1 + " " + w.2
  }

  lemma JoinAscii(w: (string, string, string))
    requires forall k :: 0 <= k < |w.0| ==> w.0[k] as int < 128
    requires forall k :: 0 <= k < |w.1| ==> w.1[k] as int < 128
    requires forall k :: 0 <= k < |w.2| ==> w.2[k] as int < 128
    ensures forall k :: 0 <= k < |JoinWords(w)| ==> JoinWords(w)[k] as int < 128
  {
    var t := JoinWords(w);
    forall k | 0 <= k < |t|
      ensures t[k] as int < 128
    {
      var n0, n1 := |w.0|, |w.1|;
      if k < n0 {
        assert t[k] == w.0[k];
      } else if k == n0 || k == n0 + n1 + 1 {
        assert t[k] == ' ';
      } else if k <= n0 + n1 {
        assert t[k] == w.1[k - n0 - 1];
      } else {
        assert t[k] == w.2[k - n0 - n1 - 2];
      }
    }
  }

  /** The line stating a non-NULL cell of column j. */
  function ColumnLine(word: string, j: nat, cell: Cell): bytes
    requires IsLabel(word) && Writable(j, cell) && !cell.Null?
  {
    var w := ColumnWords(word, j, cell);
    JoinAscii(w);
    AsciiLine(JoinWords(w))
  }

  lemma DecimalTextShape(n: int)
    ensures var d := DecimalText(n);
      d != [] && forall k :: 0 <= k < |d| ==> d[k] as int < 128 && !IsSpace(d[k])
  {
  }

  lemma WordsOfLine(w: (string, string, string))
    requires w.0 != [] && w.1 != [] && w.2 != [] && !IsSpace(w.2[0]) && !IsSpace(w.2[|w.2| - 1])
    requires forall k :: 0 <= k < |w.0| ==> !IsSpace(w.0[k])
    requires forall k :: 0 <= k < |w.1| ==> !IsSpace(w.1[k])
    requires forall k :: 0 <= k < |JoinWords(w)| ==> JoinWords(w)[k] as int < 128
    ensures Words(AsciiLine(JoinWords(w))) == Some(w)
    ensures AsciiLine(JoinWords(w)) != [10]
  {
    var text := JoinWords(w);
    DecodeEncodeAscii(text + "\n");
    StripLine(text);
    SplitThreeWords(w.0, w.1, w.2);
  }

  lemma TimeColumnWord(j: nat)
    requires j < |ROW_KEYS|
    ensures TimeColumn(ThirdWord(j)) == if j < 5 then Some(j) else None
  {
    if j == 0 {} else if j == 1 {} else if j == 2 {} else if j == 3 {} else if j == 4 {}
    else if (j - 5) % 2 == 0 { assert ThirdWord(j) == "dump.xml"; }
    else { assert ThirdWord(j) == "dump.xml.sig"; }
  }

  lemma DigestColumnWord(j: nat)
    requires 5 <= j < |ROW_KEYS|
    ensures DigestName(DigestWord(j)).Some? && DigestColumn(DigestWord(j), ThirdWord(j)) == Some(j)
  {
    if j == 5 {} else if j == 6 {} else if j == 7 {} else if j == 8 {} else if j == 9 {}
    else if j == 10 {} else if j == 11 {} else if j == 12 {} else if j == 13 {} else {}
  }

  /** The words written for a cell read back as setting that cell. */
  lemma ClassifyColumnWords(word: string, j: nat, cell: Cell)
    requires IsLabel(word) && Writable(j, cell) && !cell.Null?
    ensures var w := ColumnWords(word, j, cell); ClassifyWords(w.0, w.1, w.2) == Some(SetCell(j, cell))
  {
    TimeColumnWord(j);
    if j < 5 {
      ParseDecimalText(cell.n);
    } else {
      UnhexlifyHexlify(cell.b);
      DigestColumnWord(j);
    }
  }

  /** A time line carrying RKN_EPOCH reads back as setting that column to NULL. */
  lemma ClassifyEpochWords(word: string, j: nat)
    requires j < 5
    ensures ClassifyWords(word, DecimalText(Pg.RKN_EPOCH), ThirdWord(j)) == Some(SetCell(j, Null))
  {
    TimeColumnWord(j);
    ParseDecimalText(Pg.RKN_EPOCH);
  }

  /** The line written for a cell reads back as setting that cell. */
  lemma ClassifyColumnLine(word: string, j: nat, cell: Cell)
    requires IsLabel(word) && Writable(j, cell) && !cell.Null?
    ensures Classify(ColumnLine(word, j, cell)) == Some(SetCell(j, cell))
  {
    var w := ColumnWords(word, j, cell);
    JoinAscii(w);
    WordsOfLine(w);
    ClassifyOfWords(ColumnLine(word, j, cell), w);
    ClassifyColumnWords(word, j, cell);
  }

  lemma ClassifyOfWords(line: bytes, w: (string, string, string))
    requires line != [10] && Words(line) == Some(w)
    ensures Classify(line) == ClassifyWords(w.0, w.1, w.2)
  {
  }

  /** The `. . .` line closing a commit body. */
  const SEPARATOR_LINE: bytes := [46, 32, 46, 32, 46, 10]

  lemma SeparatorText()
    ensures DecodeAscii(SEPARATOR_LINE) == Some(". . .\n") && Strip(". . .\n") == ". . ."
  {
    DecodeAsciiOf(SEPARATOR_LINE, ". . .\n");
    StripLine(". . .");
  }

  lemma SeparatorWords()
    ensures SplitThree(". . .") == Some((".", ".", "."))
  {
    SplitThreeWords(".", ".", ".");
    assert "." + " " + "." + " " + "." == ". . .";
  }

  lemma SeparatorLineWords()
    ensures Words(SEPARATOR_LINE) == Some((".", ".", "."))
  {
    SeparatorText();
    SeparatorWords();
  }

  lemma ClassifyDots()
    ensures ClassifyWords(".", ".", ".") == Some(Separator)
  {
    assert TimeColumn(".") == None;
    assert DigestName(".") == None;
  }

  /** The separator line reads as a separator. */
  lemma ClassifySeparator()
    ensures Classify(SEPARATOR_LINE) == Some(Separator)
  {
    SeparatorLineWords();
    ClassifyDots();
  }

  /** The lines for columns j.. of a row: one per non-NULL cell, in column order. */
  function LinesFrom(word: string, row: Row, j: nat): seq<bytes>
    requires IsLabel(word) && WellKeyed(row) && j <= |row|
    requires forall k :: 0 <= k < |row| ==> Writable(k, row[k])
    decreases |row| - j
  {
    if j == |row| then []
    else if row[j].Null? then LinesFrom(word, row, j + 1)
    else [ColumnLine(word, j, row[j])] + LinesFrom(word, row, j + 1)
  }

  /** The commit body that states a row: its cells, then the separator. */
  function CommitBody(word: string, row: Row): seq<bytes>
    requires IsLabel(word) && WellKeyed(row)
    requires forall k :: 0 <= k < |row| ==> Writable(k, row[k])
  {
    LinesFrom(word, row, 0) + [SEPARATOR_LINE]
  }

  /** The row as far as columns before j have been read. */
  function Partial(row: Row, j: nat): (r: Row)
    requires WellKeyed(row)
    ensures WellKeyed(r)
  {
    seq(|row|, k requires 0 <= k < |row| => if k < j then row[k] else Null)
  }

  lemma EmptyRowNulls()
    ensures forall k :: 0 <= k < |EMPTY_ROW| ==> EMPTY_ROW[k] == Null
  {
  }

  lemma PartialStep(row: Row, j: nat)
    requires WellKeyed(row) && j < |row|
    ensures Partial(row, j)[j := row[j]] == Partial(row, j + 1)
    ensures row[j].Null? ==> Partial(row, j) == Partial(row, j + 1)
  {
  }

  /** The line of a non-NULL cell sets that cell and the loop goes on. */
  lemma FeedColumnLine(word: string, row: Row, j: nat, rest: seq<bytes>)
    requires IsLabel(word) && WellKeyed(row) && j < |row|
    requires Writable(j, row[j]) && !row[j].Null?
    ensures Feed(Partial(row, j), [ColumnLine(word, j, row[j])] + rest) == Feed(Partial(row, j + 1), rest)
  {
    var line := ColumnLine(word, j, row[j]);
    var lines := [line] + rest;
    assert lines[0] == line && lines[1..] == rest;
    assert Feed(Partial(row, j), lines) == FeedLine(Partial(row, j), line, rest);
    ClassifyColumnLine(word, j, row[j]);
    PartialStep(row, j);
  }

  /** A separator line inserts the row unless it is all NULL, and resets it. */
  lemma FeedSeparatorLine(row: Row, line: bytes)
    requires WellKeyed(row) && Classify(line) == Some(Separator)
    ensures Feed(row, [line]) == Ingest(if row == EMPTY_ROW then [] else [row], EMPTY_ROW, None)
  {
    assert [line][0] == line && [line][1..] == [];
    assert Feed(row, [line]) == FeedLine(row, line, []);
    var out := Apply(row, Separator).1;
    assert Feed(EMPTY_ROW, []) == Ingest([], EMPTY_ROW, None);
    assert out + [] == out;
  }

  lemma LinesFromStep(word: string, row: Row, j: nat, tail: seq<bytes>)
    requires IsLabel(word) && WellKeyed(row) && j < |row|
    requires forall k :: 0 <= k < |row| ==> Writable(k, row[k])
    ensures row[j].Null? ==> LinesFrom(word, row, j) + tail == LinesFrom(word, row, j + 1) + tail
    ensures !row[j].Null? ==>
      LinesFrom(word, row, j) + tail == [ColumnLine(word, j, row[j])] + (LinesFrom(word, row, j + 1) + tail)
  {
    if !row[j].Null? {
      AppendAssoc([ColumnLine(word, j, row[j])], LinesFrom(word, row, j + 1), tail);
    }
  }

  lemma {:induction false} FeedLinesFrom(word: string, row: Row, j: nat)
    requires IsLabel(word) && WellKeyed(row) && j <= |row|
    requires forall k :: 0 <= k < |row| ==> Writable(k, row[k])
    ensures Feed(Partial(row, j), LinesFrom(word, row, j) + [SEPARATOR_LINE]) ==
      Feed(row, [SEPARATOR_LINE])
    decreases |row| - j
  {
    if j == |row| {
      assert Partial(row, j) == row;
      assert LinesFrom(word, row, j) + [SEPARATOR_LINE] == [SEPARATOR_LINE];
    } else {
      FeedLinesFrom(word, row, j + 1);
      var rest := LinesFrom(word, row, j + 1) + [SEPARATOR_LINE];
      LinesFromStep(word, row, j, [SEPARATOR_LINE]);
      if row[j].Null? {
        PartialStep(row, j);
      } else {
        FeedColumnLine(word, row, j, rest);
      }
    }
  }

  /** Reading the commit body of a row inserts exactly that row (nothing when all
      its cells are NULL) and leaves the row reset. */
  lemma ReadCommitBody(word: string, row: Row)
    requires IsLabel(word) && WellKeyed(row)
    requires forall k :: 0 <= k < |row| ==> Writable(k, row[k])
    ensures Feed(EMPTY_ROW, CommitBody(word, row)) ==
      Ingest(if row == EMPTY_ROW then [] else [row], EMPTY_ROW, None)
  {
    EmptyRowNulls();
    assert Partial(row, 0) == EMPTY_ROW;
    FeedLinesFrom(word, row, 0);
    ClassifySeparator();
    FeedSeparatorLine(row, SEPARATOR_LINE);
  }
}
