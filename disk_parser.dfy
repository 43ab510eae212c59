/**
 * The parser of `df -k` output (main.go, parseDfOutput and splitDfLine).
 *
 * The text is split into lines; the first line, the column header, is
 * skipped. Each other line is trimmed; empty lines, lines that do not start
 * with `/`, `tmpfs` or `devtmpfs`, and lines with fewer than six
 * whitespace-separated fields are dropped. The fields are read by position:
 * filesystem, size, used and available (in 1024-byte blocks), use percentage
 * (with its `%` sign) and mount point. A number that does not parse reads
 * as 0, and records keep the order of their lines.
 */
module DiskParser {
  import opened Wrappers
  import opened Text
  import opened Decimal

  /** One filesystem as `df` reports it; sizes are in bytes. */
  datatype DiskInfo = DiskInfo(
    filesystem: string,
    size: int,
    used: int,
    available: int,
    usePercent: int,
    mountPoint: string)

  /** `df -k` counts in blocks of this many bytes. */
  const BlockSize := 1024

  /** The only lines the parser considers: real devices and paths, and the
      two memory-backed pseudo filesystems. */
  predicate HasDfPrefix(line: string) {
    HasPrefix(line, "/") || HasPrefix(line, "tmpfs") || HasPrefix(line, "devtmpfs")
  }

  /** The record the positional fields of one line make. */
  function RecordOf(fields: seq<string>): DiskInfo
    requires |fields| >= 6
  {
    DiskInfo(
      fields[0],
      ParseOrZero(fields[1]) * BlockSize,
      ParseOrZero(fields[2]) * BlockSize,
      ParseOrZero(fields[3]) * BlockSize,
      ParseOrZero(TrimSuffix(fields[4], "%")),
      fields[5])
  }

  /** What one line after the header contributes: a record, or nothing. */
  function ParseLine(raw: string): Option<DiskInfo>
  {
    var line := TrimSpace(raw);
    if line == [] || !HasDfPrefix(line) then None
    else
      var fields := SplitFields(line);
      if |fields| < 6 then None else Some(RecordOf(fields))
  }

  function Emit(o: Option<DiskInfo>): seq<DiskInfo>
  {
    match o
    case Some(d) => [d]
    case None => []
  }

  /** The records of a sequence of lines, one per accepted line, in order. */
  function ParseLines(lines: seq<string>): seq<DiskInfo>
  {
    if lines == [] then []
    else ParseLines(lines[..|lines| - 1]) + Emit(ParseLine(lines[|lines| - 1]))
  }

  /** The records of a whole `df -k` report: its lines after the first. */
  function ParseDf(output: string): seq<DiskInfo>
  {
    ParseLines(SplitLines(output)[1..])
  }

  /** parseDfOutput: the loop over the lines after the header, appending one
      record per accepted line. */
  method ParseDfOutput(output: string) returns (diskInfos: seq<DiskInfo>)
    ensures diskInfos == ParseDf(output)
  {
    var lines := SplitLines(output);
    diskInfos := [];
    for i := 1 to |lines|
      invariant diskInfos == ParseLines(lines[1..i])
    {
      ParseLinesStep(lines, i);
      var line := TrimSpace(lines[i]);
      if line == [] {
        ParseLineDropped(lines[i]);
        continue;
      }
      if !HasPrefix(line, "/") && !HasPrefix(line, "tmpfs") && !HasPrefix(line, "devtmpfs") {
        ParseLineDropped(lines[i]);
        continue;
      }
      var fields := SplitFields(line);
      if |fields| < 6 {
        ParseLineDropped(lines[i]);
        continue;
      }
      var size := ParseOrZero(fields[1]);
      var used := ParseOrZero(fields[2]);
      var avail := ParseOrZero(fields[3]);
      var usePercentStr := TrimSuffix(fields[4], "%");
      var usePercent := ParseOrZero(usePercentStr);
      var info := DiskInfo(fields[0], size * 1024, used * 1024, avail * 1024, usePercent, fields[5]);
      ParseLineKept(lines[i], fields);
      assert info == RecordOf(fields);
      diskInfos := diskInfos + [info];
    }
    assert lines[1..|lines|] == lines[1..];
  }

  // ---------------------------------------------------------------------------
  // Order and the header

  lemma ParseLinesSnoc(lines: seq<string>, line: string)
    ensures ParseLines(lines + [line]) == ParseLines(lines) + Emit(ParseLine(line))
  {
    assert (lines + [line])[..|lines|] == lines;
  }

  /** The loop's step: line `i` adds its record, if any, after those of
      lines 1 to `i - 1`. */
  /** A line that fails a filter gives nothing. */
  lemma ParseLineDropped(raw: string)
    requires TrimSpace(raw) == [] || !HasDfPrefix(TrimSpace(raw)) || |SplitFields(TrimSpace(raw))| < 6
    ensures ParseLine(raw) == None
  {
  }

  /** A line that passes every filter gives the record of its fields. */
  lemma ParseLineKept(raw: string, fields: seq<string>)
    requires TrimSpace(raw) != [] && HasDfPrefix(TrimSpace(raw))
    requires fields == SplitFields(TrimSpace(raw)) && |fields| >= 6
    ensures ParseLine(raw) == Some(RecordOf(fields))
  {
  }

  lemma ParseLinesStep(lines: seq<string>, i: nat)
    requires 1 <= i < |lines|
    ensures ParseLines(lines[1..i + 1]) == ParseLines(lines[1..i]) + Emit(ParseLine(lines[i]))
  {
    assert lines[1..i + 1] == lines[1..i] + [lines[i]];
    ParseLinesSnoc(lines[1..i], lines[i]);
  }

  /** The records of two blocks of lines are the records of the first block
      followed by those of the second: the parser keeps source order and
      treats each line on its own. */
  lemma {:induction false} ParseLinesAppend(a: seq<string>, b: seq<string>)
    ensures ParseLines(a + b) == ParseLines(a) + ParseLines(b)
    decreases |b|
  {
    if b == [] {
      assert a + b == a;
    } else {
      var init := b[..|b| - 1];
      var last := b[|b| - 1];
      assert a + b == (a + init) + [last];
      assert b == init + [last];
      ParseLinesSnoc(a + init, last);
      ParseLinesSnoc(init, last);
      ParseLinesAppend(a, init);
    }
  }

  /** The first line never makes a record, whatever it holds: the report is
      parsed as if it started with its second line. */
  lemma ParseDfSkipsHeader(header: string, body: string)
    requires '\n' !in header
    ensures ParseDf(header + "\n" + body) == ParseLines(SplitLines(body))
  {
    SplitLinesCons(header, body);
    assert ([header] + SplitLines(body))[1..] == SplitLines(body);
  }

  /** Empty input, a header alone, and a header with its newline all give no
      records. */
  lemma ParseDfHeaderOnly(header: string)
    requires '\n' !in header
    ensures ParseDf(header) == []
    ensures ParseDf(header + "\n") == []
  {
    SplitLinesSingle(header);
    ParseDfSkipsHeader(header, []);
    assert header + "\n" + [] == header + "\n";
    assert SplitLines([]) == [[]];
    assert ParseLines([[]]) == ParseLines([]) + Emit(ParseLine([]));
  }

  // ---------------------------------------------------------------------------
  // What every record satisfies

  ghost predicate IsWord(w: string) {
    w != [] && forall k :: 0 <= k < |w| ==> !IsSpace(w[k])
  }

  /** What the parser guarantees of every record it makes: the filesystem
      starts with one of the three prefixes, filesystem and mount point are
      non-empty single fields, and the sizes are whole blocks. */
  ghost predicate WellFormed(d: DiskInfo) {
    && HasDfPrefix(d.filesystem)
    && d.filesystem != [] && NoRegexSpace(d.filesystem)
    && d.mountPoint != [] && NoRegexSpace(d.mountPoint)
    && d.size % BlockSize == 0 && d.used % BlockSize == 0 && d.available % BlockSize == 0
  }

  /** A line is accepted exactly when, trimmed, it is non-empty, starts with
      a recognised prefix and has at least six fields. */
  lemma ParseLineAccepts(raw: string)
    ensures ParseLine(raw).Some? <==>
      (TrimSpace(raw) != [] && HasDfPrefix(TrimSpace(raw)) && |SplitFields(TrimSpace(raw))| >= 6)
  {
  }

  lemma FirstFieldHasDfPrefix(line: string)
    requires HasDfPrefix(line)
    ensures HasDfPrefix(SplitFields(line)[0])
  {
    if HasPrefix(line, "/") {
      FirstFieldPrefix(line, "/");
    } else if HasPrefix(line, "tmpfs") {
      FirstFieldPrefix(line, "tmpfs");
    } else {
      FirstFieldPrefix(line, "devtmpfs");
    }
  }

  lemma FieldsOfTrimmed(line: string)
    requires line != [] && !IsSpace(line[0]) && !IsSpace(line[|line| - 1])
    ensures forall k :: 0 <= k < |SplitFields(line)| ==>
      SplitFields(line)[k] != [] && NoRegexSpace(SplitFields(line)[k])
  {
    SplitFieldsNonEmpty(line);
    SplitFieldsNoSpace(line);
  }

  lemma RecordOfWellFormed(fields: seq<string>)
    requires |fields| >= 6 && HasDfPrefix(fields[0])
    requires forall k :: 0 <= k < |fields| ==> fields[k] != [] && NoRegexSpace(fields[k])
    ensures WellFormed(RecordOf(fields))
  {
    assert (ParseOrZero(fields[1]) * BlockSize) % BlockSize == 0;
    assert (ParseOrZero(fields[2]) * BlockSize) % BlockSize == 0;
    assert (ParseOrZero(fields[3]) * BlockSize) % BlockSize == 0;
  }

  /** The record of an accepted line is well formed. */
  lemma ParseLineWellFormed(raw: string)
    requires ParseLine(raw).Some?
    ensures WellFormed(ParseLine(raw).value)
  {
    var line := TrimSpace(raw);
    FirstFieldHasDfPrefix(line);
    FieldsOfTrimmed(line);
    RecordOfWellFormed(SplitFields(line));
  }

  /** Every record of a report is well formed. */
  lemma {:induction false} ParseLinesWellFormed(lines: seq<string>)
    ensures forall k :: 0 <= k < |ParseLines(lines)| ==> WellFormed(ParseLines(lines)[k])
  {
    if lines != [] {
      var init := lines[..|lines| - 1];
      ParseLinesWellFormed(init);
      if ParseLine(lines[|lines| - 1]).Some? {
        ParseLineWellFormed(lines[|lines| - 1]);
      }
    }
  }

  /** Every record comes from one line of the report after the header. */
  lemma {:induction false} ParseLinesProvenance(lines: seq<string>, d: DiskInfo)
    requires d in ParseLines(lines)
    ensures exists k :: 0 <= k < |lines| && ParseLine(lines[k]) == Some(d)
  {
    var init := lines[..|lines| - 1];
    var last := lines[|lines| - 1];
    if d in ParseLines(init) {
      ParseLinesProvenance(init, d);
      var k :| 0 <= k < |init| && ParseLine(init[k]) == Some(d);
      assert lines[k] == init[k];
    } else {
      assert d in Emit(ParseLine(last));
      assert ParseLine(lines[|lines| - 1]) == Some(d);
    }
  }

  lemma ParseDfWellFormed(output: string)
    ensures forall d :: d in ParseDf(output) ==> WellFormed(d)
  {
    ParseLinesWellFormed(SplitLines(output)[1..]);
  }

  // ---------------------------------------------------------------------------
  // df rows parse back to their records

  /** One row of a `df -k` report, as the tool prints it: sizes in blocks,
      the use percentage without its `%` sign. */
  datatype DfRow = DfRow(
    filesystem: string,
    blocks: int,
    used: int,
    available: int,
    percent: int,
    mountedOn: string)

  ghost predicate PrintableRow(r: DfRow) {
    IsWord(r.filesystem) && HasDfPrefix(r.filesystem) && IsWord(r.mountedOn)
  }

  function Columns(r: DfRow): seq<string>
  {
    [r.filesystem, FormatInt(r.blocks), FormatInt(r.used), FormatInt(r.available),
     FormatInt(r.percent) + "%", r.mountedOn]
  }

  /** The record a row stands for. */
  function RecordOfRow(r: DfRow): DiskInfo
  {
    DiskInfo(r.filesystem, r.blocks * BlockSize, r.used * BlockSize, r.available * BlockSize,
             r.percent, r.mountedOn)
  }

  lemma FormatIntIsWord(i: int)
    ensures IsWord(FormatInt(i))
  {
    var s := FormatInt(i);
    forall k | 0 <= k < |s| ensures !IsSpace(s[k]) {
      if i < 0 && k > 0 {
        assert s[k] == FormatNat(-i)[k - 1];
      }
    }
  }

  lemma ColumnsAreWords(r: DfRow)
    requires PrintableRow(r)
    ensures forall k :: 0 <= k < 6 ==> IsWord(Columns(r)[k])
  {
    var blocks, used, avail, pct := FormatInt(r.blocks), FormatInt(r.used), FormatInt(r.available), FormatInt(r.percent);
    FormatIntIsWord(r.blocks);
    FormatIntIsWord(r.used);
    FormatIntIsWord(r.available);
    FormatIntIsWord(r.percent);
    PercentIsWord(pct);
    SixWords(r.filesystem, blocks, used, avail, pct + "%", r.mountedOn);
    assert Columns(r) == [r.filesystem, blocks, used, avail, pct + "%", r.mountedOn];
  }

  /** Six words listed are six words. */
  lemma SixWords(a: string, b: string, c: string, d: string, e: string, f: string)
    requires IsWord(a) && IsWord(b) && IsWord(c) && IsWord(d) && IsWord(e) && IsWord(f)
    ensures forall k :: 0 <= k < 6 ==> IsWord([a, b, c, d, e, f][k])
  {
  }

  /** Appending the `%` sign keeps a word a word. */
  lemma PercentIsWord(w: string)
    requires IsWord(w)
    ensures IsWord(w + "%")
  {
    var p := w + "%";
    assert forall k :: 0 <= k < |w| ==> p[k] == w[k];
    assert p[|w|] == '%';
  }

  lemma PrintableColumns(r: DfRow, extra: seq<string>)
    requires PrintableRow(r)
    requires forall k :: 0 <= k < |extra| ==> IsWord(extra[k])
    ensures forall k :: 0 <= k < |Columns(r) + extra| ==> IsWord((Columns(r) + extra)[k])
  {
    ColumnsAreWords(r);
    WordsAppend(Columns(r), extra);
  }

  /** Two lists of words joined are a list of words. */
  lemma WordsAppend(a: seq<string>, b: seq<string>)
    requires forall k :: 0 <= k < |a| ==> IsWord(a[k])
    requires forall k :: 0 <= k < |b| ==> IsWord(b[k])
    ensures forall k :: 0 <= k < |a + b| ==> IsWord((a + b)[k])
  {
    forall k | 0 <= k < |a + b| ensures IsWord((a + b)[k]) {
      if k < |a| {
        assert (a + b)[k] == a[k];
      } else {
        assert (a + b)[k] == b[k - |a|];
      }
    }
  }

  lemma RecordOfColumns(r: DfRow, extra: seq<string>)
    ensures RecordOf(Columns(r) + extra) == RecordOfRow(r)
  {
    var fields := Columns(r) + extra;
    assert fields[..6] == Columns(r);
    ParseFormatInt(r.blocks);
    ParseFormatInt(r.used);
    ParseFormatInt(r.available);
    PercentColumn(r.percent);
  }

  /** The percent column reads back to its number once its `%` is cut. */
  lemma PercentColumn(p: int)
    ensures ParseOrZero(TrimSuffix(FormatInt(p) + "%", "%")) == p
  {
    var s := FormatInt(p);
    assert (s + "%")[..|s|] == s;
    ParseFormatInt(p);
  }

  // ---------------------------------------------------------------------------
  // Lines of fields, padded as `df` aligns its columns

  /** How a line lays its fields out: text before the first field, the text
      between each field and the next, and text after the last. */
  datatype Layout = Layout(lead: string, gaps: seq<string>, trail: string)

  /** A layout for `n` fields the parser reads through: spaces at either
      end, and a run of `\s` characters, of any length, between fields. */
  ghost predicate Padded(lay: Layout, n: nat) {
    && |lay.gaps| + 1 == n
    && AllSpace(lay.lead) && AllSpace(lay.trail) && Separators(lay.gaps)
  }

  /** The layout holds no line break. */
  ghost predicate OnOneLine(lay: Layout) {
    && '\n' !in lay.lead && '\n' !in lay.trail
    && forall k :: 0 <= k < |lay.gaps| ==> '\n' !in lay.gaps[k]
  }

  /** The line that lays `words` out as `lay` says. */
  function LaidOut(words: seq<string>, lay: Layout): string
    requires |words| >= 1 && |lay.gaps| + 1 == |words|
  {
    lay.lead + Interleave(words, lay.gaps) + lay.trail
  }

  lemma DfPrefixOfLine(line: string, first: string)
    requires HasPrefix(line, first) && HasDfPrefix(first)
    ensures HasDfPrefix(line)
  {
    if HasPrefix(first, "/") {
      assert line[..1] == first[..1];
    } else if HasPrefix(first, "tmpfs") {
      assert line[..5] == first[..5];
    } else {
      assert line[..8] == first[..8];
    }
  }

  /** A line of words, padded in any of the ways above, is dropped when its
      first word lacks the three prefixes or when it has fewer than six
      words; otherwise it gives the record of its first six words. */
  lemma ParseFields(words: seq<string>, lay: Layout)
    requires |words| >= 1 && Padded(lay, |words|)
    requires forall k :: 0 <= k < |words| ==> IsWord(words[k])
    ensures !HasDfPrefix(words[0]) ==> ParseLine(LaidOut(words, lay)) == None
    ensures |words| < 6 ==> ParseLine(LaidOut(words, lay)) == None
    ensures HasDfPrefix(words[0]) && |words| >= 6 ==>
      ParseLine(LaidOut(words, lay)) == Some(RecordOf(words))
  {
    var t := Interleave(words, lay.gaps);
    var last := words[|words| - 1];
    InterleaveEdges(words, lay.gaps);
    assert IsWord(words[0]) && IsWord(last);
    assert t[0] == words[0][0];
    assert t[|t| - 1] == last[|last| - 1];
    TrimSpacePadded(lay.lead, t, lay.trail);
    SplitJoinFields(words, lay.gaps);
    if HasDfPrefix(t) {
      FirstFieldHasDfPrefix(t);
    }
    if HasDfPrefix(words[0]) {
      DfPrefixOfLine(t, words[0]);
    }
  }

  /** The zero policy: a numeric column that does not parse, such as the
      `-` that `df` prints for a size it cannot tell, neither drops the row
      nor stops the parse. It reads as 0, and the other columns are read as
      usual. */
  lemma ParseUnreadableColumns(words: seq<string>, lay: Layout)
    requires |words| >= 6 && Padded(lay, |words|)
    requires forall k :: 0 <= k < |words| ==> IsWord(words[k])
    requires HasDfPrefix(words[0])
    ensures ParseLine(LaidOut(words, lay)).Some?
    ensures ParseLine(LaidOut(words, lay)).value.filesystem == words[0]
    ensures ParseLine(LaidOut(words, lay)).value.mountPoint == words[5]
    ensures ParseDecimal(words[1]) == None ==> ParseLine(LaidOut(words, lay)).value.size == 0
    ensures ParseDecimal(words[2]) == None ==> ParseLine(LaidOut(words, lay)).value.used == 0
    ensures ParseDecimal(words[3]) == None ==> ParseLine(LaidOut(words, lay)).value.available == 0
    ensures ParseDecimal(TrimSuffix(words[4], "%")) == None ==>
      ParseLine(LaidOut(words, lay)).value.usePercent == 0
  {
    ParseFields(words, lay);
  }

  /** A printable row, padded in any of the ways above and followed by any
      number of further fields, parses to the record it stands for: the
      sizes come back multiplied by the block size, the `%` sign is dropped,
      and the fields after the sixth are ignored (so a mount point with a
      blank in it is cut at the blank). */
  lemma ParseRow(r: DfRow, extra: seq<string>, lay: Layout)
    requires PrintableRow(r)
    requires forall k :: 0 <= k < |extra| ==> IsWord(extra[k])
    requires Padded(lay, 6 + |extra|)
    ensures ParseLine(LaidOut(Columns(r) + extra, lay)) == Some(RecordOfRow(r))
  {
    PrintableColumns(r, extra);
    ParseFields(Columns(r) + extra, lay);
    RecordOfColumns(r, extra);
  }

  /** The line of one row: its six columns laid out as `lay` says. */
  function RowLine(r: DfRow, lay: Layout): string
    requires |lay.gaps| == 5
  {
    LaidOut(Columns(r), lay)
  }

  /** A row, laid out on one line in one of the ways above. */
  ghost predicate PrintableLine(r: DfRow, lay: Layout) {
    PrintableRow(r) && Padded(lay, 6) && OnOneLine(lay)
  }

  /** Rows and their layouts that make a report body: one printable row per
      line. */
  ghost predicate PrintableRows(rows: seq<DfRow>, lays: seq<Layout>) {
    |lays| == |rows| && forall k :: 0 <= k < |rows| ==> PrintableLine(rows[k], lays[k])
  }

  predicate SixColumns(lays: seq<Layout>) {
    forall k :: 0 <= k < |lays| ==> |lays[k].gaps| == 5
  }

  function RowLines(rows: seq<DfRow>, lays: seq<Layout>): (lines: seq<string>)
    requires |lays| == |rows| && SixColumns(lays)
  {
    seq(|rows|, k requires 0 <= k < |rows| => RowLine(rows[k], lays[k]))
  }

  function RowRecords(rows: seq<DfRow>): seq<DiskInfo>
  {
    seq(|rows|, k requires 0 <= k < |rows| => RecordOfRow(rows[k]))
  }

  /** A row's line parses to its record. */
  lemma ParseRowLine(r: DfRow, lay: Layout)
    requires PrintableLine(r, lay)
    ensures ParseLine(RowLine(r, lay)) == Some(RecordOfRow(r))
  {
    var cols := Columns(r);
    assert ParseLine(LaidOut(cols + [], lay)) == Some(RecordOfRow(r)) by {
      ParseRow(r, [], lay);
    }
    assert cols + [] == cols;
  }

  /** A row's line holds no line break. */
  lemma RowLineOnOneLine(r: DfRow, lay: Layout)
    requires PrintableLine(r, lay)
    ensures '\n' !in RowLine(r, lay)
  {
    ColumnsAreWords(r);
    forall k | 0 <= k < 6 ensures '\n' !in Columns(r)[k] {
      assert IsWord(Columns(r)[k]);
    }
    InterleaveAvoids(Columns(r), lay.gaps, '\n');
  }

  /** Lines that each parse to a record give exactly those records, in
      order. */
  lemma {:induction false} ParseLinesEach(lines: seq<string>, recs: seq<DiskInfo>)
    requires |lines| == |recs|
    requires forall k :: 0 <= k < |lines| ==> ParseLine(lines[k]) == Some(recs[k])
    ensures ParseLines(lines) == recs
  {
    if lines != [] {
      var n := |lines| - 1;
      forall k | 0 <= k < n ensures ParseLine(lines[..n][k]) == Some(recs[..n][k]) {
        assert lines[..n][k] == lines[k] && recs[..n][k] == recs[k];
      }
      ParseLinesEach(lines[..n], recs[..n]);
      assert ParseLine(lines[n]) == Some(recs[n]);
      SplitLast([], recs);
    }
  }

  /** Printable rows, one per line, parse to their records in order. */
  lemma ParseRowLines(rows: seq<DfRow>, lays: seq<Layout>)
    requires PrintableRows(rows, lays)
    ensures SixColumns(lays)
    ensures ParseLines(RowLines(rows, lays)) == RowRecords(rows)
    ensures |RowLines(rows, lays)| == |rows|
    ensures forall k :: 0 <= k < |rows| ==> '\n' !in RowLines(rows, lays)[k]
  {
    assert SixColumns(lays) by {
      forall k | 0 <= k < |lays| ensures |lays[k].gaps| == 5 {
        assert PrintableLine(rows[k], lays[k]);
      }
    }
    var lines := RowLines(rows, lays);
    var recs := RowRecords(rows);
    forall k | 0 <= k < |rows|
      ensures ParseLine(lines[k]) == Some(recs[k]) && '\n' !in lines[k]
    {
      ParseRowLine(rows[k], lays[k]);
      RowLineOnOneLine(rows[k], lays[k]);
    }
    ParseLinesEach(lines, recs);
  }

  /** A whole report parses to the records of its rows, in order: any
      header line, then one printable row per line, padded in any of the
      ways above, with or without a newline after the last row. This
      includes a report with no rows. */
  lemma ParseReport(header: string, rows: seq<DfRow>, lays: seq<Layout>, end: string)
    requires '\n' !in header
    requires PrintableRows(rows, lays)
    requires end == [] || end == "\n"
    ensures SixColumns(lays)
    ensures ParseDf(header + "\n" + Join(RowLines(rows, lays), "\n") + end) == RowRecords(rows)
  {
    ParseRowLines(rows, lays);
    ParseLinesReport(header, RowLines(rows, lays), end);
  }

  /** A header, then newline-free lines, with or without a final newline:
      the records are those of the lines. */
  lemma ParseLinesReport(header: string, lines: seq<string>, end: string)
    requires '\n' !in header
    requires forall k :: 0 <= k < |lines| ==> '\n' !in lines[k]
    requires end == [] || end == "\n"
    ensures ParseDf(header + "\n" + Join(lines, "\n") + end) == ParseLines(lines)
  {
    var body := Join(lines, "\n") + end;
    assert header + "\n" + Join(lines, "\n") + end == header + "\n" + body;
    ParseDfSkipsHeader(header, body);
    ParseBody(lines, end);
  }

  /** Lines joined by newlines, with or without a final newline, give the
      records of those lines. */
  lemma ParseBody(lines: seq<string>, end: string)
    requires forall k :: 0 <= k < |lines| ==> '\n' !in lines[k]
    requires end == [] || end == "\n"
    ensures ParseLines(SplitLines(Join(lines, "\n") + end)) == ParseLines(lines)
  {
    if lines == [] {
      assert Join(lines, "\n") == [];
      EmptyLines(end);
    } else if end == [] {
      assert Join(lines, "\n") + end == Join(lines, "\n");
      SplitJoinLines(lines);
    } else {
      SplitTerminatedLines(lines);
      ParseLinesSnoc(lines, []);
    }
  }

  /** An empty body, or a lone newline, holds no records. */
  lemma EmptyLines(end: string)
    requires end == [] || end == "\n"
    ensures ParseLines(SplitLines([] + end)) == []
  {
    BlankLineEmpty();
    if end == [] {
      assert [] + end == [];
      SplitLinesEmpty();
    } else {
      assert [] + end == "\n";
      SplitLinesNewline();
      ParseLinesSnoc([[]], []);
    }
  }

  /** A blank line adds no record. */
  lemma BlankLineEmpty()
    ensures ParseLines([[]]) == []
  {
    assert ParseLine([]) == None;
    assert ParseLines([[]]) == ParseLines([]) + Emit(ParseLine([]));
  }

  /** Go splits the empty text into one empty piece. */
  lemma SplitLinesEmpty()
    ensures SplitLines([]) == [[]]
  {
  }

  /** A lone newline splits into two empty pieces. */
  lemma SplitLinesNewline()
    ensures SplitLines("\n") == [[], []]
  {
    assert "\n"[1..] == [];
    SplitLinesEmpty();
  }
}
