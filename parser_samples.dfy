module ParserSamples {
  import opened Wrappers
  import opened Text
  import opened Decimal
  import opened DiskParser

  /** The row of one disk, as `df -k` prints it. */
  const SampleRow := "/dev/sda1        1048576  524288    524288  50% /"

  const SdaRow := DfRow("/dev/sda1", 1048576, 524288, 524288, 50, "/")

  /** The padding of the sample row: `df` right-aligns the numbers. */
  const SdaLayout := Layout("", ["        ", "  ", "    ", "  ", " "], "")

  lemma Digits1048576()
    ensures FormatInt(1048576) == "1048576"
  {
    assert FormatNat(10) == "10";
    assert FormatNat(104) == "104";
    assert FormatNat(1048) == "1048";
    assert FormatNat(10485) == "10485";
    assert FormatNat(104857) == "104857";
  }

  lemma Digits524288()
    ensures FormatInt(524288) == "524288"
  {
    assert FormatNat(52) == "52";
    assert FormatNat(524) == "524";
    assert FormatNat(5242) == "5242";
    assert FormatNat(52428) == "52428";
  }

  /** The printed columns of the sample row. */
  const SdaColumns: seq<string> := ["/dev/sda1", "1048576", "524288", "524288", "50%", "/"]

  /** One field and its gap in front of the rest. */
  lemma InterleaveStep(cs: seq<string>, gs: seq<string>)
    requires |cs| >= 2 && |gs| + 1 == |cs|
    ensures Interleave(cs, gs) == cs[0] + gs[0] + Interleave(cs[1..], gs[1..])
  {
  }

  /** Six fields and five gaps, written out. */
  lemma InterleaveSix(cs: seq<string>, gs: seq<string>)
    requires |cs| == 6 && |gs| == 5
    ensures Interleave(cs, gs)
         == cs[0] + gs[0] + cs[1] + gs[1] + cs[2] + gs[2] + cs[3] + gs[3] + cs[4] + gs[4] + cs[5]
  {
    InterleaveStep(cs, gs);
    InterleaveStep(cs[1..], gs[1..]);
    InterleaveStep(cs[2..], gs[2..]);
    InterleaveStep(cs[3..], gs[3..]);
    InterleaveStep(cs[4..], gs[4..]);
    assert cs[1..][1..] == cs[2..] && gs[1..][1..] == gs[2..];
    assert cs[2..][1..] == cs[3..] && gs[2..][1..] == gs[3..];
    assert cs[3..][1..] == cs[4..] && gs[3..][1..] == gs[4..];
    assert cs[4..][1..] == cs[5..] && gs[4..][1..] == gs[5..];
    Flatten(cs[0], gs[0], cs[1], gs[1], cs[2], gs[2], cs[3], gs[3], cs[4], gs[4], cs[5]);
  }

  /** Concatenation nested to the right, as Interleave builds it, equals the
      same eleven pieces concatenated from the left. */
  lemma Flatten(a: string, b: string, c: string, d: string, e: string, f: string,
                g: string, h: string, i: string, j: string, k: string)
    ensures a + b + (c + d + (e + f + (g + h + (i + j + k)))) == a + b + c + d + e + f + g + h + i + j + k
  {
  }

  lemma SampleText()
    ensures "/dev/sda1" + "        " + "1048576" + "  " + "524288" + "    " + "524288" + "  " + "50%" + " " + "/"
         == SampleRow
  {
    assert "/dev/sda1" + "        " == "/dev/sda1        ";
    assert "/dev/sda1        " + "1048576" == "/dev/sda1        1048576";
    assert "/dev/sda1        1048576" + "  " == "/dev/sda1        1048576  ";
    assert "/dev/sda1        1048576  " + "524288" == "/dev/sda1        1048576  524288";
    assert "/dev/sda1        1048576  524288" + "    " == "/dev/sda1        1048576  524288    ";
    assert "/dev/sda1        1048576  524288    " + "524288" == "/dev/sda1        1048576  524288    524288";
    assert "/dev/sda1        1048576  524288    524288" + "  " == "/dev/sda1        1048576  524288    524288  ";
    assert "/dev/sda1        1048576  524288    524288  " + "50%" == "/dev/sda1        1048576  524288    524288  50%";
    assert "/dev/sda1        1048576  524288    524288  50%" + " " == "/dev/sda1        1048576  524288    524288  50% ";
    assert "/dev/sda1        1048576  524288    524288  50% " + "/" == "/dev/sda1        1048576  524288    524288  50% /";
  }

  /** The sample row is the line of the row value in the sample layout. */
  lemma SampleColumns()
    ensures RowLine(SdaRow, SdaLayout) == SampleRow
  {
    SampleRowColumns();
    LaidOutBare(SdaColumns, SdaLayout);
    SampleInterleave();
  }

  /** Without lead or trail, a line is just its fields and gaps. */
  lemma LaidOutBare(words: seq<string>, lay: Layout)
    requires |words| >= 1 && |lay.gaps| + 1 == |words|
    requires lay.lead == [] && lay.trail == []
    ensures LaidOut(words, lay) == Interleave(words, lay.gaps)
  {
    var row := Interleave(words, lay.gaps);
    assert [] + row + [] == row;
  }

  /** The sample row's numbers print as the sample's columns. */
  lemma SampleRowColumns()
    ensures Columns(SdaRow) == SdaColumns
  {
    Digits1048576();
    Digits524288();
    Digits50();
    assert FormatInt(50) + "%" == "50%";
  }

  /** 50 in decimal. */
  lemma Digits50()
    ensures FormatInt(50) == "50"
  {
    assert FormatNat(50) == "50";
  }

  /** The sample columns in the sample padding are the sample row. */
  lemma SampleInterleave()
    ensures Interleave(SdaColumns, SdaLayout.gaps) == SampleRow
  {
    var cs, gs := SdaColumns, SdaLayout.gaps;
    InterleaveSix(cs, gs);
    assert cs[0] == "/dev/sda1" && cs[1] == "1048576" && cs[2] == "524288";
    assert cs[3] == "524288" && cs[4] == "50%" && cs[5] == "/";
    assert gs[0] == "        " && gs[1] == "  " && gs[2] == "    " && gs[3] == "  " && gs[4] == " ";
    SampleText();
  }

  lemma SampleRowPrintable()
    ensures PrintableRow(SdaRow)
    ensures Padded(SdaLayout, 6) && OnOneLine(SdaLayout)
  {
    assert HasPrefix("/dev/sda1", "/");
    var gs := SdaLayout.gaps;
    forall k | 0 <= k < 5 ensures gs[k] != [] && AllRegexSpace(gs[k]) && '\n' !in gs[k] {
      assert forall j :: 0 <= j < |gs[k]| ==> gs[k][j] == ' ';
    }
  }

  /** Any header line followed by the sample row and its newline parses to
      exactly one record, with the block counts in bytes. */
  lemma SampleReport(header: string)
    requires '\n' !in header
    ensures ParseDf(header + "\n" + SampleRow + "\n")
         == [DiskInfo("/dev/sda1", 1073741824, 536870912, 536870912, 50, "/")]
  {
    SampleRowPrintable();
    ReportOfOneRow(header, SdaRow, SdaLayout, "\n");
    SampleColumns();
  }

  /** A report of a single printable row parses to that row's record. */
  lemma ReportOfOneRow(header: string, r: DfRow, lay: Layout, end: string)
    requires '\n' !in header
    requires PrintableRow(r) && Padded(lay, 6) && OnOneLine(lay)
    requires end == [] || end == "\n"
    ensures ParseDf(header + "\n" + RowLine(r, lay) + end) == [RecordOfRow(r)]
  {
    assert PrintableLine([r][0], [lay][0]);
    ParseReport(header, [r], [lay], end);
    SingleRow(r, lay);
  }

  lemma SingleRow(r: DfRow, lay: Layout)
    requires |lay.gaps| == 5
    ensures Join(RowLines([r], [lay]), "\n") == RowLine(r, lay)
    ensures RowRecords([r]) == [RecordOfRow(r)]
  {
    assert RowLines([r], [lay]) == [RowLine(r, lay)];
    assert RowRecords([r]) == [RecordOfRow(r)];
  }

  /** A row whose four numeric columns `df` shows as `-` is kept, with
      zeros. */
  lemma DashRow(lay: Layout)
    requires Padded(lay, 6)
    ensures ParseLine(LaidOut(["/dev/sdb1", "-", "-", "-", "-", "/mnt"], lay))
         == Some(DiskInfo("/dev/sdb1", 0, 0, 0, 0, "/mnt"))
  {
    var words := ["/dev/sdb1", "-", "-", "-", "-", "/mnt"];
    assert HasPrefix(words[0], "/");
    assert TrimSuffix("-", "%") == "-";
    ParseUnreadableColumns(words, lay);
  }
}
