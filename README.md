# space: a verified model of the `df` disk viewer

`space` is a small terminal program. It runs `df -k`, parses the report into disk
records, and draws one block per real filesystem. Each block gives the size, used
and available space in binary units, the use percentage, the mount point, and a
usage bar thirty cells wide. The program quits once the records or an error have
arrived, or when `q`, `ctrl+c` or `esc` is pressed.

This project models that pipeline in Dafny and proves what it does. The modules
follow the parts of `main.go`:

- `Text` covers the Go library string operations the program relies on.
  - `strings.Split` on newlines and `strings.TrimSpace`, which trims Go's `unicode.IsSpace` set.
  - `strings.HasPrefix`, `strings.TrimSuffix` and `strings.Repeat`.
  - Splitting on the regular expression `\s+`, whose `\s` is RE2's `[\t\n\f\r ]`.
- `Decimal` covers what `strconv.ParseInt`/`Atoi` accept and what `%d` prints.
- `DiskParser` covers `parseDfOutput` and `splitDfLine`.
  - `ParseDfOutput` is the imperative loop over the lines.
  - It is proved equal to the function `ParseDf`, and every property is proved about that function.
- `ParserSamples` holds a concrete report and the record it parses to.
- `SizeFormat` covers `formatSize`, including the digits that `%.2f` prints.
- `UsageBar` covers the bar's cell counts and the bar itself.
- `App` covers the `Model`, its messages, `Init`, `getDiskInfoCmd` and `Update`.
- `Screen` covers `View`.
  - `View` is the imperative loop that appends blocks to a builder.
  - It is proved equal to the function `ViewText`.

## Model

| member | source | states |
|---|---|---|
| Text.SplitLines | main.go:101 | `strings.Split(s, "\n")`: at least one piece. JoinSplitLines, SplitJoinLines and SplitLinesNoNewline pin the pieces down. |
| Text.SplitTerminatedLines | main.go:101 | Newline-free lines that each end in a newline split into those lines and one empty last piece. |
| Text.JoinSplitLines | main.go:101 | Joining the pieces of `strings.Split(s, "\n")` with newlines gives `s` back. |
| Text.SplitJoinLines | main.go:101 | Splitting newline-joined lines that contain no newline gives the same lines back. |
| Text.SplitLinesNoNewline | main.go:101 | No piece of the split contains a newline. |
| Text.TrimSpace | main.go:106 | The trimmed text is empty, or it starts and ends with a character that is not a space. |
| Text.TrimSpaceRemovesSpaces | main.go:106 | The trimmed text sits inside the original, and only spaces are removed on either side. |
| Text.TrimSpacePadded | main.go:106 | Trimming spaces around text that has no space at its edges gives exactly that text. |
| Text.IsSpace | main.go:106 | The characters `strings.TrimSpace` trims: Go's `unicode.IsSpace` set, the Latin-1 spaces and the Unicode White_Space code points. TrimSpace and TrimSpaceRemovesSpaces state that exactly these are cut. |
| Text.HasPrefix | main.go:112 | `strings.HasPrefix`: the text starts with the prefix. ParseLineAccepts states what the parser's filter built on it selects. ShownRecords and DisplayedIsPath do the same for the screen's test at main.go:58. |
| Text.TrimSuffix | main.go:128 | One trailing suffix is removed when present, and text without it is returned unchanged. |
| Text.Repeat | main.go:69-70 | `n` copies of the character: the length is `n` and every cell is that character. |
| Text.IsRegexSpace | main.go:147 | The class `\s` of Go's RE2 syntax, `[\t\n\f\r ]`, which the `\s+` split cuts at. SplitFieldsNoSpace and SplitJoinFields specify the split over it. |
| Text.SplitFields | main.go:145-149 | `\s+` splitting, with empty pieces at a leading or trailing run. SplitFieldsNoSpace, SplitFieldsNonEmpty, SplitJoinFields and FirstFieldPrefix specify it. |
| Text.SplitFieldsNoSpace | main.go:145-149 | No piece of the `\s+` split contains a `\s` character. |
| Text.SplitFieldsNonEmpty | main.go:145-149 | Non-empty text without `\s` at either end splits into non-empty pieces only. |
| Text.SplitJoinFields | main.go:145-149 | Non-empty words without `\s` characters, separated by runs of `\s` characters of any lengths, split back into exactly those words. |
| Text.FirstFieldPrefix | main.go:132 | A `\s`-free prefix of the line is also a prefix of its first field. |
| Decimal.ParseDecimal | main.go:123-129 | The syntax of `ParseInt` and `Atoi`: an optional sign, then one or more digits. ParseFormatInt, ParseRejectsNoDigits and ParseRejectsNonDigit specify it. |
| Decimal.ParseOrZero | main.go:123-129 | The value kept when the error is discarded: the parse, or 0. ParseFormatInt, ParseRejectsNoDigits and ParseRejectsNonDigit specify it. |
| Decimal.FormatNat | main.go:170 | The text is non-empty, all digits, without a leading zero, and denotes `n`. |
| Decimal.FormatInt | main.go:170 | The text starts with `-` exactly when the number is negative, followed by its magnitude in decimal. |
| Decimal.ParseFormatInt | main.go:123-129 | Parsing what `%d` prints gives the number back, both as a parse and as the value-or-zero. |
| Decimal.ParseRejectsNoDigits | main.go:123-129 | The empty field and a lone sign, such as df's `-`, are syntax errors and so read as 0. |
| Decimal.ParseRejectsNonDigit | main.go:123-129 | A field with a non-digit after the optional sign is a syntax error and so reads as 0. |
| DiskParser.ParseLine | main.go:106-138 | One line's record or nothing. ParseLineAccepts, ParseLineWellFormed, ParseFields, ParseRow and ParseUnreadableColumns specify it. |
| DiskParser.ParseLines | main.go:105-139 | The records of the lines, in order. ParseLinesSnoc, ParseLinesAppend and ParseLinesProvenance specify it. |
| DiskParser.ParseDf | main.go:100-142 | The records of a report. ParseDfOutput equals it, and ParseDfSkipsHeader, ParseDfHeaderOnly, ParseDfWellFormed and ParseReport specify it. |
| DiskParser.RecordOf | main.go:123-137 | The record of the positional fields. RecordOfColumns and ParseUnreadableColumns specify it. |
| DiskParser.ParseDfOutput | main.go:100-142 | The loop over the lines after the header returns exactly `ParseDf(output)`. |
| DiskParser.ParseLinesSnoc | main.go:105-139 | One more line adds its record, if it has one, at the end. |
| DiskParser.ParseLinesAppend | main.go:105-139 | The records of two blocks of lines are those of the first, then those of the second: source order is kept. |
| DiskParser.ParseDfSkipsHeader | main.go:101-105 | The first line never contributes: the report's records are the records of the lines after it. |
| DiskParser.ParseDfHeaderOnly | main.go:101-141 | A header alone, with or without a trailing newline, gives no records. The empty input is the special case of an empty header. |
| DiskParser.HasDfPrefix | main.go:112 | The prefix filter: `/`, `tmpfs` or `devtmpfs`. ParseLineAccepts states that only such lines give records. |
| DiskParser.ParseLineAccepts | main.go:106-120 | A line gives a record exactly when, once trimmed, it is non-empty, starts with `/`, `tmpfs` or `devtmpfs`, and has at least six fields. |
| DiskParser.ParseLineWellFormed | main.go:106-138 | Every record has a filesystem with one of the three prefixes, a non-empty filesystem and mount point without `\s` characters, and sizes that are whole 1024-byte blocks. |
| DiskParser.ParseDfWellFormed | main.go:100-142 | Every record of a whole report is well formed in that sense. |
| DiskParser.ParseLinesProvenance | main.go:105-139 | Every record comes from one of the lines, which parses to it. |
| DiskParser.RecordOfColumns | main.go:123-137 | Fields 1 to 3 are multiplied by 1024, field 4 loses its `%`, fields 0 and 5 are taken as they are, and any later fields are ignored. |
| DiskParser.ParseRow | main.go:106-138 | A printed row, with any spaces at its ends, any runs of `\s` characters between its columns, and any extra fields after them, parses back to the record it stands for. A mount point that contains a blank is therefore cut at the blank. |
| DiskParser.ParseFields | main.go:106-138 | A line of words, padded in the same way, is dropped when its first word lacks the three prefixes or when it has fewer than six words. Otherwise it gives the record of its words. |
| DiskParser.ParseUnreadableColumns | main.go:123-129 | A numeric column that does not parse, such as `-`, neither drops the row nor stops the parse. That column reads as 0, and the filesystem and mount point are read as usual. |
| DiskParser.ParseRowLine | main.go:106-138 | A padded printed row's line parses back to its record. |
| DiskParser.ParseRowLines | main.go:105-139 | Padded printed rows, one per line, parse to their records in order. |
| DiskParser.ParseLinesEach | main.go:105-139 | When every line parses to a record, the records are exactly those, in line order. |
| DiskParser.ParseLinesStep | main.go:105-139 | Each step of the loop adds line `i`'s record, if it has one, after the records of lines 1 to `i - 1`. |
| DiskParser.ParseBody | main.go:101-139 | Newline-free lines joined by newlines, with or without a final newline, give the records of those lines. |
| DiskParser.ParseLinesReport | main.go:100-142 | A whole report of any header and any newline-free lines, such as df rows mixed with blank, wrapped or `overlay` lines, with or without a final newline, parses to exactly the records of those lines in order. |
| DiskParser.ParseReport | main.go:100-142 | A whole report parses to the rows' records in order. It has any header, then one padded printed row per line, with or without a newline after the last row. This includes a report with no rows. |
| ParserSamples.ReportOfOneRow | main.go:100-142 | Any header followed by one padded printed row, with or without its newline, parses to exactly that row's record. |
| ParserSamples.SampleColumns | main.go:131-138 | The sample row value, padded as `df -k` aligns it, prints as `/dev/sda1        1048576  524288    524288  50% /`. |
| ParserSamples.SampleReport | main.go:100-142 | Any header followed by that row and a final newline parses to exactly one record: `/dev/sda1`, 1073741824, 536870912, 536870912, 50, `/`. |
| ParserSamples.DashRow | main.go:123-137 | A row whose four numeric columns are `-` is kept as a record with zero sizes and a zero percentage. |
| SizeFormat.Bytes | main.go:153-158 | The unit sizes KB = 1024, MB = 1024 KB, GB = 1024 MB and TB = 1024 GB. ChooseUnit and FormatSizeWholeUnits use them. |
| SizeFormat.FormatSize | main.go:152-171 | The printed size. FormatSizeBytes, FormatSizeNearest, TwoDecimalsDigits, FormatSizeWholeUnits and the samples specify it. |
| SizeFormat.ChooseUnit | main.go:153-170 | The unit is the largest one the size reaches, and it is bytes exactly when the size is below 1024, negative sizes included. |
| SizeFormat.ChooseUnitMonotone | main.go:160-170 | A larger size never gets a smaller unit. |
| SizeFormat.RoundHalfEven | main.go:162-168 | The result is within half a unit of the exact quotient, and a tie goes to the even neighbour. |
| SizeFormat.FormatSizeBytes | main.go:169-170 | Below 1024 the size is printed as its decimal integer followed by " B", and the number reads back as the size. |
| SizeFormat.FormatSizeNearest | main.go:160-168 | From 1024 up, the printed value is the nearest hundredth of the chosen unit to the exact quotient, and it is at least 1.00. |
| SizeFormat.TwoDecimals | main.go:162-168 | The `%.2f` rendering of a count of hundredths. TwoDecimalsDigits states that the digits without the point spell that count. |
| SizeFormat.TwoDecimalsDigits | main.go:162-168 | For 1.00 and more, dropping the point from the printed value gives the number of hundredths in decimal. |
| SizeFormat.FormatSizeWholeUnits | main.go:160-168 | `k` whole units print as `k` followed by ".00" and the unit's name. |
| SizeFormat.SampleBytes | main.go:169-170 | 0, -5 and 1023 print as "0 B", "-5 B" and "1023 B". |
| SizeFormat.SampleKilobyte | main.go:167-168 | 1024 prints as "1.00 KB". |
| SizeFormat.SampleMegabyte | main.go:165-166 | 1048576 prints as "1.00 MB". |
| SizeFormat.SampleTerabyte | main.go:161-162 | 1099511627776 prints as "1.00 TB". |
| SizeFormat.SampleRoundsPastUnit | main.go:165-168 | 1048575 prints as "1024.00 KB": the unit is chosen before rounding. |
| SizeFormat.SampleTies | main.go:167-168 | 1408 (1.375 KB) prints as "1.38 KB" and 1664 (1.625 KB) as "1.62 KB". |
| UsageBar.UsedCells | main.go:66 | The `█` count. UsedCellsShare, RenderableRange, UsedCellsMonotone and UsedCellsSamples specify it. |
| UsageBar.AvailCells | main.go:67 | The `░` count: the rest of the 30 cells. RenderableRange and UsedCellsSamples specify it. |
| UsageBar.TruncDiv | main.go:66 | The quotient truncates toward zero: its multiple does not pass the dividend, and the next multiple away from zero does. |
| UsageBar.Bar | main.go:69-70 | The bar is 30 cells: `█` for the first `usedChars` cells and `░` for the rest. |
| UsageBar.UsedCellsShare | main.go:65-67 | For 0 to 100 percent the used cells lie in 0..30 and are the whole number of cells the used share covers. |
| UsageBar.Renderable | main.go:69-70 | Both counts are non-negative, so neither `strings.Repeat` call panics. RenderableRange states for which percentages that holds. |
| UsageBar.RenderableRange | main.go:66-70 | Both counts are non-negative, so `strings.Repeat` does not panic, exactly for percentages from -3 to 103. |
| UsageBar.UsedCellsMonotone | main.go:66 | A larger percentage never fills fewer cells. |
| UsageBar.UsedCellsSamples | main.go:65-67 | 0, 50, 33 and 100 percent give 0, 15, 9 and 30 cells. -3 gives 0 and -4 gives -1. 150 gives 45 used and -15 available cells, which cannot be drawn. |
| App.Init | main.go:31-33 | The first command is the disk query. App.Run states it. |
| App.DiskInfoMsg | main.go:89-97 | The query's message: the error, or the parsed records of the output. App.Run and Screen.ScreenAfterQuery specify it. |
| App.Update | main.go:175-191 | The state changes only with a quit, and no message starts a new query. |
| App.IsQuitKey | main.go:179 | The keys `q`, `ctrl+c` and `esc`. UpdateKey and UpdateQuits state that exactly these quit. |
| App.UpdateKey | main.go:177-190 | Keys never change the model. `q`, `ctrl+c` and `esc` quit, and any other key issues no command. |
| App.UpdateRecords | main.go:182-185 | The records replace the list, the error is cleared, and the program quits. |
| App.UpdateError | main.go:186-188 | The error is stored, the records are kept, and the program quits. |
| App.UpdateQuits | main.go:175-191 | The program quits exactly on a quit key, on the records, or on an error. |
| App.UpdateIdempotent | main.go:175-191 | A derived fact, not one the source states: because every branch of Update either stores the message's payload or leaves the model alone, handling a message twice leaves the same state and command as handling it once. |
| App.Run | main.go:175-188 | From the empty model, Init's query and Update on its outcome quit with either the parsed records or the error. |
| Screen.ViewText | main.go:36-86 | The screen for a model. View equals it, and ViewShowsError, ViewLoading, NothingShown and ScreenAfterQuery specify it. |
| Screen.Displayed | main.go:58 | The loop's test for a record to show. DisplayedIsPath, ShownRecords and ParsedShown specify it. |
| Screen.DeviceBlock | main.go:59-81 | The block of one shown record: its filesystem, three sizes, percentage, mount point and bar, each line ending in a newline, then a blank line. View and BlocksStep tie it to the loop body. |
| Screen.Blocks | main.go:56-85 | The shown records' blocks in list order. BlocksStep, BlocksAppend and BlocksOfShown specify it. |
| Screen.View | main.go:36-86 | The early returns and the loop over the records build exactly `ViewText(m)`. |
| Screen.BlocksStep | main.go:56-83 | Each step of the loop appends the current record's block, or nothing for a record that is not shown. |
| Screen.ViewShowsError | main.go:37-39 | With an error, the screen is "Error: " followed by the error, whatever the records are. |
| Screen.ViewLoading | main.go:41-43 | With no error and no records, the screen is the loading notice. |
| Screen.BlocksAppend | main.go:56-83 | The blocks of two lists in a row are the first list's blocks followed by the second's. |
| Screen.BlocksOfShown | main.go:56-83 | The screen depends only on the shown records, taken in list order. |
| Screen.ShownRecords | main.go:56-58 | A record is shown exactly when it is in the list and its filesystem starts with `/`. |
| Screen.DisplayedIsPath | main.go:58 | The test for `/dev` adds nothing to the test for `/`. |
| Screen.ParsedShown | main.go:58 | A parsed record is shown exactly when it is not a `tmpfs` or `devtmpfs` one. |
| Screen.PrefixesExclusive | main.go:112 | Among the three parser prefixes, `/` excludes the other two. |
| Screen.NothingShown | main.go:41-85 | A non-empty list made only of records that are not shown gives an empty screen, not the loading notice. |
| Screen.ScreenAfterQuery | main.go:36-86 | After the query's message the screen is the error, the loading notice when nothing was parsed, or the parsed records' blocks. |

## Left out

- Running `df -k` through `os/exec` (main.go:89-97) is process I/O. Its outcome, the report text or the failure's message, is a parameter of `App.DiskInfoMsg`.
- The colours from `lipgloss` (main.go:48-53 and each `Render` call) are not modelled. Each styled piece is its plain text, so the screen text carries no escape codes.
- Bubble Tea's runtime, `KeyMsg.String()` and `main` (main.go:193-198) are not modelled. A key press is represented by its name, and an error by its text as `%v` prints it.
- SizeFormat.FormatSize: computes the printed digits on exact integers. The source divides as `float64`. That is exact for sizes below 2^53 bytes, and for every whole number of kilobytes within int64, so for every size the parser produces. The model does not capture the float rounding of other sizes.
- UsageBar.UsedCells: computes `p * 30 / 100` truncated toward zero on integers. This stands in for the source's `int(float64(p) / 100.0 * 30)`, and gives the same count for |p| < 410, which includes every percentage the bar can be drawn for (-3 to 103). From 410 on the float product can fall just below a whole number, for example 122.99… for 410, so the source's count can be one less.
- DiskParser.ParseFields: the words are taken free of every Unicode space, not only of `\s`. A field holding a vertical tab or a no-break space inside it is not covered by this lemma or by ParseRow, although the parser keeps such a field whole.
- Decimal.ParseDecimal: integers are unbounded. The saturation of `strconv.ParseInt` and `Atoi` at the `int64` range is not modelled.
- DiskParser.RecordOf: the `int64` overflow of `* 1024` is not modelled.
- Strings are sequences of Unicode code points, while Go's strings are bytes. Invalid UTF-8 and any byte-level slicing are not modelled.
- A negative count in `strings.Repeat` makes the source panic. The model makes it a precondition instead: `Screen.View` requires, through `Screen.CanView`, that every shown record's percentage can be drawn.
- On these points the model follows the code's behaviour, which may be unexpected:
  - The used cells are truncated toward zero, not floored. For example, -1 percent gives 0 cells, not -1.
  - A number that does not parse reads as 0, and the row is kept.
  - `formatSize` also handles negative sizes, printing them as "%d B".
  - `strings.TrimSpace` trims Unicode spaces, while the tokenizer splits only on `\t`, `\n`, `\f`, `\r` and blank. A vertical tab inside a line is part of a field.
