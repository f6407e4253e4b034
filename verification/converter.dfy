/**
 * `convertToMarkdown`: a requirements spreadsheet exported as CSV becomes
 * a Markdown document. The first four non-empty lines are a fixed header
 * (line 1 names the document); every later line is split naively on
 * commas, and columns 1-4 (dai / chu / sho / shosai: large, medium and
 * small heading, detail) each become a line of the output unless they
 * are empty or "-".
 *
 * Two blank-line policies exist in the history of the application:
 *  - EveryHeading (ver0.14, ver0.15): "\n" before every heading field;
 *  - PerHeadingRow (ver0.11, ver0.13): one "\n" before a row that has a
 *    heading field, and only when something has been written already.
 * Both are modelled; `SameNonEmptyLines` shows they agree line for line
 * once blank lines are dropped.
 */
module Converter {
  import opened Text

  const InsufficientMessage: string := "CSV file must have at least 5 lines."
  const DefaultFileName: string := "converted"
  const DocumentMarker: string := "要件定義書"
  const FileNamePrefix: string := "要件定義書_"
  const MinLines: nat := 5
  const HeaderLines: nat := 4

  datatype Level = H1 | H2 | H3

  /**
   * One emitted piece of a row with its role: headings are shown in the
   * accent colour, details in the body colour.
   */
  datatype Segment = Heading(level: Level, title: string) | Detail(text: string)

  /** Columns 1-4 of a data row, trimmed. */
  datatype Row = Row(dai: string, chu: string, sho: string, shosai: string)

  datatype Policy = EveryHeading | PerHeadingRow

  /**
   * The state `convertToMarkdown` leaves behind: the file name used by
   * the save dialogs and the summary, the Markdown text, and whether the
   * conversion went through (only then is the summary recomputed).
   */
  datatype Conversion = Conversion(fileName: string, markdown: string, converted: bool)

  /** A field counts unless it is empty or the placeholder "-". */
  predicate Present(f: string) {
    f != "" && f != "-"
  }

  /* ---------------------------------------------------------------- */
  /* Rows                                                              */
  /* ---------------------------------------------------------------- */

  function Field(r: Row, k: nat): string
    requires k < 4
  {
    match k
    case 0 => r.dai
    case 1 => r.chu
    case 2 => r.sho
    case 3 => r.shosai
  }

  /**
   * A data line as the converter sees it: `None` when the comma split
   * has 4 or fewer columns (the line is skipped), otherwise columns 1-4
   * trimmed of whitespace and newlines; later columns are ignored.
   */
  function ParseRow(line: string): (r: Option<Row>)
    ensures r.None? <==> |Split(line, Char(','))| <= 4
    ensures r.Some? ==> forall k :: 0 <= k < 4 ==> IsTrimmed(Field(r.value, k), WhitespacesAndNewlines)
  {
    var cols := Split(line, Char(','));
    if |cols| <= 4 then None
    else Some(Row(Trim(cols[1], WhitespacesAndNewlines), Trim(cols[2], WhitespacesAndNewlines),
                  Trim(cols[3], WhitespacesAndNewlines), Trim(cols[4], WhitespacesAndNewlines)))
  }

  /** Fields cut from a newline-free line are newline-free. */
  lemma ParseRowSingleLine(line: string)
    requires SingleLine(line) && ParseRow(line).Some?
    ensures forall k :: 0 <= k < 4 ==> SingleLine(Field(ParseRow(line).value, k))
  {
    var cols := Split(line, Char(','));
    forall k | 1 <= k <= 4 ensures SingleLine(Trim(cols[k], WhitespacesAndNewlines)) {
      SplitSingleLine(line, Char(','), k);
      TrimSingleLine(cols[k], WhitespacesAndNewlines);
    }
  }

  /* ---------------------------------------------------------------- */
  /* What a row emits                                                  */
  /* ---------------------------------------------------------------- */

  /** Position of a segment in the fixed emission order H1, H2, H3, detail. */
  function Rank(s: Segment): nat {
    match s
    case Heading(H1, _) => 0
    case Heading(H2, _) => 1
    case Heading(H3, _) => 2
    case Detail(_) => 3
  }

  function SegmentText(s: Segment): string {
    match s
    case Heading(_, t) => t
    case Detail(t) => t
  }

  /** Column `k + 1` (k = 0..3) read as a heading of level k + 1, or as the detail for k = 3. */
  function MakeSegment(k: nat, text: string): (s: Segment)
    requires k < 4
    ensures Rank(s) == k && SegmentText(s) == text
  {
    match k
    case 0 => Heading(H1, text)
    case 1 => Heading(H2, text)
    case 2 => Heading(H3, text)
    case 3 => Detail(text)
  }

  /** The segments of fields `k` to 3: one per present field, in column order. */
  function SegmentsFrom(r: Row, k: nat): seq<Segment>
    requires k <= 4
    decreases 4 - k
  {
    if k == 4 then []
    else (if Present(Field(r, k)) then [MakeSegment(k, Field(r, k))] else []) + SegmentsFrom(r, k + 1)
  }

  /** What a row emits, as segments with their roles. */
  function Segments(r: Row): seq<Segment> {
    SegmentsFrom(r, 0)
  }

  /** Segments of fields `k` to 3 have ranks from `k` up, strictly increasing. */
  lemma {:induction false} SegmentsFromRanks(r: Row, k: nat)
    requires k <= 4
    ensures var segs := SegmentsFrom(r, k);
            && |segs| <= 4 - k
            && (forall i :: 0 <= i < |segs| ==> k <= Rank(segs[i]) < 4)
            && (forall i, j :: 0 <= i < j < |segs| ==> Rank(segs[i]) < Rank(segs[j]))
    decreases 4 - k
  {
    if k < 4 {
      SegmentsFromRanks(r, k + 1);
      var segs := SegmentsFrom(r, k);
      var rest := SegmentsFrom(r, k + 1);
      if Present(Field(r, k)) {
        assert forall i :: 0 < i < |segs| ==> segs[i] == rest[i - 1];
      }
    }
  }

  /** Each segment of fields `k` to 3 carries the text of the present field of its rank. */
  lemma {:induction false} SegmentsFromTexts(r: Row, k: nat)
    requires k <= 4
    ensures var segs := SegmentsFrom(r, k);
            forall i :: 0 <= i < |segs| ==> Present(SegmentText(segs[i])) && SegmentText(segs[i]) == Field(r, Rank(segs[i]))
    decreases 4 - k
  {
    if k < 4 {
      SegmentsFromTexts(r, k + 1);
      var segs := SegmentsFrom(r, k);
      var rest := SegmentsFrom(r, k + 1);
      if Present(Field(r, k)) {
        assert forall i :: 0 < i < |segs| ==> segs[i] == rest[i - 1];
      }
    }
  }

  /** A field from `k` on yields its segment exactly when it is present. */
  lemma {:induction false} SegmentsFromComplete(r: Row, k: nat)
    requires k <= 4
    ensures forall j :: k <= j < 4 ==> (Present(Field(r, j)) <==> MakeSegment(j, Field(r, j)) in SegmentsFrom(r, k))
    decreases 4 - k
  {
    if k < 4 {
      SegmentsFromComplete(r, k + 1);
      SegmentsFromRanks(r, k + 1);
    }
  }

  /**
   * A row yields at most four segments, strictly in the order H1, H2,
   * H3, detail; each carries its own column's text, and a column yields
   * a segment exactly when it is present.
   */
  lemma SegmentsSpec(r: Row)
    ensures var segs := Segments(r);
            && |segs| <= 4
            && (forall i, j :: 0 <= i < j < |segs| ==> Rank(segs[i]) < Rank(segs[j]))
            && (forall i :: 0 <= i < |segs| ==> Present(SegmentText(segs[i])) && SegmentText(segs[i]) == Field(r, Rank(segs[i])))
            && (forall k :: 0 <= k < 4 ==> (Present(Field(r, k)) <==> MakeSegment(k, Field(r, k)) in segs))
  {
    SegmentsFromRanks(r, 0);
    SegmentsFromTexts(r, 0);
    SegmentsFromComplete(r, 0);
  }

  function Hashes(l: Level): string {
    match l
    case H1 => "#"
    case H2 => "##"
    case H3 => "###"
  }

  /** The visible line of a segment: "# X", "## X", "### X" or the detail itself. */
  function SegmentLine(s: Segment): string {
    match s
    case Heading(l, t) => Hashes(l) + " " + t
    case Detail(t) => t
  }

  /** The visible line of field `k`. */
  function FieldLine(r: Row, k: nat): string
    requires k < 4
  {
    SegmentLine(MakeSegment(k, Field(r, k)))
  }

  /** The visible lines of fields `k` to 3, one per present field, without blank lines. */
  function RowLinesFrom(r: Row, k: nat): seq<string>
    requires k <= 4
    decreases 4 - k
  {
    if k == 4 then []
    else (if Present(Field(r, k)) then [FieldLine(r, k)] else []) + RowLinesFrom(r, k + 1)
  }

  function RowLines(r: Row): seq<string> {
    RowLinesFrom(r, 0)
  }

  /** A present field's line is among the row's lines. */
  lemma {:induction false} FieldLineInRow(r: Row, j: nat, k: nat)
    requires j <= k < 4 && Present(Field(r, k))
    ensures FieldLine(r, k) in RowLinesFrom(r, j)
    decreases k - j
  {
    if j < k {
      FieldLineInRow(r, j + 1, k);
    }
  }

  /** The visible lines are the segments' lines, in segment order. */
  lemma {:induction false} RowLinesAreSegmentLines(r: Row, k: nat)
    requires k <= 4
    ensures var segs := SegmentsFrom(r, k);
            |RowLinesFrom(r, k)| == |segs| && forall i :: 0 <= i < |segs| ==> RowLinesFrom(r, k)[i] == SegmentLine(segs[i])
    decreases 4 - k
  {
    if k < 4 {
      RowLinesAreSegmentLines(r, k + 1);
    }
  }

  /** ver0.14 / ver0.15 text of fields `k` to 3: "\n# X\n", "\n## X\n", "\n### X\n", "X\n" per present field. */
  function EveryHeadingTextFrom(r: Row, k: nat): string
    requires k <= 4
    decreases 4 - k
  {
    if k == 4 then "" else EveryHeadingFieldText(r, k) + EveryHeadingTextFrom(r, k + 1)
  }

  /** ver0.14 / ver0.15 text of one field: headings get a blank line before them. */
  function EveryHeadingFieldText(r: Row, k: nat): string
    requires k < 4
  {
    if !Present(Field(r, k)) then "" else if k < 3 then "\n" + FieldLine(r, k) + "\n" else FieldLine(r, k) + "\n"
  }

  function EveryHeadingRowText(r: Row): string {
    EveryHeadingTextFrom(r, 0)
  }

  /** ver0.11 / ver0.13 text of fields `k` to 3: "# X\n", "## X\n", "### X\n", "X\n" per present field. */
  function PlainTextFrom(r: Row, k: nat): string
    requires k <= 4
    decreases 4 - k
  {
    if k == 4 then ""
    else (if Present(Field(r, k)) then FieldLine(r, k) + "\n" else "") + PlainTextFrom(r, k + 1)
  }

  /** A row with a heading field (columns 1-3); only such rows get the ver0.11 / ver0.13 blank line. */
  predicate HasHeadingField(r: Row) {
    Present(r.dai) || Present(r.chu) || Present(r.sho)
  }

  /**
   * One iteration of the ver0.11 / ver0.13 loop body for a parsed row: a
   * row with a heading field first gets "\n" when the output is not
   * empty; the detail is written whether or not the row had headings.
   */
  function PerHeadingRowText(out: string, r: Row): string {
    out + (if HasHeadingField(r) && |out| > 0 then "\n" else "") + PlainTextFrom(r, 0)
  }

  /** The lines of the ver0.14 / ver0.15 text of fields `k` to 3, the blank line before each heading included. */
  function EveryHeadingLinesFrom(r: Row, k: nat): seq<string>
    requires k <= 4
    decreases 4 - k
  {
    if k == 4 then [] else EveryHeadingFieldLines(r, k) + EveryHeadingLinesFrom(r, k + 1)
  }

  function EveryHeadingFieldLines(r: Row, k: nat): seq<string>
    requires k < 4
  {
    if !Present(Field(r, k)) then [] else if k < 3 then ["", FieldLine(r, k)] else [FieldLine(r, k)]
  }

  function EveryHeadingRowLines(r: Row): seq<string> {
    EveryHeadingLinesFrom(r, 0)
  }

  /** A field line is never empty: headings carry their hashes, details are present fields. */
  lemma FieldLineNonEmpty(r: Row, k: nat)
    requires k < 4 && Present(Field(r, k))
    ensures FieldLine(r, k) != []
  {
  }

  lemma EveryHeadingFieldUnlines(r: Row, k: nat)
    requires k < 4
    ensures EveryHeadingFieldText(r, k) == Unlines(EveryHeadingFieldLines(r, k))
    ensures FilterNonEmpty(EveryHeadingFieldLines(r, k)) == if Present(Field(r, k)) then [FieldLine(r, k)] else []
  {
    if Present(Field(r, k)) {
      FieldLineNonEmpty(r, k);
      var l := FieldLine(r, k);
      if k < 3 {
        assert EveryHeadingFieldLines(r, k) == ["", l];
        assert Unlines(["", l]) == "" + "\n" + (l + "\n" + "");
        assert ["", l][1..] == [l];
        assert FilterNonEmpty(["", l]) == FilterNonEmpty([l]);
      }
    }
  }

  /**
   * The ver0.14 / ver0.15 text of fields `k` to 3 is its line list with a
   * newline after each line, and dropping the blank lines leaves the
   * visible lines.
   */
  lemma {:induction false} EveryHeadingUnlinesFrom(r: Row, k: nat)
    requires k <= 4
    ensures EveryHeadingTextFrom(r, k) == Unlines(EveryHeadingLinesFrom(r, k))
    ensures FilterNonEmpty(EveryHeadingLinesFrom(r, k)) == RowLinesFrom(r, k)
    decreases 4 - k
  {
    if k < 4 {
      EveryHeadingUnlinesFrom(r, k + 1);
      EveryHeadingFieldUnlines(r, k);
      UnlinesAppend(EveryHeadingFieldLines(r, k), EveryHeadingLinesFrom(r, k + 1));
      FilterNonEmptyAppend(EveryHeadingFieldLines(r, k), EveryHeadingLinesFrom(r, k + 1));
    }
  }

  lemma EveryHeadingRowUnlines(r: Row)
    ensures EveryHeadingRowText(r) == Unlines(EveryHeadingRowLines(r))
    ensures FilterNonEmpty(EveryHeadingRowLines(r)) == RowLines(r)
  {
    EveryHeadingUnlinesFrom(r, 0);
  }

  /** The ver0.11 / ver0.13 text of fields `k` to 3 is their visible lines, each followed by a newline. */
  lemma {:induction false} PlainUnlinesFrom(r: Row, k: nat)
    requires k <= 4
    ensures PlainTextFrom(r, k) == Unlines(RowLinesFrom(r, k))
    ensures FilterNonEmpty(RowLinesFrom(r, k)) == RowLinesFrom(r, k)
    decreases 4 - k
  {
    if k < 4 {
      PlainUnlinesFrom(r, k + 1);
      var head := if Present(Field(r, k)) then [FieldLine(r, k)] else [];
      UnlinesAppend(head, RowLinesFrom(r, k + 1));
      FilterNonEmptyAppend(head, RowLinesFrom(r, k + 1));
      if Present(Field(r, k)) {
        FieldLineNonEmpty(r, k);
      }
    }
  }

  /**
   * The ver0.11 / ver0.13 step appends to the output at most one blank
   * line (only for a heading row after earlier output) and then the
   * row's visible lines.
   */
  lemma PerHeadingRowUnlines(out: string, r: Row)
    ensures PerHeadingRowText(out, r)
            == out + (if HasHeadingField(r) && |out| > 0 then "\n" else "") + Unlines(RowLines(r))
    ensures FilterNonEmpty(RowLines(r)) == RowLines(r)
  {
    PlainUnlinesFrom(r, 0);
  }

  lemma HeadLineSingle(h: string, t: string)
    requires SingleLine(h) && SingleLine(t)
    ensures SingleLine(h + t)
  {
    forall k | 0 <= k < |h + t| ensures !IsNewline((h + t)[k]) {
      if k >= |h| {
        assert (h + t)[k] == t[k - |h|];
      }
    }
  }

  lemma FieldLineSingle(r: Row, k: nat)
    requires k < 4 && SingleLine(Field(r, k))
    ensures SingleLine(FieldLine(r, k))
  {
    if k < 3 {
      HeadLineSingle(Hashes(MakeSegment(k, Field(r, k)).level) + " ", Field(r, k));
    }
  }

  /** Newline-free fields give newline-free visible lines. */
  lemma {:induction false} RowLinesSingleFrom(r: Row, k: nat)
    requires k <= 4
    requires forall j :: k <= j < 4 ==> SingleLine(Field(r, j))
    ensures forall i :: 0 <= i < |RowLinesFrom(r, k)| ==> SingleLine(RowLinesFrom(r, k)[i])
    decreases 4 - k
  {
    if k < 4 {
      RowLinesSingleFrom(r, k + 1);
      var ha := if Present(Field(r, k)) then [FieldLine(r, k)] else [];
      assert forall i :: 0 <= i < |ha| ==> SingleLine(ha[i]) by {
        FieldLineSingle(r, k);
      }
      SingleLinesAppend(ha, RowLinesFrom(r, k + 1));
    }
  }

  /** Newline-free fields give newline-free lines under ver0.14 / ver0.15, blank lines included. */
  lemma {:induction false} EveryHeadingLinesSingleFrom(r: Row, k: nat)
    requires k <= 4
    requires forall j :: k <= j < 4 ==> SingleLine(Field(r, j))
    ensures forall i :: 0 <= i < |EveryHeadingLinesFrom(r, k)| ==> SingleLine(EveryHeadingLinesFrom(r, k)[i])
    decreases 4 - k
  {
    if k < 4 {
      EveryHeadingLinesSingleFrom(r, k + 1);
      var hb := EveryHeadingFieldLines(r, k);
      assert forall i :: 0 <= i < |hb| ==> SingleLine(hb[i]) by {
        FieldLineSingle(r, k);
      }
      SingleLinesAppend(hb, EveryHeadingLinesFrom(r, k + 1));
    }
  }

  /* ---------------------------------------------------------------- */
  /* Rendering the data lines                                          */
  /* ---------------------------------------------------------------- */

  /** A data line under ver0.14 / ver0.15: skipped lines contribute nothing. */
  function EveryHeadingLineText(line: string): string {
    match ParseRow(line)
    case None => ""
    case Some(r) => EveryHeadingRowText(r)
  }

  /** A data line under ver0.11 / ver0.13: skipped lines leave the output as it is. */
  function PerHeadingRowStep(out: string, line: string): string {
    match ParseRow(line)
    case None => out
    case Some(r) => PerHeadingRowText(out, r)
  }

  function LineRows(line: string): seq<string> {
    match ParseRow(line)
    case None => []
    case Some(r) => RowLines(r)
  }

  function LineEveryHeadingLines(line: string): seq<string> {
    match ParseRow(line)
    case None => []
    case Some(r) => EveryHeadingRowLines(r)
  }

  /** ver0.14 / ver0.15: the rows' texts, concatenated in line order. */
  function RenderEveryHeading(lines: seq<string>): string {
    MapConcat(EveryHeadingLineText, lines)
  }

  /** ver0.11 / ver0.13: the loop over the data lines, starting from an empty output. */
  function RenderPerHeadingRow(lines: seq<string>): string {
    FoldLeft(PerHeadingRowStep, "", lines)
  }

  function Render(policy: Policy, lines: seq<string>): string {
    match policy
    case EveryHeading => RenderEveryHeading(lines)
    case PerHeadingRow => RenderPerHeadingRow(lines)
  }

  /** The visible lines of every converted row, in line order. */
  function AllRowLines(lines: seq<string>): seq<string> {
    FlatMap(LineRows, lines)
  }

  /* ---------------------------------------------------------------- */
  /* The conversion                                                    */
  /* ---------------------------------------------------------------- */

  /**
   * The file name derived from line 1: "要件定義書_" + column 2 when the
   * comma split has more than 2 columns and column 1 is exactly the
   * marker, "converted" otherwise.
   */
  function FileNameOf(line: string): (name: string)
    ensures var cols := Split(line, Char(','));
            (name != DefaultFileName <==> |cols| > 2 && cols[1] == DocumentMarker)
            && (name != DefaultFileName ==> name == FileNamePrefix + cols[2])
  {
    var cols := Split(line, Char(','));
    if |cols| > 2 && cols[1] == DocumentMarker then
      assert (FileNamePrefix + cols[2])[0] != DefaultFileName[0];
      FileNamePrefix + cols[2]
    else DefaultFileName
  }

  /**
   * `convertToMarkdown` on the text of an already-read file, starting
   * from the file name the view held before.
   */
  function Convert(policy: Policy, previousFileName: string, csv: string): (c: Conversion)
    ensures var lines := NonEmptyLines(csv);
            && (c.converted <==> |lines| >= MinLines)
            && (!c.converted ==> c.fileName == previousFileName && c.markdown == InsufficientMessage)
            && (c.converted ==> c.fileName == FileNameOf(lines[1]) && c.markdown == Render(policy, lines[HeaderLines..]))
  {
    var lines := NonEmptyLines(csv);
    if |lines| < MinLines then Conversion(previousFileName, InsufficientMessage, false)
    else Conversion(FileNameOf(lines[1]), Render(policy, lines[HeaderLines..]), true)
  }

  /* ---------------------------------------------------------------- */
  /* Properties                                                        */
  /* ---------------------------------------------------------------- */

  /** The header lines 0-3 never influence the Markdown. */
  lemma HeaderLinesIgnored(policy: Policy, prev1: string, csv1: string, prev2: string, csv2: string)
    requires |NonEmptyLines(csv1)| >= MinLines && |NonEmptyLines(csv2)| >= MinLines
    requires NonEmptyLines(csv1)[HeaderLines..] == NonEmptyLines(csv2)[HeaderLines..]
    ensures Convert(policy, prev1, csv1).markdown == Convert(policy, prev2, csv2).markdown
  {
  }

  /** A line whose comma split has at most 4 columns contributes nothing under either policy. */
  lemma ShortRowSilent(out: string, line: string)
    requires |Split(line, Char(','))| <= 4
    ensures EveryHeadingLineText(line) == ""
    ensures PerHeadingRowStep(out, line) == out
  {
  }

  /** A row with no present field leaves both outputs unchanged. */
  lemma EmptyRowSilent(out: string, r: Row)
    requires !Present(r.dai) && !Present(r.chu) && !Present(r.sho) && !Present(r.shosai)
    ensures EveryHeadingRowText(r) == ""
    ensures PerHeadingRowText(out, r) == out
  {
  }

  /**
   * The ver0.14 / ver0.15 rendering is a concatenation of per-row
   * outputs in line order: converting two blocks of rows one after the
   * other equals converting them together.
   */
  lemma EveryHeadingConcatenates(a: seq<string>, b: seq<string>)
    ensures RenderEveryHeading(a + b) == RenderEveryHeading(a) + RenderEveryHeading(b)
  {
    MapConcatAppend(EveryHeadingLineText, a, b);
  }

  /** A row's first visible line never starts with a newline. */
  lemma {:induction false} RowLinesHead(r: Row, k: nat)
    requires k <= 4
    requires IsTrimmed(r.shosai, WhitespacesAndNewlines)
    requires RowLinesFrom(r, k) != []
    ensures RowLinesFrom(r, k)[0] != [] && RowLinesFrom(r, k)[0][0] != '\n'
    decreases 4 - k
  {
    if !Present(Field(r, k)) {
      RowLinesHead(r, k + 1);
    } else if k == 3 {
      assert !InClass(r.shosai[0], WhitespacesAndNewlines);
    }
  }

  /** The ver0.11 / ver0.13 output never starts with a blank line. */
  lemma {:induction false} PerHeadingRowNoLeadingNewline(lines: seq<string>)
    ensures var md := RenderPerHeadingRow(lines); md == "" || md[0] != '\n'
    decreases |lines|
  {
    if |lines| > 0 {
      var pre := lines[..|lines| - 1];
      var line := lines[|lines| - 1];
      PerHeadingRowNoLeadingNewline(pre);
      var out := RenderPerHeadingRow(pre);
      assert RenderPerHeadingRow(lines) == PerHeadingRowStep(out, line);
      if out == "" && ParseRow(line).Some? {
        var r := ParseRow(line).value;
        PerHeadingRowUnlines(out, r);
        if RowLines(r) != [] {
          RowLinesHead(r, 0);
          assert Unlines(RowLines(r))[0] == RowLines(r)[0][0];
        }
      }
    }
  }

  /* ---------------------------------------------------------------- */
  /* Both policies have the same non-empty lines                       */
  /* ---------------------------------------------------------------- */

  lemma LineFieldsSingle(line: string)
    requires SingleLine(line)
    ensures forall i :: 0 <= i < |LineRows(line)| ==> SingleLine(LineRows(line)[i])
    ensures forall i :: 0 <= i < |LineEveryHeadingLines(line)| ==> SingleLine(LineEveryHeadingLines(line)[i])
  {
    if ParseRow(line).Some? {
      var r := ParseRow(line).value;
      ParseRowSingleLine(line);
      assert SingleLine(Field(r, 0)) && SingleLine(Field(r, 1)) && SingleLine(Field(r, 2)) && SingleLine(Field(r, 3));
      RowLinesSingleFrom(r, 0);
      EveryHeadingLinesSingleFrom(r, 0);
    }
  }

  /** The ver0.14 / ver0.15 rendering re-read line by line yields exactly the rows' visible lines. */
  lemma EveryHeadingNonEmptyLines(lines: seq<string>)
    requires forall i :: 0 <= i < |lines| ==> SingleLine(lines[i])
    ensures NonEmptyLines(RenderEveryHeading(lines)) == AllRowLines(lines)
  {
    forall i | 0 <= i < |lines|
      ensures EveryHeadingLineText(lines[i]) == Unlines(LineEveryHeadingLines(lines[i]))
      ensures FilterNonEmpty(LineEveryHeadingLines(lines[i])) == LineRows(lines[i])
      ensures forall j :: 0 <= j < |LineEveryHeadingLines(lines[i])| ==> SingleLine(LineEveryHeadingLines(lines[i])[j])
    {
      LineFieldsSingle(lines[i]);
      if ParseRow(lines[i]).Some? {
        EveryHeadingRowUnlines(ParseRow(lines[i]).value);
      }
    }
    MapConcatUnlines(EveryHeadingLineText, LineEveryHeadingLines, lines);
    FlatMapFilter(LineEveryHeadingLines, LineRows, lines);
    FlatMapSingleLine(LineEveryHeadingLines, lines);
    NonEmptyLinesOfUnlines(FlatMap(LineEveryHeadingLines, lines));
  }

  /** The blank line a ver0.11 / ver0.13 step writes before the row, as a line list. */
  function StepSeparator(out: string, line: string): seq<string> {
    if ParseRow(line).Some? && HasHeadingField(ParseRow(line).value) && |out| > 0 then [""] else []
  }

  /** One ver0.11 / ver0.13 step as lines: an optional blank line, then the row's visible lines. */
  lemma PerHeadingRowStepLines(out: string, line: string)
    ensures PerHeadingRowStep(out, line) == out + Unlines(StepSeparator(out, line) + LineRows(line))
  {
    var sep := StepSeparator(out, line);
    match ParseRow(line)
    case None =>
      assert sep + LineRows(line) == [];
      assert out + Unlines([]) == out;
    case Some(r) =>
      var x := if HasHeadingField(r) && |out| > 0 then "\n" else "";
      var u := Unlines(RowLines(r));
      assert PerHeadingRowStep(out, line) == out + x + u by {
        PerHeadingRowUnlines(out, r);
      }
      assert Unlines(sep + LineRows(line)) == x + u by {
        UnlinesAppend(sep, RowLines(r));
        SeparatorText(sep, x);
      }
      AppendAssoc(out, x, u);
  }

  lemma SeparatorText(sep: seq<string>, x: string)
    requires sep == [] || sep == [""]
    requires x == if sep == [] then "" else "\n"
    ensures Unlines(sep) == x
  {
    if sep == [""] {
      assert Unlines(sep) == "" + "\n" + Unlines([]);
    }
  }

  /** The blank line of a step disappears once blank lines are dropped. */
  lemma PerHeadingRowStepFiltered(out: string, line: string)
    ensures FilterNonEmpty(StepSeparator(out, line) + LineRows(line)) == LineRows(line)
  {
    FilterNonEmptyAppend(StepSeparator(out, line), LineRows(line));
    if ParseRow(line).Some? {
      PerHeadingRowUnlines(out, ParseRow(line).value);
    }
  }

  /** All lines (blank ones included) of the ver0.11 / ver0.13 rendering. */
  ghost function PerHeadingRowAllLines(lines: seq<string>): (all: seq<string>)
    requires forall i :: 0 <= i < |lines| ==> SingleLine(lines[i])
    ensures RenderPerHeadingRow(lines) == Unlines(all)
    ensures FilterNonEmpty(all) == AllRowLines(lines)
    ensures forall i :: 0 <= i < |all| ==> SingleLine(all[i])
  {
    if |lines| == 0 then []
    else
      var prefix := lines[..|lines| - 1];
      var line := lines[|lines| - 1];
      var pre := PerHeadingRowAllLines(prefix);
      var out := RenderPerHeadingRow(prefix);
      var step := StepSeparator(out, line) + LineRows(line);
      PerHeadingRowStepLines(out, line);
      PerHeadingRowStepFiltered(out, line);
      LineFieldsSingle(line);
      SingleLinesAppend(StepSeparator(out, line), LineRows(line));
      SingleLinesAppend(pre, step);
      UnlinesAppend(pre, step);
      FilterNonEmptyAppend(pre, step);
      assert RenderPerHeadingRow(lines) == PerHeadingRowStep(out, line);
      assert AllRowLines(lines) == AllRowLines(prefix) + LineRows(line);
      pre + step
  }

  /**
   * Cross-version agreement: for the same rows, the two blank-line
   * policies produce the same sequence of non-empty lines, namely the
   * rows' visible lines.
   */
  lemma SameNonEmptyLines(lines: seq<string>)
    requires forall i :: 0 <= i < |lines| ==> SingleLine(lines[i])
    ensures NonEmptyLines(RenderEveryHeading(lines)) == NonEmptyLines(RenderPerHeadingRow(lines))
    ensures NonEmptyLines(RenderPerHeadingRow(lines)) == AllRowLines(lines)
  {
    EveryHeadingNonEmptyLines(lines);
    var all := PerHeadingRowAllLines(lines);
    NonEmptyLinesOfUnlines(all);
  }

  /**
   * A line made of at least five comma-free columns joined with commas
   * parses to columns 1-4, trimmed; column 0 and columns past 4 are
   * ignored.
   */
  lemma ParseJoinedColumns(cols: seq<string>)
    requires |cols| >= 5
    requires forall i :: 0 <= i < |cols| ==> NoSep(cols[i], Char(','))
    ensures ParseRow(Join(cols, ",")) == Some(Row(Trim(cols[1], WhitespacesAndNewlines), Trim(cols[2], WhitespacesAndNewlines),
                                                  Trim(cols[3], WhitespacesAndNewlines), Trim(cols[4], WhitespacesAndNewlines)))
  {
    SplitJoin(cols, ',');
  }

  /**
   * The worked example of a data row: dai "-", chu "Overview", sho empty,
   * detail "Some text" gives the heading "## Overview" and the body line
   * "Some text", with a blank line before the heading only under the
   * ver0.14 / ver0.15 policy.
   */
  lemma OverviewRowExample(r: Row)
    requires r == Row("-", "Overview", "", "Some text")
    ensures Segments(r) == [Heading(H2, "Overview"), Detail("Some text")]
    ensures RowLines(r) == ["## Overview", "Some text"]
    ensures EveryHeadingRowLines(r) == ["", "## Overview", "Some text"]
  {
    assert !Present(Field(r, 0)) && Present(Field(r, 1)) && !Present(Field(r, 2)) && Present(Field(r, 3));
    assert FieldLine(r, 1) == "## Overview";
    assert FieldLine(r, 3) == "Some text";
  }
}
