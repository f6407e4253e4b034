/**
 * The application's two steps together: a CSV is converted to Markdown,
 * then the Markdown is read back into the heading dictionary that the
 * summary is built from.
 */
module Pipeline {
  import opened Text
  import opened Converter
  import HeadingMap
  import Summary

  /** The heading dictionary of a conversion's Markdown. */
  function SectionsOf(c: Conversion): map<string, seq<string>> {
    HeadingMap.Sections(NonEmptyLines(c.markdown))
  }

  /** The lines of a CSV after its header lines: the ones that can become rows. */
  function DataLines(csv: string): seq<string>
    requires |NonEmptyLines(csv)| >= HeaderLines
  {
    NonEmptyLines(csv)[HeaderLines..]
  }

  /** The data rows of a CSV are single lines. */
  lemma RowsSingle(csv: string)
    requires |NonEmptyLines(csv)| >= HeaderLines
    ensures var rows := NonEmptyLines(csv)[HeaderLines..];
            forall i :: 0 <= i < |rows| ==> SingleLine(rows[i])
  {
    var lines := NonEmptyLines(csv);
    var rows := lines[HeaderLines..];
    forall i | 0 <= i < |rows| ensures SingleLine(rows[i]) {
      assert rows[i] == lines[i + HeaderLines];
    }
  }

  /** Either policy renders rows whose non-empty lines are exactly the rows' visible lines. */
  lemma RenderedLines(policy: Policy, rows: seq<string>)
    requires forall i :: 0 <= i < |rows| ==> SingleLine(rows[i])
    ensures NonEmptyLines(Render(policy, rows)) == AllRowLines(rows)
  {
    SameNonEmptyLines(rows);
  }

  /**
   * The blank-line policies of ver0.11/ver0.13 and ver0.14/ver0.15 give
   * Markdown with the same non-empty lines, so the summaries read the
   * same heading dictionary from either.
   */
  lemma PoliciesAgree(previousFileName: string, csv: string)
    ensures var a := Convert(EveryHeading, previousFileName, csv);
            var b := Convert(PerHeadingRow, previousFileName, csv);
            a.fileName == b.fileName
            && NonEmptyLines(a.markdown) == NonEmptyLines(b.markdown)
            && SectionsOf(a) == SectionsOf(b)
  {
    var lines := NonEmptyLines(csv);
    if |lines| >= MinLines {
      RowsSingle(csv);
      var rows := lines[HeaderLines..];
      assert NonEmptyLines(Render(EveryHeading, rows)) == AllRowLines(rows) by {
        RenderedLines(EveryHeading, rows);
      }
      assert NonEmptyLines(Render(PerHeadingRow, rows)) == AllRowLines(rows) by {
        RenderedLines(PerHeadingRow, rows);
      }
    }
  }

  /** The non-empty lines of converted Markdown are exactly the rows' visible lines. */
  lemma ConvertedLines(policy: Policy, previousFileName: string, csv: string)
    requires Convert(policy, previousFileName, csv).converted
    ensures NonEmptyLines(Convert(policy, previousFileName, csv).markdown) == AllRowLines(DataLines(csv))
  {
    var rows := DataLines(csv);
    assert Convert(policy, previousFileName, csv).markdown == Render(policy, rows);
    RowsSingle(csv);
    RenderedLines(policy, rows);
  }

  /** The line of a heading field without "#" is a heading line named by the field. */
  lemma FieldLineIsHeading(r: Row, k: nat)
    requires k < 3 && '#' !in Field(r, k) && IsTrimmed(Field(r, k), WhitespacesAndNewlines)
    ensures HeadingMap.IsHeadingLine(FieldLine(r, k)) && HeadingMap.HeadingKey(FieldLine(r, k)) == Field(r, k)
  {
    var level := MakeSegment(k, Field(r, k)).level;
    assert FieldLine(r, k) == Hashes(level) + " " + Field(r, k);
    assert forall n :: 0 <= n < |Hashes(level)| ==> Hashes(level)[n] == '#';
    HeadingMap.HeadingKeyOfTitle(Hashes(level), Field(r, k));
  }

  /** A present field of a data row is among the visible lines of all rows. */
  lemma FieldLineListed(rows: seq<string>, i: int, r: Row, k: nat)
    requires 0 <= i < |rows| && ParseRow(rows[i]) == Some(r)
    requires k < 4 && Present(Field(r, k))
    ensures FieldLine(r, k) in AllRowLines(rows)
  {
    assert FieldLine(r, k) in LineRows(rows[i]) by {
      FieldLineInRow(r, 0, k);
    }
    FlatMapMember(LineRows, rows, i, FieldLine(r, k));
  }

  /** A heading field without "#" of one of the rows names a section of the rows' visible lines. */
  lemma RowFieldIsKey(rows: seq<string>, i: int, r: Row, k: nat)
    requires 0 <= i < |rows| && ParseRow(rows[i]) == Some(r)
    requires k < 3 && Present(Field(r, k)) && '#' !in Field(r, k)
    ensures Field(r, k) in HeadingMap.Sections(AllRowLines(rows))
  {
    var md := AllRowLines(rows);
    var line := FieldLine(r, k);
    FieldLineListed(rows, i, r, k);
    var j :| 0 <= j < |md| && md[j] == line;
    assert HeadingMap.IsHeadingLine(line) && HeadingMap.HeadingKey(line) == Field(r, k) by {
      assert IsTrimmed(Field(r, k), WhitespacesAndNewlines);
      FieldLineIsHeading(r, k);
    }
    HeadingMap.HeadingLineIsKey(HeadingMap.AppReading, md, j);
  }

  /**
   * Round trip: a present heading field (columns 1 to 3) of a data row
   * that contains no "#" comes back as a key of the heading dictionary
   * read from the converted Markdown, whichever policy wrote it.
   */
  lemma HeadingFieldBecomesKey(policy: Policy, previousFileName: string, csv: string, i: int, r: Row, k: nat)
    requires Convert(policy, previousFileName, csv).converted
    requires 0 <= i < |DataLines(csv)| && ParseRow(DataLines(csv)[i]) == Some(r)
    requires k < 3 && Present(Field(r, k)) && '#' !in Field(r, k)
    ensures Field(r, k) in SectionsOf(Convert(policy, previousFileName, csv))
  {
    ConvertedLines(policy, previousFileName, csv);
    RowFieldIsKey(DataLines(csv), i, r, k);
  }

  /**
   * The summary names the project after the CSV's title: for a
   * requirements document the title in column 2 of line 1 comes back,
   * otherwise the fallback name.
   */
  lemma ProjectNameRoundTrip(policy: Policy, previousFileName: string, csv: string)
    requires Convert(policy, previousFileName, csv).converted
    ensures var cols := Split(NonEmptyLines(csv)[1], Char(','));
            var name := Summary.ProjectName(Convert(policy, previousFileName, csv).fileName);
            (|cols| > 2 && cols[1] == DocumentMarker && !Contains(cols[2], FileNamePrefix) ==> name == cols[2])
            && (!(|cols| > 2 && cols[1] == DocumentMarker) ==> name == DefaultFileName)
  {
    var cols := Split(NonEmptyLines(csv)[1], Char(','));
    if |cols| > 2 && cols[1] == DocumentMarker {
      if !Contains(cols[2], FileNamePrefix) {
        Summary.ProjectNameOfDocument(cols[2]);
      }
    } else {
      Summary.ProjectNameOfDefault();
    }
  }
}
