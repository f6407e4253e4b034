/**
 * The first half of `summarizeMarkdown`: the Markdown is read line by
 * line (blank lines already dropped) and every line starting with "#"
 * opens a section named by the line without its "#" characters, trimmed
 * of spaces. Later non-heading lines, trimmed, are appended to the open
 * section; lines before the first heading, and lines under a heading
 * whose name is empty, are dropped. A heading seen again starts its
 * section afresh.
 *
 * `Run` is the loop as written; `SectionOf` and `LastKeyed` describe the
 * result independently (a key's content is what follows its LAST heading
 * up to the next heading), and `RunMatchesReference` proves them equal.
 * Both are stated for any way of naming headings and cleaning content
 * lines (a `Reading`); the application's own is `AppReading`.
 */
module HeadingMap {
  import opened Text

  const Hash: string := "#"

  /** `line.hasPrefix("#")`. */
  predicate IsHeadingLine(line: string) {
    |line| > 0 && line[0] == '#'
  }

  /** The section name of a heading line: every "#" removed, then trimmed of spaces and tabs. */
  function HeadingKey(line: string): string {
    Trim(RemoveAll(line, Hash), Whitespaces)
  }

  /** The section name is the line with every "#" dropped, wherever it stands, then trimmed. */
  lemma HeadingKeyDropsHashes(line: string)
    ensures HeadingKey(line) == Trim(Without(line, {'#'}), Whitespaces)
  {
    RemoveAllChar(line, '#');
  }

  /** A content line as stored: trimmed of whitespace and newlines. */
  function Content(line: string): string {
    Trim(line, WhitespacesAndNewlines)
  }

  /**
   * How heading lines are named and content lines are cleaned. The loop
   * and its reference description only pass these through.
   */
  datatype Reading = Reading(key: string -> string, content: string -> string)

  const AppReading: Reading := Reading(HeadingKey, Content)

  /** The loop state: the open section's name and the dictionary built so far. */
  datatype Extraction = Extraction(current: string, sections: map<string, seq<string>>)

  /**
   * One iteration: a heading line opens (or re-opens, emptied) its
   * section; another line is appended, cleaned, to the open section when
   * one is open and the cleaned line is not empty. The append goes
   * through optional chaining, so it happens only if the open section
   * is in the dictionary (which `RunCurrentIsKey` shows it always is).
   */
  function Step(rd: Reading, e: Extraction, line: string): Extraction {
    if IsHeadingLine(line) then
      var key := rd.key(line);
      Extraction(key, e.sections[key := []])
    else if e.current != "" && rd.content(line) != "" then
      if e.current in e.sections then
        Extraction(e.current, e.sections[e.current := e.sections[e.current] + [rd.content(line)]])
      else e
    else e
  }

  /** The loop over all lines, from an empty dictionary and no open section. */
  function Run(rd: Reading, lines: seq<string>): Extraction {
    if |lines| == 0 then Extraction("", map[])
    else Step(rd, Run(rd, lines[..|lines| - 1]), lines[|lines| - 1])
  }

  /** `contentByHeading` as the application builds it. */
  function Sections(lines: seq<string>): map<string, seq<string>> {
    Run(AppReading, lines).sections
  }

  /* ---------------------------------------------------------------- */
  /* Reference description                                             */
  /* ---------------------------------------------------------------- */

  /** Index of the last heading line, or -1. */
  function LastHeading(lines: seq<string>): (j: int)
    ensures -1 <= j < |lines|
    ensures j >= 0 ==> IsHeadingLine(lines[j])
  {
    if |lines| == 0 then -1
    else if IsHeadingLine(lines[|lines| - 1]) then |lines| - 1
    else LastHeading(lines[..|lines| - 1])
  }

  /** Index of the last heading line whose section name is `k`, or -1. */
  function LastKeyed(rd: Reading, lines: seq<string>, k: string): (j: int)
    ensures -1 <= j < |lines|
    ensures j >= 0 ==> IsHeadingLine(lines[j]) && rd.key(lines[j]) == k
  {
    if |lines| == 0 then -1
    else if IsHeadingLine(lines[|lines| - 1]) && rd.key(lines[|lines| - 1]) == k then |lines| - 1
    else LastKeyed(rd, lines[..|lines| - 1], k)
  }

  lemma {:induction false} LastHeadingIsLast(lines: seq<string>)
    ensures forall m :: LastHeading(lines) < m < |lines| ==> !IsHeadingLine(lines[m])
    decreases |lines|
  {
    if |lines| > 0 && !IsHeadingLine(lines[|lines| - 1]) {
      var pre := lines[..|lines| - 1];
      LastHeadingIsLast(pre);
      assert forall m :: 0 <= m < |pre| ==> pre[m] == lines[m];
    }
  }

  lemma {:induction false} LastKeyedIsLast(rd: Reading, lines: seq<string>, k: string)
    ensures forall m :: LastKeyed(rd, lines, k) < m < |lines| ==> !(IsHeadingLine(lines[m]) && rd.key(lines[m]) == k)
    decreases |lines|
  {
    if |lines| > 0 && !(IsHeadingLine(lines[|lines| - 1]) && rd.key(lines[|lines| - 1]) == k) {
      var pre := lines[..|lines| - 1];
      LastKeyedIsLast(rd, pre, k);
      assert forall m :: 0 <= m < |pre| ==> pre[m] == lines[m];
    }
  }

  /** The name of the section open after all lines: the last heading's, or none. */
  function CurrentKey(rd: Reading, lines: seq<string>): string {
    var j := LastHeading(lines);
    if j < 0 then "" else rd.key(lines[j])
  }

  predicate HasHeadingLine(ls: seq<string>) {
    exists m :: 0 <= m < |ls| && IsHeadingLine(ls[m])
  }

  /** The stored content of the lines up to the first heading line: cleaned, empty ones dropped. */
  function Body(rd: Reading, ls: seq<string>): seq<string> {
    if |ls| == 0 || IsHeadingLine(ls[0]) then []
    else (if rd.content(ls[0]) != "" then [rd.content(ls[0])] else []) + Body(rd, ls[1..])
  }

  /** The content of section `k`: what follows its last heading, none for the empty name. */
  function SectionOf(rd: Reading, lines: seq<string>, k: string): seq<string>
    requires LastKeyed(rd, lines, k) >= 0
  {
    if k == "" then [] else Body(rd, lines[LastKeyed(rd, lines, k) + 1..])
  }

  lemma {:induction false} BodyAppend(rd: Reading, a: seq<string>, b: seq<string>)
    ensures Body(rd, a + b) == if HasHeadingLine(a) then Body(rd, a) else Body(rd, a) + Body(rd, b)
    decreases |a|
  {
    if |a| == 0 {
      assert a + b == b;
    } else {
      assert (a + b)[0] == a[0];
      assert (a + b)[1..] == a[1..] + b;
      if !IsHeadingLine(a[0]) {
        BodyAppend(rd, a[1..], b);
        assert HasHeadingLine(a) <==> HasHeadingLine(a[1..]) by {
          if HasHeadingLine(a) {
            var m :| 0 <= m < |a| && IsHeadingLine(a[m]);
            assert a[1..][m - 1] == a[m];
          }
          if HasHeadingLine(a[1..]) {
            var m :| 0 <= m < |a[1..]| && IsHeadingLine(a[1..][m]);
            assert a[m + 1] == a[1..][m];
          }
        }
        var h := if rd.content(a[0]) != "" then [rd.content(a[0])] else [];
        AppendAssoc(h, Body(rd, a[1..]), Body(rd, b));
      } else {
        assert HasHeadingLine(a);
      }
    }
  }

  /** A single line's body: its cleaned content when it is not a heading and not blank. */
  lemma BodySingle(rd: Reading, l: string)
    ensures Body(rd, [l]) == if !IsHeadingLine(l) && rd.content(l) != "" then [rd.content(l)] else []
  {
    assert [l][1..] == [];
  }

  /* ---------------------------------------------------------------- */
  /* The loop agrees with the reference                                */
  /* ---------------------------------------------------------------- */

  /** After the loop, the open section is the last heading's. */
  lemma {:induction false} RunCurrent(rd: Reading, lines: seq<string>)
    ensures Run(rd, lines).current == CurrentKey(rd, lines)
    decreases |lines|
  {
    if |lines| > 0 {
      RunCurrent(rd, lines[..|lines| - 1]);
    }
  }

  /** A name is a key exactly when some heading line carries it. */
  lemma {:induction false} RunKeys(rd: Reading, lines: seq<string>)
    ensures forall k :: k in Run(rd, lines).sections <==> LastKeyed(rd, lines, k) >= 0
    decreases |lines|
  {
    if |lines| > 0 {
      RunKeys(rd, lines[..|lines| - 1]);
    }
  }

  /** The open section, when there is one, is a key: the optional-chaining append never misses. */
  lemma RunCurrentIsKey(rd: Reading, lines: seq<string>)
    ensures Run(rd, lines).current == "" || Run(rd, lines).current in Run(rd, lines).sections
  {
    RunCurrent(rd, lines);
    RunKeys(rd, lines);
    var j := LastHeading(lines);
    if j >= 0 {
      var k := rd.key(lines[j]);
      assert LastKeyed(rd, lines, k) >= 0 by {
        LastKeyedIsLast(rd, lines, k);
      }
    }
  }

  /** When the last line is a heading, every other section is unchanged by it. */
  lemma SectionAfterHeading(rd: Reading, lines: seq<string>, l: string, k: string)
    requires IsHeadingLine(l) && rd.key(l) != k && LastKeyed(rd, lines, k) >= 0
    ensures LastKeyed(rd, lines + [l], k) == LastKeyed(rd, lines, k)
    ensures SectionOf(rd, lines + [l], k) == SectionOf(rd, lines, k)
  {
    LastKeyedSnoc(rd, lines, l, k);
    var j := LastKeyed(rd, lines, k);
    if k != "" {
      assert (lines + [l])[j + 1..] == lines[j + 1..] + [l];
      assert Body(rd, lines[j + 1..] + [l]) == Body(rd, lines[j + 1..]) by {
        BodyAppend(rd, lines[j + 1..], [l]);
        BodySingle(rd, l);
      }
    }
  }

  /** Lines after the last heading hold no heading. */
  lemma NoHeadingAfterLast(lines: seq<string>)
    ensures !HasHeadingLine(lines[LastHeading(lines) + 1..])
  {
    LastHeadingIsLast(lines);
    var tail := lines[LastHeading(lines) + 1..];
    forall m | 0 <= m < |tail| ensures !IsHeadingLine(tail[m]) {
      assert tail[m] == lines[LastHeading(lines) + 1 + m];
    }
  }

  /** A keyed heading before the last heading is followed by a heading, and is not the open one. */
  lemma KeyedBeforeLast(rd: Reading, lines: seq<string>, k: string)
    requires 0 <= LastKeyed(rd, lines, k) < LastHeading(lines)
    ensures HasHeadingLine(lines[LastKeyed(rd, lines, k) + 1..])
    ensures CurrentKey(rd, lines) != k
  {
    var j := LastKeyed(rd, lines, k);
    var J := LastHeading(lines);
    assert lines[j + 1..][J - j - 1] == lines[J];
    LastKeyedIsLast(rd, lines, k);
  }

  /** The last keyed heading is never after the last heading. */
  lemma KeyedNotAfterLast(rd: Reading, lines: seq<string>, k: string)
    ensures LastKeyed(rd, lines, k) <= LastHeading(lines)
  {
    LastHeadingIsLast(lines);
  }

  /** Lines holding a heading: a further line does not change their body. */
  lemma BodySnocAfterHeading(rd: Reading, tail: seq<string>, l: string)
    requires HasHeadingLine(tail)
    ensures Body(rd, tail + [l]) == Body(rd, tail)
  {
    BodyAppend(rd, tail, [l]);
  }

  /** Lines holding no heading: a further content line extends their body by its content, if any. */
  lemma BodySnocContent(rd: Reading, tail: seq<string>, l: string)
    requires !HasHeadingLine(tail) && !IsHeadingLine(l)
    ensures Body(rd, tail + [l]) == Body(rd, tail) + (if rd.content(l) != "" then [rd.content(l)] else [])
  {
    BodyAppend(rd, tail, [l]);
    BodySingle(rd, l);
  }

  /** The body after the last keyed heading, extended by one non-heading line. */
  lemma BodyAfterKeyed(rd: Reading, lines: seq<string>, l: string, k: string)
    requires !IsHeadingLine(l) && LastKeyed(rd, lines, k) >= 0
    ensures var tail := lines[LastKeyed(rd, lines, k) + 1..];
            Body(rd, tail + [l])
            == if k == CurrentKey(rd, lines) && rd.content(l) != "" then Body(rd, tail) + [rd.content(l)] else Body(rd, tail)
  {
    KeyedNotAfterLast(rd, lines, k);
    if LastKeyed(rd, lines, k) < LastHeading(lines) {
      BodyAfterEarlierKeyed(rd, lines, l, k);
    } else {
      BodyAfterCurrentKeyed(rd, lines, l, k);
    }
  }

  /** Section `k` is closed by a later heading: a further line leaves its body alone. */
  lemma BodyAfterEarlierKeyed(rd: Reading, lines: seq<string>, l: string, k: string)
    requires 0 <= LastKeyed(rd, lines, k) < LastHeading(lines)
    ensures CurrentKey(rd, lines) != k
    ensures var tail := lines[LastKeyed(rd, lines, k) + 1..];
            Body(rd, tail + [l]) == Body(rd, tail)
  {
    KeyedBeforeLast(rd, lines, k);
    BodySnocAfterHeading(rd, lines[LastKeyed(rd, lines, k) + 1..], l);
  }

  /** Section `k` is the open one: a further content line extends its body. */
  lemma BodyAfterCurrentKeyed(rd: Reading, lines: seq<string>, l: string, k: string)
    requires !IsHeadingLine(l) && 0 <= LastKeyed(rd, lines, k) == LastHeading(lines)
    ensures CurrentKey(rd, lines) == k
    ensures var tail := lines[LastKeyed(rd, lines, k) + 1..];
            Body(rd, tail + [l]) == Body(rd, tail) + (if rd.content(l) != "" then [rd.content(l)] else [])
  {
    NoHeadingAfterLast(lines);
    BodySnocContent(rd, lines[LastKeyed(rd, lines, k) + 1..], l);
  }

  /** A line that is not a heading named `k` leaves the last `k` heading where it was. */
  lemma LastKeyedSnoc(rd: Reading, lines: seq<string>, l: string, k: string)
    requires !(IsHeadingLine(l) && rd.key(l) == k)
    ensures LastKeyed(rd, lines + [l], k) == LastKeyed(rd, lines, k)
  {
    var all := lines + [l];
    assert all[..|all| - 1] == lines;
  }

  /**
   * When the last line is not a heading, it extends the section of the
   * last heading and no other.
   */
  lemma SectionAfterContent(rd: Reading, lines: seq<string>, l: string, k: string)
    requires !IsHeadingLine(l) && LastKeyed(rd, lines, k) >= 0
    ensures LastKeyed(rd, lines + [l], k) == LastKeyed(rd, lines, k)
    ensures SectionOf(rd, lines + [l], k)
            == if k == CurrentKey(rd, lines) && k != "" && rd.content(l) != "" then SectionOf(rd, lines, k) + [rd.content(l)]
               else SectionOf(rd, lines, k)
  {
    LastKeyedSnoc(rd, lines, l, k);
    if k != "" {
      SectionSnocBody(rd, lines, l, k);
      BodyAfterKeyed(rd, lines, l, k);
    }
  }

  /** A line that is not heading `k` joins the body that section `k` is read from. */
  lemma SectionSnocBody(rd: Reading, lines: seq<string>, l: string, k: string)
    requires k != "" && LastKeyed(rd, lines, k) >= 0
    requires LastKeyed(rd, lines + [l], k) == LastKeyed(rd, lines, k)
    ensures SectionOf(rd, lines + [l], k) == Body(rd, lines[LastKeyed(rd, lines, k) + 1..] + [l])
  {
    var j := LastKeyed(rd, lines, k);
    assert (lines + [l])[j + 1..] == lines[j + 1..] + [l];
  }

  /** The loop over `lines + [l]` is one more step after the loop over `lines`. */
  lemma RunSnoc(rd: Reading, lines: seq<string>, l: string)
    ensures Run(rd, lines + [l]) == Step(rd, Run(rd, lines), l)
  {
    var all := lines + [l];
    assert all[..|all| - 1] == lines;
  }

  /** A heading line named `k` restarts section `k` empty, in the loop and in the reference. */
  lemma SectionStepOwnHeading(rd: Reading, pre: seq<string>, l: string, k: string)
    requires IsHeadingLine(l) && rd.key(l) == k
    ensures LastKeyed(rd, pre + [l], k) == |pre|
    ensures Run(rd, pre + [l]).sections[k] == SectionOf(rd, pre + [l], k) == []
  {
    var all := pre + [l];
    RunSnoc(rd, pre, l);
    assert all[|pre| + 1..] == [];
  }

  /** A heading line named otherwise leaves section `k` alone, in the loop and in the reference. */
  lemma SectionStepOtherHeading(rd: Reading, pre: seq<string>, l: string, k: string)
    requires IsHeadingLine(l) && rd.key(l) != k
    requires LastKeyed(rd, pre, k) >= 0 && k in Run(rd, pre).sections
    requires Run(rd, pre).sections[k] == SectionOf(rd, pre, k)
    ensures Run(rd, pre + [l]).sections[k] == SectionOf(rd, pre + [l], k)
  {
    RunSnoc(rd, pre, l);
    SectionAfterHeading(rd, pre, l, k);
  }

  /** A content line extends the open section, in the loop and in the reference. */
  lemma SectionStepContent(rd: Reading, pre: seq<string>, l: string, k: string)
    requires !IsHeadingLine(l)
    requires LastKeyed(rd, pre, k) >= 0 && k in Run(rd, pre).sections
    requires Run(rd, pre).sections[k] == SectionOf(rd, pre, k)
    ensures Run(rd, pre + [l]).sections[k] == SectionOf(rd, pre + [l], k)
  {
    var e := Run(rd, pre);
    RunSnoc(rd, pre, l);
    RunCurrent(rd, pre);
    RunCurrentIsKey(rd, pre);
    assert Run(rd, pre + [l]).sections[k]
           == if k == e.current && k != "" && rd.content(l) != "" then e.sections[k] + [rd.content(l)] else e.sections[k];
    SectionAfterContent(rd, pre, l, k);
  }

  /** One step keeps a key's content equal to the reference content. */
  lemma SectionStep(rd: Reading, pre: seq<string>, l: string, k: string)
    requires LastKeyed(rd, pre, k) >= 0 ==> k in Run(rd, pre).sections && Run(rd, pre).sections[k] == SectionOf(rd, pre, k)
    requires k in Run(rd, pre + [l]).sections && LastKeyed(rd, pre + [l], k) >= 0
    ensures Run(rd, pre + [l]).sections[k] == SectionOf(rd, pre + [l], k)
  {
    if IsHeadingLine(l) && rd.key(l) == k {
      SectionStepOwnHeading(rd, pre, l, k);
    } else {
      LastKeyedSnoc(rd, pre, l, k);
      if IsHeadingLine(l) {
        SectionStepOtherHeading(rd, pre, l, k);
      } else {
        SectionStepContent(rd, pre, l, k);
      }
    }
  }

  /** Every key's content is the reference content: the loop computes `SectionOf`. */
  lemma {:induction false} RunSections(rd: Reading, lines: seq<string>)
    ensures forall k :: k in Run(rd, lines).sections ==> LastKeyed(rd, lines, k) >= 0 && Run(rd, lines).sections[k] == SectionOf(rd, lines, k)
    decreases |lines|
  {
    RunKeys(rd, lines);
    if |lines| > 0 {
      var pre := lines[..|lines| - 1];
      var l := lines[|lines| - 1];
      assert lines == pre + [l];
      RunSections(rd, pre);
      forall k | k in Run(rd, lines).sections ensures Run(rd, lines).sections[k] == SectionOf(rd, lines, k) {
        assert LastKeyed(rd, pre, k) >= 0 ==> k in Run(rd, pre).sections by {
          RunKeys(rd, pre);
        }
        SectionStep(rd, pre, l, k);
      }
    }
  }

  /**
   * The dictionary the loop builds, described without the loop: its
   * keys are the names carried by heading lines, and a key's content is
   * the cleaned non-blank lines after its last heading, up to the next
   * heading (none for the empty name).
   */
  lemma RunMatchesReference(rd: Reading, lines: seq<string>)
    ensures Run(rd, lines).current == CurrentKey(rd, lines)
    ensures forall k :: k in Run(rd, lines).sections <==> LastKeyed(rd, lines, k) >= 0
    ensures forall k :: k in Run(rd, lines).sections ==> Run(rd, lines).sections[k] == SectionOf(rd, lines, k)
  {
    RunCurrent(rd, lines);
    RunKeys(rd, lines);
    RunSections(rd, lines);
  }

  /** The name of every heading line is a key. */
  lemma HeadingLineIsKey(rd: Reading, lines: seq<string>, j: int)
    requires 0 <= j < |lines| && IsHeadingLine(lines[j])
    ensures rd.key(lines[j]) in Run(rd, lines).sections
  {
    var k := rd.key(lines[j]);
    LastKeyedIsLast(rd, lines, k);
    RunKeys(rd, lines);
  }

  /* ---------------------------------------------------------------- */
  /* Consequences for the application's reading                        */
  /* ---------------------------------------------------------------- */

  lemma {:induction false} BodyClean(ls: seq<string>)
    ensures var b := Body(AppReading, ls);
            forall i :: 0 <= i < |b| ==> b[i] != "" && IsTrimmed(b[i], WhitespacesAndNewlines)
    decreases |ls|
  {
    if |ls| > 0 && !IsHeadingLine(ls[0]) {
      BodyClean(ls[1..]);
      var b := Body(AppReading, ls);
      var h := if Content(ls[0]) != "" then [Content(ls[0])] else [];
      assert b == h + Body(AppReading, ls[1..]);
      forall i | 0 <= i < |b| ensures b[i] != "" && IsTrimmed(b[i], WhitespacesAndNewlines) {
        if i >= |h| {
          assert b[i] == Body(AppReading, ls[1..])[i - |h|];
        }
      }
    }
  }

  /** Every stored content line is non-empty and trimmed of whitespace and newlines. */
  lemma SectionsClean(lines: seq<string>, k: string)
    requires k in Sections(lines)
    ensures forall i :: 0 <= i < |Sections(lines)[k]| ==> Sections(lines)[k][i] != "" && IsTrimmed(Sections(lines)[k][i], WhitespacesAndNewlines)
  {
    RunSections(AppReading, lines);
    assert Sections(lines)[k] == SectionOf(AppReading, lines, k);
    if k != "" {
      var j := LastKeyed(AppReading, lines, k);
      assert Sections(lines)[k] == Body(AppReading, lines[j + 1..]);
      BodyClean(lines[j + 1..]);
    }
  }

  /** A heading seen again starts its section afresh: only its last occurrence counts. */
  lemma LastHeadingWins(a: seq<string>, h: string, b: seq<string>)
    requires IsHeadingLine(h)
    requires forall m :: 0 <= m < |b| ==> !(IsHeadingLine(b[m]) && HeadingKey(b[m]) == HeadingKey(h))
    ensures HeadingKey(h) in Sections(a + [h] + b)
    ensures Sections(a + [h] + b)[HeadingKey(h)] == if HeadingKey(h) == "" then [] else Body(AppReading, b)
  {
    var lines := a + [h] + b;
    var k := HeadingKey(h);
    assert lines[|a|] == h;
    LastKeyedIsLast(AppReading, lines, k);
    RunMatchesReference(AppReading, lines);
    var j := LastKeyed(AppReading, lines, k);
    assert j == |a|;
    assert lines[j + 1..] == b;
  }

  /** Removing "#" from a string leaves no "#". */
  lemma {:induction false} RemoveHashComplete(s: string)
    ensures '#' !in RemoveAll(s, Hash)
    decreases |s|
  {
    if |s| >= 1 {
      if s[..1] == Hash {
        RemoveHashComplete(s[1..]);
      } else {
        RemoveHashComplete(s[1..]);
        assert s[0] != '#' by { assert s[..1][0] == s[0]; }
      }
    }
  }

  /** Section names never contain "#" and never start or end with a space or tab. */
  lemma KeysClean(lines: seq<string>, k: string)
    requires k in Sections(lines)
    ensures '#' !in k && IsTrimmed(k, Whitespaces)
  {
    RunKeys(AppReading, lines);
    var j := LastKeyed(AppReading, lines, k);
    var raw := RemoveAll(lines[j], Hash);
    RemoveHashComplete(lines[j]);
    TrimIsSlice(raw, Whitespaces);
  }

  /** A leading "#" is removed together with the rest. */
  lemma RemoveHashHead(s: string)
    ensures RemoveAll(Hash + s, Hash) == RemoveAll(s, Hash)
  {
    assert (Hash + s)[..1] == Hash;
    assert (Hash + s)[1..] == s;
  }

  /** A string without "#" is left alone. */
  lemma RemoveHashAbsent(s: string)
    requires '#' !in s
    ensures RemoveAll(s, Hash) == s
  {
    ContainsChar(s, '#');
    RemoveAllAbsent(s, Hash);
  }

  /** Leading "#" characters are removed together with the rest. */
  lemma {:induction false} RemoveHashes(hs: string, rest: string)
    requires forall i :: 0 <= i < |hs| ==> hs[i] == '#'
    ensures RemoveAll(hs + rest, Hash) == RemoveAll(rest, Hash)
    decreases |hs|
  {
    if |hs| > 0 {
      assert hs == Hash + hs[1..];
      AppendAssoc(Hash, hs[1..], rest);
      RemoveHashHead(hs[1..] + rest);
      RemoveHashes(hs[1..], rest);
    } else {
      assert hs + rest == rest;
    }
  }

  /**
   * The name of a heading line written as "#"s, a space and a title is
   * the title, provided the title has no "#" and is trimmed.
   */
  lemma HeadingKeyOfTitle(hs: string, title: string)
    requires |hs| > 0 && forall i :: 0 <= i < |hs| ==> hs[i] == '#'
    requires '#' !in title && IsTrimmed(title, WhitespacesAndNewlines)
    ensures IsHeadingLine(hs + " " + title) && HeadingKey(hs + " " + title) == title
  {
    var rest := " " + title;
    assert (hs + rest)[0] == '#';
    assert hs + " " + title == hs + rest;
    assert RemoveAll(hs + rest, Hash) == rest by {
      RemoveHashes(hs, rest);
      assert RemoveAll(rest, Hash) == [' '] + RemoveAll(title, Hash) by {
        assert rest[..1] != Hash by { assert rest[..1][0] == ' '; }
        assert rest[1..] == title;
      }
      RemoveHashAbsent(title);
    }
    assert Trim(rest, Whitespaces) == Trim(title, Whitespaces) by {
      TrimLeading(' ', title, Whitespaces);
    }
    TrimTrimmed(title, Whitespaces);
  }
}
