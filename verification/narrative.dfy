/**
 * The earlier summaries of `summarizeMarkdown`: the narrative of ver0.13
 * and the short overview of ver0.14. Both start with the same project
 * sentence and read the same heading dictionary, but look titles up
 * directly: `first(where:)` for a single paragraph and `keys.filter` for
 * bullet lists, both in the dictionary's iteration order (the `order`
 * parameter). Content is joined as stored, without cleaning.
 */
module Narrative {
  import opened Text
  import opened Queries
  import HeadingMap
  import Summary

  /** The opening sentence of both versions. */
  function Intro(projectName: string): string {
    "この要件定義書は、「" + projectName + "」プロジェクトに関する詳細な要件を定義するものです。\n\n"
  }

  /** The closing sentence of ver0.13. */
  const Closing: string := "本定義書は、これらの要件を基に、関係者間の共通認識を形成し、プロジェクトを円滑に推進するための礎となります。"

  const PurposeKey: string := "目的"
  const OverviewKey: string := "概要"
  const FunctionalKey: string := "機能"
  const TechKey: string := "技術仕様"

  /** The titles in `hs` whose content is not empty. */
  function WithContent(m: ContentMap, hs: seq<string>): seq<string> {
    Filter(hs, h => h in m && |m[h]| > 0)
  }

  /** One bullet "・title: content" per title with content, content joined by `sep`. */
  function TitleBullets(m: ContentMap, hs: seq<string>, sep: string): string
    requires forall h :: h in hs ==> h in m
  {
    if |hs| == 0 then ""
    else (if |m[hs[0]]| > 0 then "・" + hs[0] + ": " + Join(m[hs[0]], sep) + "\n" else "") + TitleBullets(m, hs[1..], sep)
  }

  /** Titles without content are skipped: the bullets are exactly those of the titles with content. */
  lemma {:induction false} TitleBulletsSkipEmpty(m: ContentMap, hs: seq<string>, sep: string)
    requires forall h :: h in hs ==> h in m
    ensures TitleBullets(m, hs, sep) == TitleBullets(m, WithContent(m, hs), sep)
    decreases |hs|
  {
    if |hs| > 0 {
      TitleBulletsSkipEmpty(m, hs[1..], sep);
    }
  }

  /** `keys.filter { $0.contains(key) }` in iteration order. */
  function TitlesContaining(order: seq<string>, key: string): seq<string> {
    Filter(order, h => Contains(h, key))
  }

  /** The title mentions one of the topics that have their own paragraph in ver0.13. */
  predicate Topical(h: string) {
    Contains(h, PurposeKey) || Contains(h, OverviewKey) || Contains(h, FunctionalKey) || Contains(h, TechKey)
  }

  /** The titles of the "その他" list, in iteration order. */
  function OtherTitles(order: seq<string>): seq<string> {
    Filter(order, h => !Topical(h))
  }

  /** A paragraph quoting the content of the first title containing `key`, or nothing. */
  function Quote(key: string, m: ContentMap, order: seq<string>, before: string, sep: string, after: string): string
    requires IsEnumeration(order, m)
  {
    match Pick(order, key)
    case None => ""
    case Some(h) => before + Join(m[h], sep) + after
  }

  /**
   * A quoted paragraph appears exactly when some title contains the
   * key (when the paragraph's wording is not empty).
   */
  lemma QuoteAppears(key: string, m: ContentMap, order: seq<string>, before: string, sep: string, after: string)
    requires IsEnumeration(order, m) && before != ""
    ensures Quote(key, m, order, before, sep, after) != "" <==> exists h :: h in m && Contains(h, key)
  {
    if Pick(order, key).None? {
      forall h | h in m ensures !Contains(h, key) {
        var j :| 0 <= j < |order| && order[j] == h;
      }
    } else {
      var h := Pick(order, key).value;
      assert h in m;
    }
  }

  /** A block with a heading sentence over a bullet list, written when there is a title to list. */
  function ListBlock(heading: string, m: ContentMap, hs: seq<string>, sep: string): string
    requires forall h :: h in hs ==> h in m
  {
    if |hs| == 0 then "" else heading + TitleBullets(m, hs, sep) + "\n"
  }

  /** The technical-specification items, one "  - item" line each. */
  function Items(ls: seq<string>): string {
    if |ls| == 0 then "" else "  - " + ls[0] + "\n" + Items(ls[1..])
  }

  function TechBlock(m: ContentMap, order: seq<string>): string
    requires IsEnumeration(order, m)
  {
    match Pick(order, TechKey)
    case None => ""
    case Some(h) => "技術的な仕様に関しては、以下の具体的な指針が示されています。\n" + Items(m[h]) + "\n"
  }

  /** The purpose paragraph of ver0.13. */
  function PurposeParagraph(m: ContentMap, order: seq<string>): string
    requires IsEnumeration(order, m)
  {
    Quote(PurposeKey, m, order, "プロジェクトの根本的な目的として、「", "。", "」が掲げられています。\n\n")
  }

  /** The overview paragraph of ver0.13. */
  function OverviewParagraph(m: ContentMap, order: seq<string>): string
    requires IsEnumeration(order, m)
  {
    Quote(OverviewKey, m, order, "システム全体の概要については、「", " ", "」と説明されています。\n\n")
  }

  /** The paragraphs of the ver0.13 narrative, in order. */
  function Blocks13(projectName: string, m: ContentMap, order: seq<string>): seq<string>
    requires IsEnumeration(order, m)
  {
    var functional := TitlesContaining(order, FunctionalKey);
    var others := OtherTitles(order);
    [ Intro(projectName),
      PurposeParagraph(m, order),
      OverviewParagraph(m, order),
      ListBlock("主要な機能要件として、以下の項目が詳細に定義されています。\n", m, functional, "。"),
      TechBlock(m, order),
      ListBlock("その他、以下の点についても言及されています。\n", m, others, "。"),
      Closing ]
  }

  /** The ver0.13 narrative. */
  function Narrative13(projectName: string, m: ContentMap, order: seq<string>): string
    requires IsEnumeration(order, m)
  {
    Concat(Blocks13(projectName, m, order))
  }

  lemma ConcatFirstLast(parts: seq<string>)
    requires |parts| >= 2
    ensures var c := Concat(parts);
            var first := parts[0];
            var last := parts[|parts| - 1];
            |first| + |last| <= |c| && c[..|first|] == first && c[|c| - |last|..] == last
  {
    var mid := parts[1..|parts| - 1];
    assert parts[1..] == mid + [parts[|parts| - 1]];
    ConcatAppend(mid, [parts[|parts| - 1]]);
    assert Concat([parts[|parts| - 1]]) == parts[|parts| - 1];
  }

  /** The narrative starts with the project sentence and ends with the closing sentence. */
  lemma Narrative13Frame(projectName: string, m: ContentMap, order: seq<string>)
    requires IsEnumeration(order, m)
    ensures var r := Narrative13(projectName, m, order);
            StartsWith(r, Intro(projectName)) && |Closing| <= |r| && r[|r| - |Closing|..] == Closing
  {
    ConcatFirstLast(Blocks13(projectName, m, order));
  }

  /**
   * The purpose and overview paragraphs appear exactly when some title
   * contains "目的" or "概要" respectively.
   */
  lemma Narrative13Paragraphs(m: ContentMap, order: seq<string>)
    requires IsEnumeration(order, m)
    ensures PurposeParagraph(m, order) != "" <==> exists h :: h in m && Contains(h, PurposeKey)
    ensures OverviewParagraph(m, order) != "" <==> exists h :: h in m && Contains(h, OverviewKey)
  {
    QuoteAppears(PurposeKey, m, order, "プロジェクトの根本的な目的として、「", "。", "」が掲げられています。\n\n");
    QuoteAppears(OverviewKey, m, order, "システム全体の概要については、「", " ", "」と説明されています。\n\n");
  }

  /**
   * The "その他" list bullets exactly the titles with content that
   * mention none of "目的", "概要", "機能" and "技術仕様"; the functional
   * list bullets exactly the titles with content that contain "機能".
   */
  lemma Narrative13Lists(m: ContentMap, order: seq<string>)
    requires IsEnumeration(order, m)
    ensures forall h :: h in WithContent(m, OtherTitles(order)) <==> h in m && |m[h]| > 0 && !Topical(h)
    ensures forall h :: h in WithContent(m, TitlesContaining(order, FunctionalKey)) <==> h in m && |m[h]| > 0 && Contains(h, FunctionalKey)
  {
  }

  /** The ver0.14 overview: project sentence, purpose, overview and functional list. */
  function Overview14(projectName: string, m: ContentMap, order: seq<string>): string
    requires IsEnumeration(order, m)
  {
    Intro(projectName)
    + Quote(PurposeKey, m, order, "プロジェクトの目的: ", "。 ", "\n")
    + Quote(OverviewKey, m, order, "システムの概要: ", "。 ", "\n\n")
    + ListBlock("主な機能要件：\n", m, TitlesContaining(order, FunctionalKey), ", ")
  }

  /**
   * The functional block of ver0.14 is written whenever some title
   * contains "機能", even when none of them has content, and its bullets
   * are exactly those of the functional titles with content.
   */
  lemma Overview14Functional(m: ContentMap, order: seq<string>)
    requires IsEnumeration(order, m)
    ensures var fs := TitlesContaining(order, FunctionalKey);
            var block := ListBlock("主な機能要件：\n", m, fs, ", ");
            (block != "" <==> exists h :: h in m && Contains(h, FunctionalKey))
            && (block != "" ==> block == "主な機能要件：\n" + TitleBullets(m, WithContent(m, fs), ", ") + "\n")
  {
    var fs := TitlesContaining(order, FunctionalKey);
    TitleBulletsSkipEmpty(m, fs, ", ");
    if exists h :: h in m && Contains(h, FunctionalKey) {
      var h :| h in m && Contains(h, FunctionalKey);
      assert h in fs;
    }
  }

  /** `summarizeMarkdown` of ver0.13: the analysis text. */
  function Summarize13(markdown: string, fileName: string, order: seq<string>): string
    requires IsEnumeration(order, HeadingMap.Sections(NonEmptyLines(markdown)))
  {
    var lines := NonEmptyLines(markdown);
    if |lines| == 0 then Summary.EmptyMessage
    else Narrative13(Summary.ProjectName(fileName), HeadingMap.Sections(lines), order)
  }

  /** The "nothing to summarise" message is shown exactly when the Markdown has no non-empty line. */
  lemma Summarize13Guard(markdown: string, fileName: string, order: seq<string>)
    requires IsEnumeration(order, HeadingMap.Sections(NonEmptyLines(markdown)))
    ensures Summarize13(markdown, fileName, order) == Summary.EmptyMessage <==> NonEmptyLines(markdown) == []
  {
    var lines := NonEmptyLines(markdown);
    if |lines| > 0 {
      var name := Summary.ProjectName(fileName);
      var m := HeadingMap.Sections(lines);
      Narrative13Frame(name, m, order);
      var r := Narrative13(name, m, order);
      assert r[0] == Intro(name)[0] == 'こ';
      assert Summary.EmptyMessage[0] == '要';
    }
  }

  /** `summarizeMarkdown` of ver0.14, followed by `generateSuggestions`. */
  function Summarize14(markdown: string, fileName: string, order: seq<string>): Summary.Outcome
    requires IsEnumeration(order, HeadingMap.Sections(NonEmptyLines(markdown)))
  {
    var lines := NonEmptyLines(markdown);
    if |lines| == 0 then Summary.NothingToSummarize
    else
      var m := HeadingMap.Sections(lines);
      Summary.Summarized(Overview14(Summary.ProjectName(fileName), m, order), Summary.Suggestions(m))
  }

  /**
   * With no non-empty line, ver0.14 shows the message and does not touch
   * the suggestions; otherwise it shows the overview, which starts with
   * the project sentence.
   */
  lemma Summarize14Guard(markdown: string, fileName: string, order: seq<string>)
    requires IsEnumeration(order, HeadingMap.Sections(NonEmptyLines(markdown)))
    ensures var o := Summarize14(markdown, fileName, order);
            (o.NothingToSummarize? <==> NonEmptyLines(markdown) == [])
            && (o.Summarized? ==> StartsWith(o.summary, Intro(Summary.ProjectName(fileName))))
  {
    var lines := NonEmptyLines(markdown);
    if |lines| > 0 {
      var name := Summary.ProjectName(fileName);
      var m := HeadingMap.Sections(lines);
      var i := Intro(name);
      var rest := Quote(PurposeKey, m, order, "プロジェクトの目的: ", "。 ", "\n")
                  + Quote(OverviewKey, m, order, "システムの概要: ", "。 ", "\n\n")
                  + ListBlock("主な機能要件：\n", m, TitlesContaining(order, FunctionalKey), ", ");
      assert Overview14(name, m, order) == i + rest by {
        AppendAssoc(i, Quote(PurposeKey, m, order, "プロジェクトの目的: ", "。 ", "\n"),
                    Quote(OverviewKey, m, order, "システムの概要: ", "。 ", "\n\n"));
        AppendAssoc(i, Quote(PurposeKey, m, order, "プロジェクトの目的: ", "。 ", "\n")
                       + Quote(OverviewKey, m, order, "システムの概要: ", "。 ", "\n\n"),
                    ListBlock("主な機能要件：\n", m, TitlesContaining(order, FunctionalKey), ", "));
      }
      assert (i + rest)[..|i|] == i;
    }
  }
}
