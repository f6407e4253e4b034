/**
 * The summary `summarizeMarkdown` writes in ver0.15, and the
 * improvement suggestions `generateSuggestions` writes (identical in
 * ver0.14 and ver0.15).
 *
 * The summary is a fixed sequence of slots filled from the heading
 * dictionary by the lookups of `Queries`. Five slots are topic
 * paragraphs: a fixed "nothing stated" sentence when the lookup found
 * nothing, otherwise an introduction followed by the bullet list. The
 * system-configuration slot combines the raw directory-structure
 * content, indented by four spaces per line, with the processing flow.
 */
module Summary {
  import opened Text
  import opened Queries
  import Converter
  import HeadingMap

  /** Shown instead of a summary when the Markdown has no non-empty line. */
  const EmptyMessage: string := "要約する内容がありません。"

  /** The project name: the file name with every "要件定義書_" removed. */
  function ProjectName(fileName: string): string {
    RemoveAll(fileName, Converter.FileNamePrefix)
  }

  /** The name the converter gives a requirements document yields back its title. */
  lemma ProjectNameOfDocument(title: string)
    requires !Contains(title, Converter.FileNamePrefix)
    ensures ProjectName(Converter.FileNamePrefix + title) == title
  {
    RemoveAllHead(Converter.FileNamePrefix, title);
    RemoveAllAbsent(title, Converter.FileNamePrefix);
  }

  /** The fallback name is kept as it is. */
  lemma ProjectNameOfDefault()
    ensures ProjectName(Converter.DefaultFileName) == Converter.DefaultFileName
  {
    assert Converter.FileNamePrefix[0] == '要';
    AbsentHead(Converter.DefaultFileName, Converter.FileNamePrefix);
    RemoveAllAbsent(Converter.DefaultFileName, Converter.FileNamePrefix);
  }

  /* ---------------------------------------------------------------- */
  /* Keywords                                                          */
  /* ---------------------------------------------------------------- */

  const PurposeKeys: seq<string> := ["目的"]
  const PeopleKeys: seq<string> := ["関係者", "体制", "登場人物"]
  const FunctionalKeys: seq<string> := ["機能"]
  const NonFunctionalKeys: seq<string> := ["非機能", "性能要求", "品質要求", "互換性要求", "保守性要求"]
  const TechKeys: seq<string> := ["技術仕様", "動作環境", "必要なソフトウェア", "スクリプトファイル仕様", "コマンド実行順序"]
  const ConstraintKeys: seq<string> := ["制約", "前提条件", "技術的制約", "コンテンツ制約"]
  const DeliverableKeys: seq<string> := ["成果物", "納品物", "生成物"]
  const DeliverableExclusions: seq<string> := ["中間"]
  const QaKeys: seq<string> := ["テスト", "チェックポイント", "エラー処理"]
  const ScalabilityKeys: seq<string> := ["拡張", "展開", "将来的な拡張", "カスタマイズポイント"]
  const DirectoryKeys: seq<string> := ["ディレクトリ構造"]
  const FlowKeys: seq<string> := ["処理フロー"]

  /* ---------------------------------------------------------------- */
  /* Topic paragraphs                                                  */
  /* ---------------------------------------------------------------- */

  /** A topic paragraph: the sentence for "nothing stated" and the introduction to a list. */
  datatype Topic = Topic(absent: string, intro: string)

  const TechTopic: Topic := Topic("開発に必要な技術仕様については、特に記載がありません。", "開発に必要な技術仕様は以下の通りです。\n")
  const ConstraintTopic: Topic := Topic("制約事項については、特に記載がありません。", "制約事項として以下の内容が挙げられています。\n")
  const DeliverableTopic: Topic := Topic("成果物については、特に記載がありません。", "成果物は以下の通りです。\n")
  const QaTopic: Topic := Topic("開発後の品質保証については、特に方針の記載がありません。", "開発後の品質保証は、以下の方針で進められます。\n")
  const ScalabilityTopic: Topic := Topic("将来的な拡張性については、特に記載がありません。", "将来的な拡張性として、以下の点が考慮されています。\n")

  /** The "nothing stated" sentence does not begin with the introduction, so no list can read as it. */
  predicate Distinguishable(t: Topic) {
    !StartsWith(t.absent, t.intro)
  }

  /** The paragraph for a lookup result. */
  function Describe(t: Topic, value: string): string {
    if value == Placeholder then t.absent else t.intro + value
  }

  lemma TopicsDistinguishable()
    ensures Distinguishable(TechTopic) && Distinguishable(ConstraintTopic) && Distinguishable(DeliverableTopic)
    ensures Distinguishable(QaTopic) && Distinguishable(ScalabilityTopic)
  {
    TechDistinguishable();
    ConstraintDistinguishable();
    DeliverableDistinguishable();
    QaDistinguishable();
    ScalabilityDistinguishable();
  }

  lemma TechDistinguishable() ensures Distinguishable(TechTopic) {
    DiffersAt(TechTopic, 10);
  }

  lemma ConstraintDistinguishable() ensures Distinguishable(ConstraintTopic) {
    DiffersAt(ConstraintTopic, 4);
  }

  lemma DeliverableDistinguishable() ensures Distinguishable(DeliverableTopic) {
    DiffersAt(DeliverableTopic, 3);
  }

  lemma QaDistinguishable() ensures Distinguishable(QaTopic) {
    DiffersAt(QaTopic, 8);
  }

  lemma ScalabilityDistinguishable() ensures Distinguishable(ScalabilityTopic) {
    DiffersAt(ScalabilityTopic, 7);
  }

  /** Two sentences that differ at a position within both cannot be prefix and extension. */
  lemma DiffersAt(t: Topic, i: nat)
    requires i < |t.absent| && i < |t.intro| && t.absent[i] != t.intro[i]
    ensures Distinguishable(t)
  {
    if |t.intro| <= |t.absent| {
      assert t.absent[..|t.intro|][i] == t.absent[i];
    }
  }

  /**
   * A topic paragraph is its "nothing stated" sentence exactly when no
   * title matching the topic's keywords (and none of its exclusions)
   * has content; otherwise it is the introduction and the bullet list.
   */
  lemma TopicSentence(t: Topic, keys: seq<string>, excluding: seq<string>, m: ContentMap, order: seq<string>)
    requires Distinguishable(t) && IsEnumeration(order, m)
    ensures var p := Describe(t, AllContent(keys, excluding, m, order));
            (p == t.absent <==> forall h :: h in m && Qualifies(h, keys, excluding) ==> !HasContent(m, h))
            && (p != t.absent ==> p == t.intro + Entries(m, Listed(keys, excluding, m, order)))
  {
    var v := AllContent(keys, excluding, m, order);
    AllContentSpec(keys, excluding, m, order);
    if v != Placeholder {
      assert (t.intro + v)[..|t.intro|] == t.intro;
    }
  }

  /* ---------------------------------------------------------------- */
  /* System configuration                                              */
  /* ---------------------------------------------------------------- */

  const SystemNone: string := "最終的なシステム構成については、特に記載がありません。"
  const SystemIntro: string := "最終的なシステム構成は以下の通りです。\n"
  const DirectoryLabel: string := "・ディレクトリ構造:\n"
  const FlowLabel: string := "・処理フロー: "
  const IndentUnit: string := "    "

  function IndentLines(ls: seq<string>): (r: seq<string>)
    ensures |r| == |ls|
  {
    if |ls| == 0 then [] else [IndentUnit + ls[0]] + IndentLines(ls[1..])
  }

  /** Every line of `s` with four spaces in front. */
  function Indent(s: string): string {
    Join(IndentLines(Split(s, Char('\n'))), "\n")
  }

  function DedentLine(l: string): string {
    if StartsWith(l, IndentUnit) then l[|IndentUnit|..] else l
  }

  function DedentLines(ls: seq<string>): (r: seq<string>)
    ensures |r| == |ls|
  {
    if |ls| == 0 then [] else [DedentLine(ls[0])] + DedentLines(ls[1..])
  }

  /** Every line of `s` with four leading spaces removed where present. */
  function Dedent(s: string): string {
    Join(DedentLines(Split(s, Char('\n'))), "\n")
  }

  lemma {:induction false} IndentLinesNoNewline(ls: seq<string>)
    requires forall i :: 0 <= i < |ls| ==> NoSep(ls[i], Char('\n'))
    ensures forall i :: 0 <= i < |IndentLines(ls)| ==> NoSep(IndentLines(ls)[i], Char('\n'))
    decreases |ls|
  {
    if |ls| > 0 {
      IndentLinesNoNewline(ls[1..]);
      var r := IndentLines(ls);
      forall i | 0 <= i < |r| ensures NoSep(r[i], Char('\n')) {
        if i > 0 {
          assert r[i] == IndentLines(ls[1..])[i - 1];
        } else {
          assert forall k :: 0 <= k < |IndentUnit| ==> r[0][k] == ' ';
          assert forall k :: |IndentUnit| <= k < |r[0]| ==> r[0][k] == ls[0][k - |IndentUnit|];
        }
      }
    }
  }

  lemma {:induction false} DedentIndentLines(ls: seq<string>)
    ensures DedentLines(IndentLines(ls)) == ls
    decreases |ls|
  {
    if |ls| > 0 {
      DedentIndentLines(ls[1..]);
      var l := IndentUnit + ls[0];
      assert l[..|IndentUnit|] == IndentUnit;
      assert l[|IndentUnit|..] == ls[0];
      assert IndentLines(ls)[1..] == IndentLines(ls[1..]);
    }
  }

  /** The lines of the indented text are exactly the original lines, each behind four spaces. */
  lemma IndentLinesOf(s: string)
    ensures Split(Indent(s), Char('\n')) == IndentLines(Split(s, Char('\n')))
  {
    var parts := Split(s, Char('\n'));
    SplitParts(s, Char('\n'));
    IndentLinesNoNewline(parts);
    SplitJoin(IndentLines(parts), '\n');
  }

  /** Removing the indentation gives back the directory structure unchanged. */
  lemma IndentRoundTrip(s: string)
    ensures Dedent(Indent(s)) == s
  {
    IndentLinesOf(s);
    DedentIndentLines(Split(s, Char('\n')));
    JoinSplit(s, '\n');
  }

  /** The system-configuration paragraph. */
  function SystemConfig(directory: string, flow: string): string {
    if directory == Placeholder && flow == Placeholder then SystemNone
    else
      SystemIntro
      + (if directory != Placeholder then DirectoryLabel + Indent(directory) + "\n" else "")
      + (if flow != Placeholder then FlowLabel + flow + "\n" else "")
  }

  /**
   * The paragraph is the "nothing stated" sentence exactly when both the
   * directory structure and the processing flow are missing; otherwise
   * it starts with its introduction.
   */
  lemma SystemConfigSpec(directory: string, flow: string)
    ensures SystemConfig(directory, flow) == SystemNone <==> directory == Placeholder && flow == Placeholder
    ensures SystemConfig(directory, flow) != SystemNone ==> StartsWith(SystemConfig(directory, flow), SystemIntro)
    ensures directory != Placeholder
            ==> StartsWith(SystemConfig(directory, flow), SystemIntro + DirectoryLabel + Indent(directory) + "\n")
    ensures flow != Placeholder ==> EndsWith(SystemConfig(directory, flow), FlowLabel + flow + "\n")
    ensures directory == Placeholder && flow != Placeholder
            ==> SystemConfig(directory, flow) == SystemIntro + FlowLabel + flow + "\n"
    ensures flow == Placeholder && directory != Placeholder
            ==> SystemConfig(directory, flow) == SystemIntro + DirectoryLabel + Indent(directory) + "\n"
  {
    var r := SystemConfig(directory, flow);
    if directory != Placeholder || flow != Placeholder {
      var block := if directory != Placeholder then DirectoryLabel + Indent(directory) + "\n" else "";
      var line := if flow != Placeholder then FlowLabel + flow + "\n" else "";
      assert r == SystemIntro + block + line;
      ConcatEnds(SystemIntro, block, line);
      assert r[10] == SystemIntro[10];
      assert SystemNone[10] != SystemIntro[10];
    }
  }

  /* ---------------------------------------------------------------- */
  /* The report                                                        */
  /* ---------------------------------------------------------------- */

  /** The slots of the summary, in the order they are written. */
  datatype Report = Report(
    projectName: string, purpose: string, people: string,
    functional: string, nonFunctional: string,
    techSpecs: string, constraints: string, systemConfig: string,
    deliverables: string, qa: string, scalability: string)

  /** The lookups of `summarizeMarkdown`, each in its slot. */
  function Analyze(fileName: string, m: ContentMap, order: seq<string>): Report
    requires IsEnumeration(order, m)
  {
    Report(
      ProjectName(fileName),
      FirstContent(PurposeKeys, m, order),
      FirstContent(PeopleKeys, m, order),
      AllContent(FunctionalKeys, [], m, order),
      AllContent(NonFunctionalKeys, [], m, order),
      Describe(TechTopic, AllContent(TechKeys, [], m, order)),
      Describe(ConstraintTopic, AllContent(ConstraintKeys, [], m, order)),
      SystemConfig(RawContent(DirectoryKeys, m, order), FirstContent(FlowKeys, m, order)),
      Describe(DeliverableTopic, AllContent(DeliverableKeys, DeliverableExclusions, m, order)),
      Describe(QaTopic, AllContent(QaKeys, [], m, order)),
      Describe(ScalabilityTopic, AllContent(ScalabilityKeys, [], m, order)))
  }

  /** The summary's first sentence, naming the project. */
  function Opening(projectName: string): string {
    "この要件定義は「" + projectName + "」プロジェクトに関するもので、\n"
  }

  /** The summary text: the slots with their fixed connecting sentences. */
  function ReportText(r: Report): string {
    Opening(r.projectName) + ReportBody(r)
  }

  function ReportBody(r: Report): string {
    "目的は「" + r.purpose + "」であり、\n"
    + "関わる人は「" + r.people + "」です。\n\n"
    + "機能要件は以下の通りです。\n"
    + r.functional
    + "\n非機能要件は以下の通りです。\n"
    + r.nonFunctional
    + "\n" + r.techSpecs
    + "\n" + r.constraints
    + "\n" + r.systemConfig
    + "\n" + r.deliverables
    + "\n" + r.qa
    + "\n" + r.scalability
  }

  /** A deliverables title containing "中間" never gets a bullet. */
  lemma DeliverablesExcludeIntermediate(m: ContentMap, order: seq<string>)
    requires IsEnumeration(order, m)
    ensures forall h :: h in Listed(DeliverableKeys, DeliverableExclusions, m, order) ==> !Contains(h, "中間")
  {
    AllContentSpec(DeliverableKeys, DeliverableExclusions, m, order);
    assert "中間" in DeliverableExclusions;
  }

  /** The summary does not depend on the dictionary's iteration order in its bullet lists. */
  lemma AnalyzeListsIndependent(fileName: string, m: ContentMap, order1: seq<string>, order2: seq<string>)
    requires IsEnumeration(order1, m) && IsEnumeration(order2, m)
    ensures var a := Analyze(fileName, m, order1);
            var b := Analyze(fileName, m, order2);
            a.functional == b.functional && a.nonFunctional == b.nonFunctional && a.techSpecs == b.techSpecs
            && a.constraints == b.constraints && a.deliverables == b.deliverables && a.qa == b.qa
            && a.scalability == b.scalability
  {
    AllContentIndependent(FunctionalKeys, FunctionalKeys, [], m, order1, order2);
    AllContentIndependent(NonFunctionalKeys, NonFunctionalKeys, [], m, order1, order2);
    AllContentIndependent(TechKeys, TechKeys, [], m, order1, order2);
    AllContentIndependent(ConstraintKeys, ConstraintKeys, [], m, order1, order2);
    AllContentIndependent(DeliverableKeys, DeliverableKeys, DeliverableExclusions, m, order1, order2);
    AllContentIndependent(QaKeys, QaKeys, [], m, order1, order2);
    AllContentIndependent(ScalabilityKeys, ScalabilityKeys, [], m, order1, order2);
  }

  /* ---------------------------------------------------------------- */
  /* Suggestions                                                       */
  /* ---------------------------------------------------------------- */

  const Labels: seq<string> := ["非機能要件", "制約条件", "性能要件", "セキュリティ要件"]
  const NoSuggestions: string := "改善案はありません。"
  const SuggestionHeader: string := "以下の点を追記すると、より明確な要件定義になります.\n"

  /** The labels that are not keys, in the labels' order. */
  function Missing(m: ContentMap): seq<string> {
    Filter(Labels, l => l !in m)
  }

  function Bullets(ls: seq<string>): string {
    if |ls| == 0 then "" else "・" + ls[0] + "\n" + Bullets(ls[1..])
  }

  /** The missing labels spelled out one by one, in the fixed order 非機能要件, 制約条件, 性能要件, セキュリティ要件. */
  function MissingInOrder(m: ContentMap): seq<string> {
    (if "非機能要件" in m then [] else ["非機能要件"])
    + ((if "制約条件" in m then [] else ["制約条件"])
    + ((if "性能要件" in m then [] else ["性能要件"])
    + (if "セキュリティ要件" in m then [] else ["セキュリティ要件"])))
  }

  lemma MissingSpelledOut(m: ContentMap)
    ensures Missing(m) == MissingInOrder(m)
  {
    FilterFour(Labels[0], Labels[1], Labels[2], Labels[3], l => l !in m);
    assert Labels == [Labels[0], Labels[1], Labels[2], Labels[3]];
  }

  /** What `filter` keeps of one element. */
  function Kept(x: string, p: string -> bool): seq<string> {
    if p(x) then [x] else []
  }

  /** Filtering a four-element list, element by element. */
  lemma FilterFour(a: string, b: string, c: string, d: string, p: string -> bool)
    ensures Filter([a, b, c, d], p) == Kept(a, p) + (Kept(b, p) + (Kept(c, p) + Kept(d, p)))
  {
    FilterThree(b, c, d, p);
    FilterPrepend(a, [b, c, d], p);
    assert [a] + [b, c, d] == [a, b, c, d];
  }

  lemma FilterThree(b: string, c: string, d: string, p: string -> bool)
    ensures Filter([b, c, d], p) == Kept(b, p) + (Kept(c, p) + Kept(d, p))
  {
    FilterTwo(c, d, p);
    FilterPrepend(b, [c, d], p);
    assert [b] + [c, d] == [b, c, d];
  }

  lemma FilterTwo(c: string, d: string, p: string -> bool)
    ensures Filter([c, d], p) == Kept(c, p) + Kept(d, p)
  {
    FilterPrepend(d, [], p);
    assert [d] + [] == [d];
    FilterPrepend(c, [d], p);
    assert [c] + [d] == [c, d];
  }

  lemma FilterPrepend(x: string, rest: seq<string>, p: string -> bool)
    ensures Filter([x] + rest, p) == Kept(x, p) + Filter(rest, p)
  {
    FilterCons(x, rest, p);
  }

  /** `generateSuggestions`. */
  function Suggestions(m: ContentMap): string {
    var missing := Missing(m);
    if |missing| == 0 then NoSuggestions else SuggestionHeader + Bullets(missing)
  }

  /**
   * The suggestion text says there is nothing to improve exactly when
   * every label is an exact key; otherwise it lists precisely the
   * labels that are not keys.
   */
  lemma SuggestionsSpec(m: ContentMap)
    ensures Suggestions(m) == NoSuggestions <==> forall i :: 0 <= i < |Labels| ==> Labels[i] in m
    ensures forall l :: l in Missing(m) <==> l in Labels && l !in m
    ensures Suggestions(m) != NoSuggestions ==> Suggestions(m) == SuggestionHeader + Bullets(Missing(m))
    ensures Subsequence(Missing(m), Labels)
    ensures Missing(m) == MissingInOrder(m)
  {
    FilterKeepsOrder(Labels, l => l !in m);
    MissingSpelledOut(m);
    var missing := Missing(m);
    if |missing| > 0 {
      assert (SuggestionHeader + Bullets(missing))[0] == SuggestionHeader[0];
      assert SuggestionHeader[0] != NoSuggestions[0];
      assert missing[0] in missing;
    } else {
      forall i | 0 <= i < |Labels| ensures Labels[i] in m {
        assert Labels[i] in Labels;
      }
    }
  }

  /* ---------------------------------------------------------------- */
  /* summarizeMarkdown                                                 */
  /* ---------------------------------------------------------------- */

  /** What `summarizeMarkdown` leaves behind. */
  datatype Outcome =
    | NothingToSummarize
    | Summarized(summary: string, suggestions: string)

  /** The text shown in the analysis pane. */
  function AnalysisText(o: Outcome): string {
    match o
    case NothingToSummarize => EmptyMessage
    case Summarized(s, _) => s
  }

  /** `summarizeMarkdown` of ver0.15 on the Markdown text and the current file name. */
  function Summarize(markdown: string, fileName: string, order: seq<string>): Outcome
    requires IsEnumeration(order, HeadingMap.Sections(NonEmptyLines(markdown)))
  {
    var lines := NonEmptyLines(markdown);
    if |lines| == 0 then NothingToSummarize
    else
      var m := HeadingMap.Sections(lines);
      Summarized(ReportText(Analyze(fileName, m, order)), Suggestions(m))
  }

  /**
   * Markdown without a non-empty line yields only the "nothing to
   * summarise" message and leaves the suggestions alone; any other
   * Markdown yields the report of its heading dictionary.
   */
  lemma SummarizeGuard(markdown: string, fileName: string, order: seq<string>)
    requires IsEnumeration(order, HeadingMap.Sections(NonEmptyLines(markdown)))
    ensures var o := Summarize(markdown, fileName, order);
            (o.NothingToSummarize? <==> NonEmptyLines(markdown) == [])
            && (o.NothingToSummarize? ==> AnalysisText(o) == EmptyMessage)
            && (o.Summarized? ==> StartsWith(o.summary, Opening(ProjectName(fileName))))
  {
    var o := Summarize(markdown, fileName, order);
    if o.Summarized? {
      var r := Analyze(fileName, HeadingMap.Sections(NonEmptyLines(markdown)), order);
      assert r.projectName == ProjectName(fileName);
      var p := Opening(r.projectName);
      assert (p + ReportBody(r))[..|p|] == p;
    }
  }
}
