# Requirement Assistant: the text pipeline, in Dafny

Requirement Assistant is a macOS SwiftUI app. It reads a requirements
spreadsheet exported as CSV, converts it to Markdown headings and detail
lines, then reads the Markdown back into a dictionary from heading title
to content lines. From that dictionary it writes a prose summary and a
list of suggested sections. All of this logic lives inside the
`ContentView` structs of the backup versions ver0.11, ver0.13, ver0.14
and ver0.15. This project models that logic as pure functions over
`string`, `seq<string>` and `map<string, seq<string>>`, and proves its
properties.

Modules:

- `Text`: the Foundation string operations the code relies on.
  - `trimmingCharacters(in:)` with `.whitespaces` and `.whitespacesAndNewlines`.
  - `components(separatedBy:)` with a character or with `.newlines`.
  - `joined(separator:)`.
  - `contains` on substrings.
  - `replacingOccurrences(of:with: "")`.
  - The "split on newlines, drop empty parts" idiom that starts every line scan.
- `StringOrder`: lexicographic order on strings, and an insertion sort standing for `Set.sorted()`.
- `Converter`: `convertToMarkdown`.
  - The guard of 5 non-empty lines and the file-name rule on line 1.
  - Rows from line 4 on, with more than 4 comma columns; trimmed fields; `""` and `"-"` count as absent.
  - Two blank-line policies. `EveryHeading` (ver0.14 / ver0.15) writes `"\n"` before every heading. `PerHeadingRow` (ver0.11 / ver0.13) writes one `"\n"` before a heading row, only when output is already non-empty. In ver0.11 and ver0.13 the `justWroteHeading` flag is never read, so the model leaves it out.
- `HeadingMap`: the loop of `summarizeMarkdown` that builds `contentByHeading`.
  - `Run` models the loop as written.
  - A loop-free reference (`SectionOf`) states the same thing: last heading wins, and content runs up to the next heading.
  - Both are generic in how titles are named and lines are cleaned (`Reading`).
- `Queries`: the ver0.15 helpers `getFirstContent`, `getAllContent` and `getRawContentForHeading`.
- `Summary`: the rest of ver0.15's `summarizeMarkdown`.
  - The topic templates.
  - The system-configuration block with its 4-space indentation.
  - The report layout.
  - `generateSuggestions`, which is the same code in ver0.14.
  - The "nothing to summarise" guard.
- `Narrative`: the earlier summaries. The ver0.13 narrative (purpose, overview, functional list, technical items, "その他" list, closing sentence) and the ver0.14 overview.
- `Pipeline`: the two steps together.
  - Both blank-line policies yield the same non-empty lines, so they yield the same heading dictionary.
  - A heading field of a CSV row comes back as a key of the dictionary.
  - The project name in the summary is the CSV's title.

Swift `Dictionary` iteration order is unspecified. `first(where:)`,
`keys.first(where:)` and `keys.filter` depend on it. Every such function
therefore takes a parameter `order: seq<string>`, constrained by
`IsEnumeration(order, m)`: every key exactly once, nothing else. The
properties hold for every such order. Where the source sorts
(`getAllContent`), the result is proved independent of the order.

`NSAttributedString(markdownText).string` is modelled as the plain text
of the Markdown. Colours and fonts carry no text, so they are dropped.

## Model

| member | source | states |
|---|---|---|
| Text.Trim | Backup/ver0.14/ContentView.swift:111-114 | the trimmed string has no member of the character set at either end and is no longer than the input |
| Text.TrimIsSlice | Backup/ver0.14/ContentView.swift:111-114 | trimming keeps one contiguous slice of the input |
| Text.TrimDropped | Backup/ver0.14/ContentView.swift:111-114 | everything trimming drops, before and after the slice, belongs to the character set |
| Text.TrimTrimmed | Backup/ver0.14/ContentView.swift:157-158 | trimming an already trimmed string changes nothing |
| Text.Split | Backup/ver0.14/ContentView.swift:97 | splitting always yields at least one component |
| Text.SplitParts | Backup/ver0.14/ContentView.swift:108 | no component contains the separator, and every character of a component comes from the input |
| Text.SplitJoin | Backup/ver0.14/ContentView.swift:108 | splitting on a character after joining separator-free parts with it gives the parts back |
| Text.JoinSplit | Backup/ver0.14/ContentView.swift:108 | joining the components of a split with the separator gives the original string back |
| Text.NonEmptyLines | Backup/ver0.14/ContentView.swift:90 | every line kept is non-empty and contains no newline character, and the kept lines together are every non-newline character of the text, in order |
| Text.SplitRebuild | Backup/ver0.14/ContentView.swift:90 | splitting loses nothing: the components with the text's separator characters put back between them, in order, rebuild the text, for a single character and for the newline set alike |
| Text.SplitWeave | Backup/ver0.14/ContentView.swift:90 | separator-free parts joined by any separator characters split back into exactly those parts |
| Text.SplitKeepsText | Backup/ver0.14/ContentView.swift:90 | the components concatenated are the text without its separator characters |
| Text.NonEmptyLinesOfWeave | Backup/ver0.14/ContentView.swift:90 | single lines separated by any newline characters ("\r\n", "\r" or "\n", with or without a final newline) read back as exactly the non-empty lines |
| Text.NonEmptyLinesCrLf | Backup/ver0.14/ContentView.swift:90 | two non-empty lines separated by "\r\n" with no final newline read back as those two lines |
| Text.NonEmptyLinesOfUnlines | Backup/ver0.14/ContentView.swift:140 | reading text written as newline-terminated single lines gives back exactly its non-empty lines |
| Text.RemoveAll | Backup/ver0.14/ContentView.swift:147 | removing every occurrence of a pattern never lengthens the string |
| Text.RemoveAllKeepsOthers | Backup/ver0.15/ContentView.swift:150 | removal deletes only characters of the pattern: the characters outside it survive, all of them and in order |
| Text.RemoveAllChar | Backup/ver0.14/ContentView.swift:155 | removing a one-character pattern such as "#" is exactly dropping that character everywhere and keeping every other character in order |
| Text.RemoveFenceKeepsText | Backup/ver0.15/ContentView.swift:150 | removing "```" deletes backticks only, keeps every other character in order, and leaves no "```" behind |
| Text.RemoveAllAbsent | Backup/ver0.14/ContentView.swift:147 | removing a pattern that does not occur leaves the string unchanged |
| Text.RemoveFenceComplete | Backup/ver0.15/ContentView.swift:150 | after removing every "```" no "```" remains, not even one formed across a removed occurrence |
| Text.Filter | Backup/ver0.14/ContentView.swift:186-188 | a filtered list holds exactly the elements satisfying the predicate, and stays duplicate-free |
| Text.FilterKeepsOrder | Backup/ver0.15/ContentView.swift:313-315 | a filtered list is a subsequence of its input: the kept elements appear in their original order |
| StringOrder.LessTotal | Backup/ver0.15/ContentView.swift:179 | any two distinct titles are ordered one way or the other |
| StringOrder.LessTransitive | Backup/ver0.15/ContentView.swift:179 | the title order is transitive |
| StringOrder.Sort | Backup/ver0.15/ContentView.swift:179 | sorting a duplicate-free list gives a strictly ascending list with the same elements |
| StringOrder.SortedUnique | Backup/ver0.15/ContentView.swift:179 | two strictly ascending lists with the same elements are equal |
| StringOrder.SortListingIndependent | Backup/ver0.15/ContentView.swift:162-179 | the sorted titles of a set do not depend on the order the set was filled in |
| Converter.ParseRow | Backup/ver0.14/ContentView.swift:108-114 | a row is read exactly when the line has more than 4 comma columns, and all four fields are trimmed |
| Converter.ParseJoinedColumns | Backup/ver0.14/ContentView.swift:108-114 | joining comma-free columns with commas and reading the row back gives columns 1 to 4 trimmed, and ignores the rest |
| Converter.SegmentsSpec | Backup/ver0.14/ContentView.swift:116-127 | a row yields at most four pieces in the order H1, H2, H3, detail, and each is present exactly when its field is not empty and not "-", carrying that field |
| Converter.FileNameOf | Backup/ver0.14/ContentView.swift:97-102 | the file name differs from "converted" exactly when line 1 has more than 2 columns and column 1 is "要件定義書", and is then "要件定義書_" followed by column 2 |
| Converter.Convert | Backup/ver0.14/ContentView.swift:90-130 | a conversion happens exactly when there are at least 5 non-empty lines; otherwise the text is the error message and the file name is kept; when it happens, the file name follows line 1 and the text renders lines 4 onwards |
| Converter.HeaderLinesIgnored | Backup/ver0.14/ContentView.swift:107 | two CSVs that agree from line 4 on give the same Markdown, whatever lines 0 to 3 hold |
| Converter.ShortRowSilent | Backup/ver0.14/ContentView.swift:108-109 | a line of 4 or fewer columns contributes nothing under either policy |
| Converter.EmptyRowSilent | Backup/ver0.11/ContentView.swift:93-128 | a row with no present field leaves the output unchanged under either policy |
| Converter.EveryHeadingConcatenates | Backup/ver0.14/ContentView.swift:107-128 | under the ver0.14 policy the Markdown of several rows is the concatenation of each row's Markdown |
| Converter.EveryHeadingRowUnlines | Backup/ver0.14/ContentView.swift:116-127 | a row's ver0.14 text is its lines, each newline-terminated, with a blank line before each heading; dropping the blank lines leaves the row's visible lines |
| Converter.PerHeadingRowUnlines | Backup/ver0.13/ContentView.swift:112-142 | a row's ver0.13 text appends one newline exactly when the row has a heading field and the output is not empty, then the row's visible lines |
| Converter.PerHeadingRowNoLeadingNewline | Backup/ver0.11/ContentView.swift:98-104 | Markdown written with the per-heading-row policy never starts with a newline |
| Converter.SameNonEmptyLines | Backup/ver0.13/ContentView.swift:112-142 | the two blank-line policies produce Markdown with the same non-empty lines, namely the rows' visible lines |
| Converter.OverviewRowExample | Backup/ver0.14/ContentView.swift:116-127 | the row ("-", "Overview", "", "Some text") renders as an H2 heading and a detail line, with one blank line before the heading under ver0.14 |
| HeadingMap.RunMatchesReference | Backup/ver0.14/ContentView.swift:150-160 | the loop ends with the last heading's section open; its keys are exactly the titles of heading lines; each key holds the cleaned non-blank lines after its last heading, up to the next heading |
| HeadingMap.RunCurrentIsKey | Backup/ver0.14/ContentView.swift:158 | the open section is always in the dictionary, so the optional-chaining append never silently does nothing |
| HeadingMap.LastHeadingWins | Backup/ver0.14/ContentView.swift:154-156 | a repeated title keeps only the lines after its last occurrence |
| HeadingMap.SectionsClean | Backup/ver0.14/ContentView.swift:157-158 | every stored content line is non-empty and trimmed |
| HeadingMap.KeysClean | Backup/ver0.14/ContentView.swift:155 | no key contains "#", and no key starts or ends with a member of `.whitespaces` |
| HeadingMap.HeadingKeyDropsHashes | Backup/ver0.15/ContentView.swift:221 | a heading's name is the line with every "#" dropped, and every other character kept in order, then trimmed of whitespace |
| HeadingMap.HeadingKeyOfTitle | Backup/ver0.14/ContentView.swift:154-155 | a line of hashes, a space and a trimmed title without "#" is a heading line whose key is that title |
| HeadingMap.HeadingLineIsKey | Backup/ver0.14/ContentView.swift:154-156 | the title of every heading line is a key |
| HeadingMap.RemoveHashes | Backup/ver0.14/ContentView.swift:155 | removing "#" from hashes followed by a title equals removing it from the title alone |
| Queries.CleanIsClean | Backup/ver0.15/ContentView.swift:150-152 | cleaned content contains no "```" and has no leading or trailing whitespace |
| Queries.Pick | Backup/ver0.15/ContentView.swift:149 | a heading is picked exactly when some title contains the key; the picked title is a key and contains it |
| Queries.FirstFoundSpec | Backup/ver0.15/ContentView.swift:148-156 | getFirstContent finds nothing exactly when no key yields non-empty content; otherwise it returns the first key's non-empty content |
| Queries.FirstFoundAppend | Backup/ver0.15/ContentView.swift:148-156 | once a key has yielded content, later keys are not consulted |
| Queries.FirstContentSource | Backup/ver0.15/ContentView.swift:147-158 | the placeholder is returned when no title contains a key; otherwise the result is the placeholder or the non-empty cleaned content of a title containing a key |
| Queries.RawContentAppend | Backup/ver0.15/ContentView.swift:193-204 | the first key with any matching title decides the result, even when its content is empty and a later key would match |
| Queries.RawContentSource | Backup/ver0.15/ContentView.swift:193-204 | without a matching title the result is the placeholder; otherwise it is the placeholder or the non-empty, newline-joined cleaned content of a matching title |
| Queries.Matching | Backup/ver0.15/ContentView.swift:162-172 | the matching titles are strictly ascending and are exactly the keys that contain a key word and no exclusion word |
| Queries.AllContentSpec | Backup/ver0.15/ContentView.swift:161-191 | the result is the placeholder exactly when no qualifying title has non-empty cleaned content; otherwise it has one bullet per such title, each title once, in ascending order |
| Queries.AllContentIndependent | Backup/ver0.15/ContentView.swift:161-191 | the result depends neither on the dictionary's order nor on repeated or reordered key words |
| Queries.EntriesSkipEmpty | Backup/ver0.15/ContentView.swift:180-187 | titles whose cleaned content is empty produce no bullet |
| Summary.DeliverablesExcludeIntermediate | Backup/ver0.15/ContentView.swift:235 | no deliverables bullet has a title containing "中間" |
| Summary.TopicsDistinguishable | Backup/ver0.15/ContentView.swift:240-273 | each topic's "nothing stated" sentence differs from its list introduction |
| Summary.TopicSentence | Backup/ver0.15/ContentView.swift:240-273 | a topic paragraph is its "nothing stated" sentence exactly when no qualifying title has content; otherwise it is the introduction followed by the bullets |
| Summary.IndentRoundTrip | Backup/ver0.15/ContentView.swift:285 | indenting every directory line by four spaces loses nothing: removing four spaces from every line gives the text back |
| Summary.IndentLinesOf | Backup/ver0.15/ContentView.swift:285 | the indented text, split on newlines, is the original lines, each indented |
| Summary.SystemConfigSpec | Backup/ver0.15/ContentView.swift:279-290 | the system configuration is the "nothing stated" sentence exactly when both the directory and the flow are placeholders; otherwise it starts with its introduction; the directory block follows the introduction whenever the directory is not the placeholder, the flow line ends the text whenever the flow is not the placeholder, and each is absent when its value is the placeholder |
| Summary.AnalyzeListsIndependent | Backup/ver0.15/ContentView.swift:231-237 | every list-valued slot of the summary is independent of the dictionary's order |
| Summary.SuggestionsSpec | Backup/ver0.15/ContentView.swift:311-326 | the missing labels are exactly the four labels that are not keys; the text is "改善案はありません。" exactly when none is missing, and otherwise the header followed by one bullet per missing label; the missing labels keep the fixed order 非機能要件, 制約条件, 性能要件, セキュリティ要件 |
| Summary.MissingSpelledOut | Backup/ver0.15/ContentView.swift:313-315 | the missing labels are, in this order, 非機能要件 unless it is a key, then 制約条件, then 性能要件, then セキュリティ要件, each unless it is a key |
| Summary.SummarizeGuard | Backup/ver0.15/ContentView.swift:207-214 | Markdown with no non-empty line yields only "要約する内容がありません。"; any other Markdown yields a summary starting with the project sentence |
| Summary.ProjectNameOfDocument | Backup/ver0.15/ContentView.swift:228 | the project name of "要件定義書_" followed by a title is that title, when the title does not itself contain the prefix |
| Narrative.QuoteAppears | Backup/ver0.13/ContentView.swift:178-186 | a quoted paragraph is written exactly when some title contains its key |
| Narrative.Narrative13Paragraphs | Backup/ver0.13/ContentView.swift:178-186 | the purpose and overview paragraphs appear exactly when some title contains "目的" or "概要" |
| Narrative.Narrative13Lists | Backup/ver0.13/ContentView.swift:188-232 | the "その他" bullets are exactly the titles with content mentioning none of "目的", "概要", "機能", "技術仕様"; the functional bullets are exactly the titles with content containing "機能" |
| Narrative.TitleBulletsSkipEmpty | Backup/ver0.13/ContentView.swift:191-199 | titles without content produce no bullet |
| Narrative.Narrative13Frame | Backup/ver0.13/ContentView.swift:162-163 | the narrative starts with the project sentence and ends with the closing sentence |
| Narrative.Summarize13Guard | Backup/ver0.13/ContentView.swift:153-160 | the result is "要約する内容がありません。" exactly when the Markdown has no non-empty line |
| Narrative.Overview14Functional | Backup/ver0.14/ContentView.swift:169-178 | the functional block is written exactly when some title contains "機能", even if none has content, and its bullets are those of the functional titles with content |
| Narrative.Summarize14Guard | Backup/ver0.14/ContentView.swift:138-148 | no non-empty line means only the message; otherwise the overview starts with the project sentence |
| Pipeline.PoliciesAgree | Backup/ver0.13/ContentView.swift:112-142 | converting a CSV under either blank-line policy gives the same file name, the same non-empty lines and the same heading dictionary |
| Pipeline.ConvertedLines | Backup/ver0.14/ContentView.swift:107-130 | the non-empty lines of converted Markdown are exactly the visible lines of the data rows, in order |
| Pipeline.HeadingFieldBecomesKey | Backup/ver0.14/ContentView.swift:116-124 | a present heading field of a data row that contains no "#" is a key of the dictionary read back from the converted Markdown, whichever policy wrote it |
| Pipeline.ProjectNameRoundTrip | Backup/ver0.15/ContentView.swift:228 | the summary's project name is the CSV title of a requirements document, and "converted" otherwise |

## Left out

- The SwiftUI views, file dialogs, alerts, `DispatchQueue`, reading and writing files, and the `catch` branch for unreadable files. These are GUI and I/O. The converter starts from the CSV text that was already read.
- Backup/ver0.11/AttributedTextEditor.swift, which is a pure AppKit text-view wrapper.
- Colours, fonts and `AttributedString` attributes. They carry no text, so the Markdown and the summaries are plain strings.
- Unicode character sets. `.whitespaces` and `.newlines` are fixed lists of code points, and the text works on code points, not on grapheme clusters.
- Swift's `String` ordering. Unicode-normalising comparison is modelled as lexicographic order on code points.
- CSV quoting in the sense of section 2 of RFC 4180. The source splits on every comma, and so does the model.
- Swift `Dictionary` iteration order. It is the `order` parameter, and properties are stated for every order.
- Text.Contains: in the model an empty needle matches every string (Text.ContainsEmpty), whereas Foundation's `contains("")` answers false. No key word in the source is empty, so the case never arises.
- `Summary.ProjectNameOfDocument` and `Pipeline.ProjectNameRoundTrip` give the title back only when it does not itself contain "要件定義書_", because the source removes every occurrence of that prefix.
- `Pipeline.HeadingFieldBecomesKey` covers only heading fields without "#", because the source removes every "#" from a heading line, including those inside the title.
- `Narrative.Summarize14Guard` and `Summary.SummarizeGuard` state only the start of the summary. The full text is `ReportText` / `Overview14`; the topic paragraphs, lists and system block inside it are characterised by their own rows.
