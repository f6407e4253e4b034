/**
 * The three lookups `summarizeMarkdown` (ver0.15) makes in the heading
 * dictionary: the first non-empty content for a list of keywords, the
 * sorted bullet list of every heading matching a keyword and no
 * exclusion, and the raw content of the first heading matching a
 * keyword. A keyword matches a heading when the heading's title contains
 * it.
 *
 * Swift does not specify the iteration order of a `Dictionary`, and
 * `first(where:)` depends on it. Here that order is a parameter: any
 * `order` that lists every key exactly once (`IsEnumeration`). Lemmas
 * about `FirstContent` and `RawContent` hold for every such order; the
 * bullet list of `AllContent` is shown not to depend on it at all.
 */
module Queries {
  import opened Text
  import opened StringOrder

  /** The dictionary built by the heading loop: section title to content lines. */
  type ContentMap = map<string, seq<string>>

  /** Returned when nothing suitable was found. */
  const Placeholder: string := "記載がありません"

  /** Separators used to join a section's lines. */
  const SentenceSep: string := "。 "
  const ListSep: string := ", "
  const LineSep: string := "\n"

  /** `order` is a possible iteration order of the dictionary: every key exactly once. */
  ghost predicate IsEnumeration(order: seq<string>, m: ContentMap) {
    Distinct(order) && forall k :: k in order <==> k in m
  }

  /* ---------------------------------------------------------------- */
  /* Cleaning a section's content                                      */
  /* ---------------------------------------------------------------- */

  /** Every line with each "```" removed. */
  function StripFences(lines: seq<string>): (r: seq<string>)
    ensures |r| == |lines|
    ensures forall i :: 0 <= i < |r| ==> !HasFence(r[i])
  {
    if |lines| == 0 then []
    else
      RemoveFenceComplete(lines[0]);
      [RemoveAll(lines[0], Fence)] + StripFences(lines[1..])
  }

  /** The content as the summary shows it: fences removed, lines joined, trimmed. */
  function Clean(lines: seq<string>, sep: string): string {
    Trim(Join(StripFences(lines), sep), WhitespacesAndNewlines)
  }

  predicate NoBacktick(s: string) {
    forall i :: 0 <= i < |s| ==> s[i] != '`'
  }

  /** Joining fence-free parts with a backtick-free separator creates no fence. */
  lemma {:induction false} JoinNoFence(parts: seq<string>, sep: string)
    requires forall i :: 0 <= i < |parts| ==> !HasFence(parts[i])
    requires |sep| > 0 && NoBacktick(sep)
    ensures !HasFence(Join(parts, sep))
    decreases |parts|
  {
    if |parts| > 1 {
      JoinNoFence(parts[1..], sep);
      assert !HasFence(sep) by {
        forall i | 0 <= i < |sep| - 2 ensures !FenceAt(sep, i) {
        }
      }
      NoFenceAppendHead(parts[0], sep);
      var a := parts[0] + sep;
      assert a[|a| - 1] == sep[|sep| - 1];
      NoFenceAppendTail(a, Join(parts[1..], sep));
    }
  }

  /** The three separators the summary uses. */
  predicate KnownSep(sep: string) {
    sep == SentenceSep || sep == ListSep || sep == LineSep
  }

  /**
   * Cleaned content contains no "```" and has no leading or trailing
   * whitespace or newline.
   */
  lemma CleanIsClean(lines: seq<string>, sep: string)
    requires KnownSep(sep)
    ensures !Contains(Clean(lines, sep), Fence)
    ensures IsTrimmed(Clean(lines, sep), WhitespacesAndNewlines)
  {
    var j := Join(StripFences(lines), sep);
    assert |sep| > 0 && NoBacktick(sep);
    JoinNoFence(StripFences(lines), sep);
    TrimIsSlice(j, WhitespacesAndNewlines);
    var i := |j| - |TrimStart(j, WhitespacesAndNewlines)|;
    NoFenceSlice(j, i, i + |Clean(lines, sep)|);
    ContainsFence(Clean(lines, sep));
  }

  /* ---------------------------------------------------------------- */
  /* first(where:)                                                     */
  /* ---------------------------------------------------------------- */

  /** Position in `order` of the first title containing `key`, or `|order|`. */
  function FirstMatch(order: seq<string>, key: string): (i: nat)
    ensures i <= |order|
    ensures i < |order| ==> Contains(order[i], key)
    ensures forall j :: 0 <= j < i ==> !Contains(order[j], key)
  {
    if |order| == 0 then 0
    else if Contains(order[0], key) then 0
    else 1 + FirstMatch(order[1..], key)
  }

  /** The title `first(where: { $0.key.contains(key) })` picks, if any. */
  function Pick(order: seq<string>, key: string): (r: Option<string>)
    ensures r.None? <==> forall j :: 0 <= j < |order| ==> !Contains(order[j], key)
    ensures r.Some? ==> r.value in order && Contains(r.value, key)
  {
    var i := FirstMatch(order, key);
    if i < |order| then Some(order[i]) else None
  }

  /* ---------------------------------------------------------------- */
  /* getFirstContent                                                   */
  /* ---------------------------------------------------------------- */

  /** The content `key` yields in `getFirstContent`: its picked title's, when that is not empty. */
  function KeyContent(key: string, m: ContentMap, order: seq<string>): Option<string>
    requires IsEnumeration(order, m)
  {
    match Pick(order, key)
    case None => None
    case Some(h) =>
      var c := Clean(m[h], SentenceSep);
      if c != "" then Some(c) else None
  }

  /** The loop of `getFirstContent` before the placeholder fallback. */
  function FirstFound(keys: seq<string>, m: ContentMap, order: seq<string>): Option<string>
    requires IsEnumeration(order, m)
  {
    if |keys| == 0 then None
    else if KeyContent(keys[0], m, order).Some? then KeyContent(keys[0], m, order)
    else FirstFound(keys[1..], m, order)
  }

  /** `getFirstContent`. */
  function FirstContent(keys: seq<string>, m: ContentMap, order: seq<string>): string
    requires IsEnumeration(order, m)
  {
    match FirstFound(keys, m, order)
    case None => Placeholder
    case Some(c) => c
  }

  /**
   * Keys are tried in list order: once a key yields content, the keys
   * after it are never consulted.
   */
  lemma {:induction false} FirstFoundAppend(keys: seq<string>, more: seq<string>, m: ContentMap, order: seq<string>)
    requires IsEnumeration(order, m)
    ensures FirstFound(keys + more, m, order)
            == if FirstFound(keys, m, order).Some? then FirstFound(keys, m, order) else FirstFound(more, m, order)
    decreases |keys|
  {
    if |keys| == 0 {
      assert keys + more == more;
    } else {
      assert (keys + more)[0] == keys[0];
      assert (keys + more)[1..] == keys[1..] + more;
      FirstFoundAppend(keys[1..], more, m, order);
    }
  }

  /** The result is a key's content for the first key that yields one, and nothing when none does. */
  lemma {:induction false} FirstFoundSpec(keys: seq<string>, m: ContentMap, order: seq<string>)
    requires IsEnumeration(order, m)
    ensures FirstFound(keys, m, order).None? <==> forall t :: 0 <= t < |keys| ==> KeyContent(keys[t], m, order).None?
    ensures FirstFound(keys, m, order).Some? ==>
              exists t :: 0 <= t < |keys| && FirstFound(keys, m, order) == KeyContent(keys[t], m, order)
                && forall u :: 0 <= u < t ==> KeyContent(keys[u], m, order).None?
    decreases |keys|
  {
    if |keys| > 0 {
      FirstFoundSpec(keys[1..], m, order);
      assert forall t :: 0 < t < |keys| ==> keys[1..][t - 1] == keys[t];
      if KeyContent(keys[0], m, order).None? && FirstFound(keys, m, order).Some? {
        var t :| 0 <= t < |keys[1..]| && FirstFound(keys[1..], m, order) == KeyContent(keys[1..][t], m, order)
                 && forall u :: 0 <= u < t ==> KeyContent(keys[1..][u], m, order).None?;
        assert FirstFound(keys, m, order) == KeyContent(keys[t + 1], m, order);
        forall u | 0 <= u < t + 1 ensures KeyContent(keys[u], m, order).None? {
          if u > 0 {
            assert keys[1..][u - 1] == keys[u];
          }
        }
      }
    }
  }

  /** A found content is non-empty, cleaned, and comes from a title containing a key. */
  lemma KeyContentSpec(key: string, m: ContentMap, order: seq<string>)
    requires IsEnumeration(order, m)
    requires KeyContent(key, m, order).Some?
    ensures var c := KeyContent(key, m, order).value;
            exists h :: h in m && Contains(h, key) && c == Clean(m[h], SentenceSep) && c != ""
  {
    var h := Pick(order, key).value;
    assert h in m && Contains(h, key);
  }

  /**
   * `getFirstContent` returns the placeholder when no title contains any
   * of the keys; otherwise the placeholder or the non-empty cleaned
   * content of a title containing one of the keys.
   */
  lemma FirstContentSource(keys: seq<string>, m: ContentMap, order: seq<string>)
    requires IsEnumeration(order, m)
    ensures (forall t, h :: 0 <= t < |keys| && h in m ==> !Contains(h, keys[t])) ==> FirstContent(keys, m, order) == Placeholder
    ensures var r := FirstContent(keys, m, order);
            r == Placeholder
            || exists t, h :: 0 <= t < |keys| && h in m && Contains(h, keys[t]) && r == Clean(m[h], SentenceSep) && r != ""
  {
    FirstFoundSpec(keys, m, order);
    if FirstFound(keys, m, order).Some? {
      var t :| 0 <= t < |keys| && FirstFound(keys, m, order) == KeyContent(keys[t], m, order)
               && forall u :: 0 <= u < t ==> KeyContent(keys[u], m, order).None?;
      KeyContentSpec(keys[t], m, order);
    }
  }

  /* ---------------------------------------------------------------- */
  /* getRawContentForHeading                                           */
  /* ---------------------------------------------------------------- */

  /** Some title contains some key. */
  predicate AnyPick(keys: seq<string>, order: seq<string>) {
    exists t :: 0 <= t < |keys| && Pick(order, keys[t]).Some?
  }

  /**
   * `getRawContentForHeading`: the first key with any matching title
   * decides, and its content, joined by newlines, is returned or the
   * placeholder when it is empty.
   */
  function RawContent(keys: seq<string>, m: ContentMap, order: seq<string>): string
    requires IsEnumeration(order, m)
  {
    if |keys| == 0 then Placeholder
    else match Pick(order, keys[0])
      case Some(h) =>
        var c := Clean(m[h], LineSep);
        if c == "" then Placeholder else c
      case None => RawContent(keys[1..], m, order)
  }

  /**
   * Keys after the first key with a matching title are never consulted,
   * even when that title's content is empty and a later key would have
   * content.
   */
  lemma {:induction false} RawContentAppend(keys: seq<string>, more: seq<string>, m: ContentMap, order: seq<string>)
    requires IsEnumeration(order, m)
    ensures RawContent(keys + more, m, order)
            == if AnyPick(keys, order) then RawContent(keys, m, order) else RawContent(more, m, order)
    decreases |keys|
  {
    if |keys| == 0 {
      assert keys + more == more;
    } else {
      assert (keys + more)[0] == keys[0];
      assert (keys + more)[1..] == keys[1..] + more;
      RawContentAppend(keys[1..], more, m, order);
      if Pick(order, keys[0]).None? {
        assert AnyPick(keys, order) <==> AnyPick(keys[1..], order) by {
          if AnyPick(keys, order) {
            var t :| 0 <= t < |keys| && Pick(order, keys[t]).Some?;
            assert keys[1..][t - 1] == keys[t];
          }
          if AnyPick(keys[1..], order) {
            var t :| 0 <= t < |keys[1..]| && Pick(order, keys[1..][t]).Some?;
            assert keys[t + 1] == keys[1..][t];
          }
        }
      } else {
        assert AnyPick(keys, order) by { assert Pick(order, keys[0]).Some?; }
      }
    }
  }

  /**
   * The raw content is the placeholder when no title contains a key;
   * otherwise it is the placeholder or the non-empty cleaned content of
   * the picked title, which then contains no "```" and is trimmed.
   */
  lemma {:induction false} RawContentSource(keys: seq<string>, m: ContentMap, order: seq<string>)
    requires IsEnumeration(order, m)
    ensures !AnyPick(keys, order) ==> RawContent(keys, m, order) == Placeholder
    ensures var r := RawContent(keys, m, order);
            r == Placeholder
            || (exists h :: h in m && r == Clean(m[h], LineSep) && r != "" && exists t :: 0 <= t < |keys| && Contains(h, keys[t]))
    decreases |keys|
  {
    if |keys| > 0 {
      match Pick(order, keys[0])
      case Some(h) =>
        assert h in m && Contains(h, keys[0]);
      case None =>
        RawContentSource(keys[1..], m, order);
        assert forall t :: 0 < t < |keys| ==> keys[1..][t - 1] == keys[t];
        assert AnyPick(keys[1..], order) ==> AnyPick(keys, order);
    }
  }

  /* ---------------------------------------------------------------- */
  /* getAllContent                                                     */
  /* ---------------------------------------------------------------- */

  /** The title contains one of the exclusion keywords. */
  predicate Excluded(h: string, excluding: seq<string>) {
    exists e :: e in excluding && Contains(h, e)
  }

  /** The title contains one of the keys and none of the exclusions. */
  predicate Qualifies(h: string, keys: seq<string>, excluding: seq<string>) {
    (exists k :: k in keys && Contains(h, k)) && !Excluded(h, excluding)
  }

  /** `allMatchingHeadings.sorted()`: the qualifying titles, ascending, each once. */
  function Matching(keys: seq<string>, excluding: seq<string>, m: ContentMap, order: seq<string>): (r: seq<string>)
    requires IsEnumeration(order, m)
    ensures StrictlySorted(r)
    ensures forall h :: h in r <==> h in m && Qualifies(h, keys, excluding)
  {
    Sort(Filter(order, h => Qualifies(h, keys, excluding)))
  }

  /** The title's content, joined by ", ", is not empty once cleaned. */
  predicate HasContent(m: ContentMap, h: string)
    requires h in m
  {
    |m[h]| > 0 && Clean(m[h], ListSep) != ""
  }

  /** One bullet of `getAllContent`, or nothing for a title without content. */
  function Entry(m: ContentMap, h: string): string
    requires h in m
  {
    if HasContent(m, h) then "・" + h + ": " + Clean(m[h], ListSep) + "\n" else ""
  }

  /** The bullets for `hs`, in order. */
  function Entries(m: ContentMap, hs: seq<string>): string
    requires forall h :: h in hs ==> h in m
  {
    if |hs| == 0 then "" else Entry(m, hs[0]) + Entries(m, hs[1..])
  }

  /** `getAllContent`. */
  function AllContent(keys: seq<string>, excluding: seq<string>, m: ContentMap, order: seq<string>): string
    requires IsEnumeration(order, m)
  {
    var hs := Matching(keys, excluding, m, order);
    if |hs| == 0 then Placeholder
    else
      var r := Entries(m, hs);
      if r == "" then Placeholder else r
  }

  /** The titles that get a bullet: the qualifying ones with content, ascending. */
  function Listed(keys: seq<string>, excluding: seq<string>, m: ContentMap, order: seq<string>): seq<string>
    requires IsEnumeration(order, m)
  {
    Filter(Matching(keys, excluding, m, order), h => h in m && HasContent(m, h))
  }

  lemma {:induction false} FilterStrictlySorted(s: seq<string>, p: string -> bool)
    requires StrictlySorted(s)
    ensures StrictlySorted(Filter(s, p))
    decreases |s|
  {
    if |s| > 0 {
      FilterStrictlySorted(s[1..], p);
      var rest := Filter(s[1..], p);
      forall y | y in rest ensures Less(s[0], y) {
        var j :| 0 <= j < |s[1..]| && s[1..][j] == y;
        assert s[j + 1] == y;
      }
      if p(s[0]) {
        var r := [s[0]] + rest;
        forall i, j | 0 <= i < j < |r| ensures Less(r[i], r[j]) {
          assert r[j] == rest[j - 1];
          if i > 0 {
            assert r[i] == rest[i - 1];
          }
        }
      }
    }
  }

  /** A non-empty run of bullets starts with the bullet mark. */
  lemma {:induction false} EntriesHead(m: ContentMap, hs: seq<string>)
    requires forall h :: h in hs ==> h in m
    ensures Entries(m, hs) != "" ==> Entries(m, hs)[0] == '・'
    decreases |hs|
  {
    if |hs| > 0 {
      EntriesHead(m, hs[1..]);
    }
  }

  /** Titles without content contribute nothing: the bullets are those of the listed titles. */
  lemma {:induction false} EntriesSkipEmpty(m: ContentMap, hs: seq<string>)
    requires forall h :: h in hs ==> h in m
    ensures Entries(m, hs) == Entries(m, Filter(hs, h => h in m && HasContent(m, h)))
    decreases |hs|
  {
    if |hs| > 0 {
      EntriesSkipEmpty(m, hs[1..]);
    }
  }

  /** Every bullet of a listed title is non-empty, so bullets are empty exactly when nothing is listed. */
  lemma EntriesEmpty(m: ContentMap, hs: seq<string>)
    requires forall h :: h in hs ==> h in m && HasContent(m, h)
    ensures Entries(m, hs) == "" <==> hs == []
  {
  }

  /**
   * `getAllContent` lists, in ascending title order and once each,
   * exactly the titles that contain a key, contain no exclusion and
   * have content; it returns the placeholder exactly when there is no
   * such title.
   */
  lemma AllContentSpec(keys: seq<string>, excluding: seq<string>, m: ContentMap, order: seq<string>)
    requires IsEnumeration(order, m)
    ensures var l := Listed(keys, excluding, m, order);
            StrictlySorted(l)
            && (forall h :: h in l <==> h in m && Qualifies(h, keys, excluding) && HasContent(m, h))
    ensures AllContent(keys, excluding, m, order)
            == if Listed(keys, excluding, m, order) == [] then Placeholder else Entries(m, Listed(keys, excluding, m, order))
    ensures AllContent(keys, excluding, m, order) == Placeholder
            <==> forall h :: h in m && Qualifies(h, keys, excluding) ==> !HasContent(m, h)
  {
    var hs := Matching(keys, excluding, m, order);
    var l := Listed(keys, excluding, m, order);
    FilterStrictlySorted(hs, h => h in m && HasContent(m, h));
    EntriesSkipEmpty(m, hs);
    EntriesEmpty(m, l);
    EntriesHead(m, l);
    assert Placeholder[0] == '記';
    if |hs| == 0 {
      assert l == [];
    }
    if l != [] {
      assert l[0] in l;
    }
  }

  /**
   * The bullet list depends neither on the dictionary's iteration order
   * nor on how the keys are listed (repeats or reordering): only on the
   * set of keys.
   */
  lemma AllContentIndependent(keys1: seq<string>, keys2: seq<string>, excluding: seq<string>, m: ContentMap,
                              order1: seq<string>, order2: seq<string>)
    requires IsEnumeration(order1, m) && IsEnumeration(order2, m)
    requires forall k :: k in keys1 <==> k in keys2
    ensures AllContent(keys1, excluding, m, order1) == AllContent(keys2, excluding, m, order2)
  {
    var a := Matching(keys1, excluding, m, order1);
    var b := Matching(keys2, excluding, m, order2);
    assert forall h :: Qualifies(h, keys1, excluding) <==> Qualifies(h, keys2, excluding);
    SortedUnique(a, b);
  }
}
