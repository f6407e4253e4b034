/**
 * The handful of Foundation string operations the converter and the
 * summariser are built from, stated over `string` (= `seq<char>`):
 * trimming with a character set, splitting on a separator, joining,
 * substring search, `replacingOccurrences(of:with: "")`, and the
 * "split on newlines, drop empty components" idiom used for every
 * line scan.
 */
module Text {

  /** An optional value: Swift's `T?`. */
  datatype Option<T> = None | Some(value: T)

  /* ---------------------------------------------------------------- */
  /* Character sets                                                    */
  /* ---------------------------------------------------------------- */

  /** The two Foundation character sets the source trims with. */
  datatype CharClass = Whitespaces | WhitespacesAndNewlines

  /** Members of `CharacterSet.newlines` (line and paragraph separators). */
  predicate IsNewline(c: char) {
    c == '\n' || c == '\r' || c == '\U{0B}' || c == '\U{0C}'
    || c == '\U{85}' || c == '\U{2028}' || c == '\U{2029}'
  }

  /** Members of `CharacterSet.whitespaces` (tab and the space separators). */
  predicate IsSpace(c: char) {
    c == ' ' || c == '\t' || c == '\U{A0}' || c == '\U{1680}'
    || ('\U{2000}' <= c <= '\U{200A}') || c == '\U{202F}' || c == '\U{205F}' || c == '\U{3000}'
  }

  predicate InClass(c: char, cls: CharClass) {
    IsSpace(c) || (cls == WhitespacesAndNewlines && IsNewline(c))
  }

  /** No character of `s` belongs to `CharacterSet.newlines`. */
  predicate SingleLine(s: string) {
    forall k :: 0 <= k < |s| ==> !IsNewline(s[k])
  }

  /* ---------------------------------------------------------------- */
  /* Trimming                                                          */
  /* ---------------------------------------------------------------- */

  /** Neither end of `s` is a member of `cls`. */
  predicate IsTrimmed(s: string, cls: CharClass) {
    s == [] || (!InClass(s[0], cls) && !InClass(s[|s| - 1], cls))
  }

  function TrimStart(s: string, cls: CharClass): (r: string)
    ensures |r| <= |s|
    ensures r == [] || !InClass(r[0], cls)
  {
    if |s| > 0 && InClass(s[0], cls) then TrimStart(s[1..], cls) else s
  }

  function TrimEnd(s: string, cls: CharClass): (r: string)
    ensures |r| <= |s|
    ensures r == [] || !InClass(r[|r| - 1], cls)
  {
    if |s| > 0 && InClass(s[|s| - 1], cls) then TrimEnd(s[..|s| - 1], cls) else s
  }

  /** `TrimStart` keeps a suffix of its argument. */
  lemma {:induction false} TrimStartSlice(s: string, cls: CharClass)
    ensures TrimStart(s, cls) == s[|s| - |TrimStart(s, cls)|..]
    decreases |s|
  {
    if |s| > 0 && InClass(s[0], cls) {
      TrimStartSlice(s[1..], cls);
      var r := TrimStart(s, cls);
      assert s[1..][|s| - 1 - |r|..] == s[|s| - |r|..];
    }
  }

  /** `TrimStart` drops only members of the class. */
  lemma {:induction false} TrimStartDropped(s: string, cls: CharClass)
    ensures forall k :: 0 <= k < |s| - |TrimStart(s, cls)| ==> InClass(s[k], cls)
    decreases |s|
  {
    if |s| > 0 && InClass(s[0], cls) {
      TrimStartDropped(s[1..], cls);
      var r := TrimStart(s, cls);
      forall k | 0 < k < |s| - |r| ensures InClass(s[k], cls) {
        assert s[k] == s[1..][k - 1];
      }
    }
  }

  /** `TrimEnd` keeps a prefix of its argument. */
  lemma {:induction false} TrimEndSlice(s: string, cls: CharClass)
    ensures TrimEnd(s, cls) == s[..|TrimEnd(s, cls)|]
    decreases |s|
  {
    if |s| > 0 && InClass(s[|s| - 1], cls) {
      TrimEndSlice(s[..|s| - 1], cls);
      var r := TrimEnd(s, cls);
      assert s[..|s| - 1][..|r|] == s[..|r|];
    }
  }

  /** `TrimEnd` drops only members of the class. */
  lemma {:induction false} TrimEndDropped(s: string, cls: CharClass)
    ensures forall k :: |TrimEnd(s, cls)| <= k < |s| ==> InClass(s[k], cls)
    decreases |s|
  {
    if |s| > 0 && InClass(s[|s| - 1], cls) {
      TrimEndDropped(s[..|s| - 1], cls);
      var r := TrimEnd(s, cls);
      forall k | |r| <= k < |s| - 1 ensures InClass(s[k], cls) {
        assert s[k] == s[..|s| - 1][k];
      }
    }
  }

  /**
   * `trimmingCharacters(in:)`: `s` without its longest prefix and longest
   * suffix made of members of `cls`.
   */
  function Trim(s: string, cls: CharClass): (r: string)
    ensures IsTrimmed(r, cls)
    ensures |r| <= |s|
  {
    TrimEndSlice(TrimStart(s, cls), cls);
    TrimEnd(TrimStart(s, cls), cls)
  }

  lemma SliceOfSuffix<T>(s: seq<T>, i: nat, n: nat)
    requires i + n <= |s|
    ensures s[i..][..n] == s[i..i + n]
  {
  }

  lemma SuffixIndex<T>(s: seq<T>, i: nat, k: nat)
    requires i <= k < |s|
    ensures s[i..][k - i] == s[k]
  {
  }

  /** What trimming keeps: one contiguous piece of the argument. */
  lemma TrimIsSlice(s: string, cls: CharClass)
    ensures var i := |s| - |TrimStart(s, cls)|;
            i + |Trim(s, cls)| <= |s| && Trim(s, cls) == s[i..i + |Trim(s, cls)|]
  {
    var t := TrimStart(s, cls);
    var r := TrimEnd(t, cls);
    var i := |s| - |t|;
    assert t == s[i..] by { TrimStartSlice(s, cls); }
    assert r == t[..|r|] by { TrimEndSlice(t, cls); }
    assert Trim(s, cls) == r;
    SliceOfSuffix(s, i, |r|);
  }

  /** What trimming removes: a prefix and a suffix made of class members, nothing else. */
  lemma TrimDropped(s: string, cls: CharClass)
    ensures var i := |s| - |TrimStart(s, cls)|;
            && (forall k :: 0 <= k < i ==> InClass(s[k], cls))
            && (forall k :: i + |Trim(s, cls)| <= k < |s| ==> InClass(s[k], cls))
  {
    var t := TrimStart(s, cls);
    var i := |s| - |t|;
    var r := TrimEnd(t, cls);
    assert Trim(s, cls) == r;
    TrimStartDropped(s, cls);
    assert t == s[i..] by { TrimStartSlice(s, cls); }
    assert forall k :: |r| <= k < |t| ==> InClass(t[k], cls) by { TrimEndDropped(t, cls); }
    forall k | i + |r| <= k < |s| ensures InClass(s[k], cls) {
      assert t[k - i] == s[k];
    }
  }

  /** Trimming a string that is already trimmed changes nothing. */
  lemma TrimTrimmed(s: string, cls: CharClass)
    requires IsTrimmed(s, cls)
    ensures Trim(s, cls) == s
  {
    if |s| > 0 {
      assert TrimStart(s, cls) == s;
    }
  }

  /** A leading member of the class is dropped by trimming. */
  lemma TrimLeading(c: char, s: string, cls: CharClass)
    requires InClass(c, cls)
    ensures Trim([c] + s, cls) == Trim(s, cls)
  {
    assert ([c] + s)[1..] == s;
  }

  /** A string without newlines stays without newlines once trimmed. */
  lemma TrimSingleLine(s: string, cls: CharClass)
    requires SingleLine(s)
    ensures SingleLine(Trim(s, cls))
  {
    TrimIsSlice(s, cls);
    var i := |s| - |TrimStart(s, cls)|;
    var r := Trim(s, cls);
    forall k | 0 <= k < |r| ensures !IsNewline(r[k]) {
      assert r[k] == s[i + k];
    }
  }

  /* ---------------------------------------------------------------- */
  /* Substrings                                                        */
  /* ---------------------------------------------------------------- */

  predicate OccursAt(s: string, p: string, i: int) {
    0 <= i <= |s| - |p| && s[i..i + |p|] == p
  }

  /** `s.contains(p)`. */
  predicate Contains(s: string, p: string) {
    exists i :: 0 <= i <= |s| - |p| && OccursAt(s, p, i)
  }

  predicate StartsWith(s: string, p: string) {
    |p| <= |s| && s[..|p|] == p
  }

  predicate EndsWith(s: string, p: string) {
    |p| <= |s| && s[|s| - |p|..] == p
  }

  /** Each end of a three-part concatenation is found at that end. */
  lemma ConcatEnds(x: string, y: string, z: string)
    ensures StartsWith(x + y + z, x) && StartsWith(x + y + z, x + y) && EndsWith(x + y + z, z)
  {
    var s := x + y + z;
    assert s[..|x|] == x;
    assert s[..|x + y|] == x + y;
    assert s[|s| - |z|..] == z;
  }

  /**
   * An empty needle is found in every string. Foundation's
   * `contains("")` answers false instead; no key word is empty.
   */
  lemma ContainsEmpty(s: string)
    ensures Contains(s, "")
  {
    assert OccursAt(s, "", 0);
  }

  /** A one-character needle is found exactly when the character occurs. */
  lemma ContainsChar(s: string, c: char)
    ensures Contains(s, [c]) <==> c in s
  {
    if c in s {
      var i :| 0 <= i < |s| && s[i] == c;
      assert s[i..i + 1] == [c];
      assert OccursAt(s, [c], i);
    }
    if Contains(s, [c]) {
      var i :| 0 <= i <= |s| - 1 && OccursAt(s, [c], i);
      assert s[i..i + 1][0] == s[i];
    }
  }

  /** Three consecutive backticks somewhere in `s`. */
  predicate HasFence(s: string) {
    exists i :: 0 <= i < |s| - 2 && FenceAt(s, i)
  }

  predicate FenceAt(s: string, i: int)
    requires 0 <= i < |s| - 2
  {
    s[i] == '`' && s[i + 1] == '`' && s[i + 2] == '`'
  }

  const Fence: string := "```"

  lemma ContainsFence(s: string)
    ensures Contains(s, Fence) <==> HasFence(s)
  {
    assert |Fence| == 3;
    if Contains(s, Fence) {
      var i :| 0 <= i <= |s| - 3 && OccursAt(s, Fence, i);
      assert s[i..i + 3][0] == s[i] && s[i..i + 3][1] == s[i + 1] && s[i..i + 3][2] == s[i + 2];
      assert FenceAt(s, i);
    }
    if HasFence(s) {
      var i :| 0 <= i < |s| - 2 && FenceAt(s, i);
      assert s[i..i + 3] == Fence;
      assert OccursAt(s, Fence, i);
    }
  }

  /* ---------------------------------------------------------------- */
  /* replacingOccurrences(of: p, with: "")                             */
  /* ---------------------------------------------------------------- */

  /**
   * Deletes the occurrences of `p` found by a left-to-right scan that
   * does not re-examine what it has just deleted (Foundation's
   * non-overlapping, leftmost-first replacement).
   */
  function RemoveAll(s: string, p: string): (r: string)
    requires |p| > 0
    ensures |r| <= |s|
    decreases |s|
  {
    if |s| < |p| then s
    else if s[..|p|] == p then RemoveAll(s[|p|..], p)
    else [s[0]] + RemoveAll(s[1..], p)
  }

  /** Removing a needle that does not occur is the identity. */
  lemma {:induction false} RemoveAllAbsent(s: string, p: string)
    requires |p| > 0
    requires !Contains(s, p)
    ensures RemoveAll(s, p) == s
    decreases |s|
  {
    if |s| >= |p| {
      assert s[..|p|] != p by { assert s[0..0 + |p|] == s[..|p|]; assert !OccursAt(s, p, 0); }
      assert !Contains(s[1..], p) by {
        forall i | OccursAt(s[1..], p, i) ensures false {
          assert s[1..][i..i + |p|] == s[i + 1..i + 1 + |p|];
          assert OccursAt(s, p, i + 1);
        }
      }
      RemoveAllAbsent(s[1..], p);
    }
  }

  /** The characters of `s` outside `drop`, in order: a plain per-character filter. */
  function Without(s: string, drop: set<char>): (r: string)
    ensures |r| <= |s|
  {
    if |s| == 0 then []
    else (if s[0] in drop then [] else [s[0]]) + Without(s[1..], drop)
  }

  /** The characters left are exactly those of `s` outside `drop`. */
  lemma {:induction false} WithoutChars(s: string, drop: set<char>)
    ensures forall c :: c in Without(s, drop) <==> c in s && c !in drop
    decreases |s|
  {
    if |s| > 0 {
      WithoutChars(s[1..], drop);
      assert forall c :: c in s <==> c == s[0] || c in s[1..];
    }
  }


  lemma {:induction false} WithoutAppend(a: string, b: string, drop: set<char>)
    ensures Without(a + b, drop) == Without(a, drop) + Without(b, drop)
    decreases |a|
  {
    if |a| == 0 {
      assert a + b == b;
    } else {
      assert (a + b)[0] == a[0];
      assert (a + b)[1..] == a[1..] + b;
      WithoutAppend(a[1..], b, drop);
      var h := if a[0] in drop then [] else [a[0]];
      AppendAssoc(h, Without(a[1..], drop), Without(b, drop));
    }
  }

  lemma {:induction false} WithoutDropped(a: string, drop: set<char>)
    requires forall i :: 0 <= i < |a| ==> a[i] in drop
    ensures Without(a, drop) == []
    decreases |a|
  {
    if |a| > 0 {
      WithoutDropped(a[1..], drop);
    }
  }

  lemma {:induction false} WithoutKept(a: string, drop: set<char>)
    requires forall i :: 0 <= i < |a| ==> a[i] !in drop
    ensures Without(a, drop) == a
    decreases |a|
  {
    if |a| > 0 {
      WithoutKept(a[1..], drop);
      assert [a[0]] + a[1..] == a;
    }
  }

  /** The characters a needle is made of. */
  function CharsOf(p: string): set<char> {
    set i | 0 <= i < |p| :: p[i]
  }

  /**
   * Removal deletes only characters of the needle: every other
   * character of `s` survives, in order.
   */
  lemma {:induction false} RemoveAllKeepsOthers(s: string, p: string)
    requires |p| > 0
    ensures Without(RemoveAll(s, p), CharsOf(p)) == Without(s, CharsOf(p))
    decreases |s|
  {
    var drop := CharsOf(p);
    if |s| >= |p| {
      if s[..|p|] == p {
        RemoveAllKeepsOthers(s[|p|..], p);
        assert s == p + s[|p|..];
        WithoutAppend(p, s[|p|..], drop);
        WithoutDropped(p, drop);
      } else {
        RemoveAllKeepsOthers(s[1..], p);
        assert RemoveAll(s, p) == [s[0]] + RemoveAll(s[1..], p);
        WithoutAppend([s[0]], RemoveAll(s[1..], p), drop);
        WithoutAppend([s[0]], s[1..], drop);
        assert [s[0]] + s[1..] == s;
      }
    }
  }

  /** Removing a one-character needle is exactly dropping that character everywhere. */
  lemma {:induction false} RemoveAllChar(s: string, c: char)
    ensures RemoveAll(s, [c]) == Without(s, {c})
    decreases |s|
  {
    if |s| > 0 {
      RemoveAllChar(s[1..], c);
      assert s[..1] == [s[0]];
      assert s[1..] == s[|[c]|..];
    }
  }

  /** A leading occurrence of the needle is deleted, and the scan resumes after it. */
  lemma RemoveAllHead(p: string, s: string)
    requires |p| > 0
    ensures RemoveAll(p + s, p) == RemoveAll(s, p)
  {
    assert (p + s)[..|p|] == p;
    assert (p + s)[|p|..] == s;
  }

  /** A needle whose first character does not occur is not contained. */
  lemma AbsentHead(s: string, p: string)
    requires |p| > 0 && p[0] !in s
    ensures !Contains(s, p)
  {
    forall i | 0 <= i <= |s| - |p| ensures !OccursAt(s, p, i) {
      assert s[i] in s;
      assert s[i..i + |p|][0] == s[i];
    }
  }

  /**
   * Removing fences deletes backticks only: every other character
   * survives, in order, and no fence is left.
   */
  lemma RemoveFenceKeepsText(s: string)
    ensures Without(RemoveAll(s, Fence), {'`'}) == Without(s, {'`'})
    ensures !HasFence(RemoveAll(s, Fence))
  {
    assert CharsOf(Fence) == {'`'} by {
      assert Fence[0] == '`' && Fence[1] == '`' && Fence[2] == '`';
    }
    RemoveAllKeepsOthers(s, Fence);
    RemoveFenceComplete(s);
  }

  /** A non-empty result starting with a non-backtick keeps that first character. */
  lemma {:induction false} RemoveFenceKeepsHead(s: string)
    requires |s| > 0 && s[0] != '`'
    ensures |RemoveAll(s, Fence)| > 0 && RemoveAll(s, Fence)[0] == s[0]
  {
    if |s| >= 3 {
      assert s[..3] != Fence by { assert s[..3][0] == s[0]; }
    }
  }

  /**
   * Deleting every fence leaves no fence behind, even though deletion
   * joins the text on either side: the scan never leaves a backtick
   * directly before a deleted fence.
   */
  lemma {:induction false} RemoveFenceComplete(s: string)
    ensures !HasFence(RemoveAll(s, Fence))
    decreases |s|
  {
    var r := RemoveAll(s, Fence);
    if |s| < 3 {
    } else if s[..3] == Fence {
      RemoveFenceComplete(s[3..]);
    } else {
      var t := RemoveAll(s[1..], Fence);
      RemoveFenceComplete(s[1..]);
      assert r == [s[0]] + t;
      if s[0] == '`' {
        // `t` cannot start with two backticks
        if s[1] != '`' {
          RemoveFenceKeepsHead(s[1..]);
        } else {
          assert s[2] != '`' by { assert s[..3][0] == s[0] && s[..3][1] == s[1]; }
          if |s| >= 4 {
            assert s[1..][..3] != Fence by { assert s[1..][..3][1] == s[2]; }
          }
          assert t == ['`'] + RemoveAll(s[2..], Fence) by { assert s[1..][1..] == s[2..]; }
          RemoveFenceKeepsHead(s[2..]);
        }
      }
      forall i | 0 <= i < |r| - 2 ensures !FenceAt(r, i) {
        if i > 0 {
          assert r[i] == t[i - 1] && r[i + 1] == t[i] && r[i + 2] == t[i + 1];
          assert !FenceAt(t, i - 1);
        }
      }
    }
  }

  /** Gluing two fence-free strings creates no fence when `b` starts with a non-backtick. */
  lemma NoFenceAppendHead(a: string, b: string)
    requires !HasFence(a) && !HasFence(b)
    requires |b| > 0 && b[0] != '`'
    ensures !HasFence(a + b)
  {
    var s := a + b;
    forall i | 0 <= i < |s| - 2 ensures !FenceAt(s, i) {
      if i + 2 < |a| {
        assert !FenceAt(a, i);
      } else if i >= |a| {
        assert !FenceAt(b, i - |a|);
      } else {
        assert s[|a|] == b[0];
      }
    }
  }

  /** Gluing two fence-free strings creates no fence when `a` ends with a non-backtick. */
  lemma NoFenceAppendTail(a: string, b: string)
    requires !HasFence(a) && !HasFence(b)
    requires |a| > 0 && a[|a| - 1] != '`'
    ensures !HasFence(a + b)
  {
    var s := a + b;
    forall i | 0 <= i < |s| - 2 ensures !FenceAt(s, i) {
      if i + 2 < |a| {
        assert !FenceAt(a, i);
      } else if i >= |a| {
        assert !FenceAt(b, i - |a|);
      } else {
        assert s[|a| - 1] == a[|a| - 1];
      }
    }
  }

  lemma NoFenceSlice(s: string, i: int, j: int)
    requires 0 <= i <= j <= |s|
    requires !HasFence(s)
    ensures !HasFence(s[i..j])
  {
    var t := s[i..j];
    forall k | 0 <= k < |t| - 2 ensures !FenceAt(t, k) {
      assert !FenceAt(s, i + k);
    }
  }

  /* ---------------------------------------------------------------- */
  /* Splitting and joining                                             */
  /* ---------------------------------------------------------------- */

  /** `components(separatedBy:)` with a one-character string or a character set. */
  datatype Separator = Char(c: char) | Newlines

  predicate IsSep(c: char, sep: Separator) {
    match sep
    case Char(d) => c == d
    case Newlines => IsNewline(c)
  }

  predicate NoSep(s: string, sep: Separator) {
    forall k :: 0 <= k < |s| ==> !IsSep(s[k], sep)
  }

  /** Index of the first separator in `s`, or `|s|` when there is none. */
  function FirstSep(s: string, sep: Separator): (i: nat)
    ensures i <= |s|
    ensures i < |s| ==> IsSep(s[i], sep)
  {
    if |s| == 0 then 0
    else if IsSep(s[0], sep) then 0
    else 1 + FirstSep(s[1..], sep)
  }

  lemma {:induction false} FirstSepSpec(s: string, sep: Separator)
    ensures forall k :: 0 <= k < FirstSep(s, sep) ==> !IsSep(s[k], sep)
    decreases |s|
  {
    if |s| > 0 && !IsSep(s[0], sep) {
      FirstSepSpec(s[1..], sep);
      forall k | 0 < k < FirstSep(s, sep) ensures !IsSep(s[k], sep) {
        assert s[k] == s[1..][k - 1];
      }
    }
  }

  /**
   * The components between separators, in order: `n` separators give
   * `n + 1` components, some possibly empty, and the empty string gives
   * one empty component.
   */
  function Split(s: string, sep: Separator): (r: seq<string>)
    ensures |r| >= 1
    decreases |s|
  {
    var i := FirstSep(s, sep);
    if i == |s| then [s]
    else [s[..i]] + Split(s[i + 1..], sep)
  }

  /** No component contains the separator, and every character of a component comes from `s`. */
  lemma {:induction false} SplitParts(s: string, sep: Separator)
    ensures forall i :: 0 <= i < |Split(s, sep)| ==> NoSep(Split(s, sep)[i], sep)
    ensures forall i, k :: 0 <= i < |Split(s, sep)| && 0 <= k < |Split(s, sep)[i]| ==> Split(s, sep)[i][k] in s
    decreases |s|
  {
    var i := FirstSep(s, sep);
    var r := Split(s, sep);
    FirstSepSpec(s, sep);
    if i < |s| {
      var t := s[i + 1..];
      SplitParts(t, sep);
      var rest := Split(t, sep);
      assert r == [s[..i]] + rest;
      forall j | 0 <= j < |r| ensures NoSep(r[j], sep) {
        if j > 0 {
          assert r[j] == rest[j - 1];
        }
      }
      forall j, k | 0 <= j < |r| && 0 <= k < |r[j]| ensures r[j][k] in s {
        if j > 0 {
          assert r[j] == rest[j - 1];
          assert rest[j - 1][k] in t;
          var m :| 0 <= m < |t| && t[m] == rest[j - 1][k];
          assert s[i + 1 + m] == t[m];
        } else {
          assert r[0][k] == s[k];
        }
      }
    } else {
      assert r == [s];
      assert forall k :: 0 <= k < |s| ==> s[k] in s;
    }
  }

  /** A component of a newline-free string is newline-free. */
  lemma SplitSingleLine(s: string, sep: Separator, i: int)
    requires SingleLine(s) && 0 <= i < |Split(s, sep)|
    ensures SingleLine(Split(s, sep)[i])
  {
    SplitParts(s, sep);
    var part := Split(s, sep)[i];
    forall k | 0 <= k < |part| ensures !IsNewline(part[k]) {
      assert part[k] in s;
    }
  }

  /** Splitting `l + [c] + rest` where `l` has no separator peels off `l`. */
  lemma SplitCons(l: string, c: char, rest: string, sep: Separator)
    requires NoSep(l, sep) && IsSep(c, sep)
    ensures Split(l + [c] + rest, sep) == [l] + Split(rest, sep)
  {
    var s := l + [c] + rest;
    assert s[|l|] == c;
    FirstSepSpec(s, sep);
    assert FirstSep(s, sep) == |l| by {
      assert forall k :: 0 <= k < |l| ==> s[k] == l[k];
    }
    assert s[..|l|] == l && s[|l| + 1..] == rest;
  }

  /** `c` does not occur in `s`, checked character by character. */
  predicate Avoids(s: string, c: char) {
    |s| == 0 || (s[0] != c && Avoids(s[1..], c))
  }

  lemma {:induction false} AvoidsNoSep(s: string, c: char)
    requires Avoids(s, c)
    ensures NoSep(s, Char(c))
    decreases |s|
  {
    if |s| > 0 {
      AvoidsNoSep(s[1..], c);
      assert forall k :: 0 < k < |s| ==> s[k] == s[1..][k - 1];
    }
  }

  lemma SplitNoSep(l: string, sep: Separator)
    requires NoSep(l, sep)
    ensures Split(l, sep) == [l]
  {
  }

  /** `joined(separator:)`: the parts with `sep` between consecutive ones. */
  function Join(parts: seq<string>, sep: string): (r: string)
    ensures parts == [] ==> r == []
    ensures |parts| == 1 ==> r == parts[0]
  {
    if |parts| == 0 then ""
    else if |parts| == 1 then parts[0]
    else parts[0] + sep + Join(parts[1..], sep)
  }

  /** Splitting the join of separator-free parts recovers the parts. */
  lemma {:induction false} SplitJoin(parts: seq<string>, c: char)
    requires |parts| >= 1
    requires forall i :: 0 <= i < |parts| ==> NoSep(parts[i], Char(c))
    ensures Split(Join(parts, [c]), Char(c)) == parts
  {
    if |parts| == 1 {
      SplitNoSep(parts[0], Char(c));
    } else {
      SplitJoin(parts[1..], c);
      assert Join(parts, [c]) == parts[0] + [c] + Join(parts[1..], [c]);
      SplitCons(parts[0], c, Join(parts[1..], [c]), Char(c));
      assert parts == [parts[0]] + parts[1..];
    }
  }

  /** Joining the components of a split with the same separator rebuilds the text. */
  lemma {:induction false} JoinSplit(s: string, c: char)
    ensures Join(Split(s, Char(c)), [c]) == s
    decreases |s|
  {
    var i := FirstSep(s, Char(c));
    if i < |s| {
      var t := s[i + 1..];
      var rest := Split(t, Char(c));
      JoinSplit(t, c);
      var parts := Split(s, Char(c));
      assert parts == [s[..i]] + rest;
      assert |parts| >= 2 && parts[0] == s[..i] && parts[1..] == rest;
      assert Join(parts, [c]) == s[..i] + [c] + t;
      assert s == s[..i] + [c] + t;
    }
  }

  /** String concatenation of all parts. */
  function Concat(parts: seq<string>): (r: string)
    ensures |parts| == 0 ==> r == []
  {
    if |parts| == 0 then "" else parts[0] + Concat(parts[1..])
  }

  lemma {:induction false} ConcatAppend(a: seq<string>, b: seq<string>)
    ensures Concat(a + b) == Concat(a) + Concat(b)
  {
    if |a| > 0 {
      ConcatAppend(a[1..], b);
      assert (a + b)[1..] == a[1..] + b;
    } else {
      assert a + b == b;
    }
  }

  /** The characters `sep` splits at, as a set. */
  function SepSet(sep: Separator): (r: set<char>)
    ensures forall c :: c in r <==> IsSep(c, sep)
  {
    match sep
    case Char(c) => {c}
    case Newlines => {'\n', '\r', '\U{0B}', '\U{0C}', '\U{85}', '\U{2028}', '\U{2029}'}
  }

  /** The separator characters of `s`, in order. */
  function SepChars(s: string, sep: Separator): (r: string)
    ensures forall k :: 0 <= k < |r| ==> IsSep(r[k], sep)
  {
    if |s| == 0 then []
    else
      var rest := SepChars(s[1..], sep);
      if IsSep(s[0], sep) then
        assert forall k :: 0 < k <= |rest| ==> ([s[0]] + rest)[k] == rest[k - 1];
        [s[0]] + rest
      else rest
  }

  /** The parts with one separator character between each consecutive pair. */
  function Weave(parts: seq<string>, seps: string): string
    requires |parts| == |seps| + 1
    decreases |seps|
  {
    if |seps| == 0 then parts[0]
    else parts[0] + [seps[0]] + Weave(parts[1..], seps[1..])
  }

  lemma {:induction false} SepCharsNone(s: string, sep: Separator)
    requires NoSep(s, sep)
    ensures SepChars(s, sep) == []
    decreases |s|
  {
    if |s| > 0 {
      SepCharsNone(s[1..], sep);
    }
  }

  lemma {:induction false} SepCharsAfter(s: string, i: nat, sep: Separator)
    requires i < |s| && IsSep(s[i], sep) && NoSep(s[..i], sep)
    ensures SepChars(s, sep) == [s[i]] + SepChars(s[i + 1..], sep)
    decreases i
  {
    if i > 0 {
      assert s[1..][..i - 1] == s[1..i];
      assert s[1..][i - 1] == s[i] && s[1..][i..] == s[i + 1..];
      assert !IsSep(s[..i][0], sep);
      SepCharsAfter(s[1..], i - 1, sep);
    }
  }

  /**
   * Splitting loses nothing: the components, with the separator
   * characters of `s` put back between them in order, rebuild `s`.
   */
  lemma {:induction false} SplitRebuild(s: string, sep: Separator)
    ensures |Split(s, sep)| == |SepChars(s, sep)| + 1
    ensures Weave(Split(s, sep), SepChars(s, sep)) == s
    decreases |s|
  {
    var i := FirstSep(s, sep);
    FirstSepSpec(s, sep);
    if i == |s| {
      SepCharsNone(s, sep);
    } else {
      var t := s[i + 1..];
      SplitRebuild(t, sep);
      SepCharsAfter(s, i, sep);
      var parts, seps := Split(s, sep), SepChars(s, sep);
      assert parts[0] == s[..i] && parts[1..] == Split(t, sep);
      assert seps[0] == s[i] && seps[1..] == SepChars(t, sep);
      assert s == s[..i] + [s[i]] + t;
    }
  }

  /**
   * Splitting undoes weaving: separator-free parts joined by any
   * separator characters split back into exactly those parts.
   */
  lemma {:induction false} SplitWeave(parts: seq<string>, seps: string, sep: Separator)
    requires |parts| == |seps| + 1
    requires forall i :: 0 <= i < |parts| ==> NoSep(parts[i], sep)
    requires forall k :: 0 <= k < |seps| ==> IsSep(seps[k], sep)
    ensures Split(Weave(parts, seps), sep) == parts
    decreases |seps|
  {
    if |seps| == 0 {
      SplitNoSep(parts[0], sep);
    } else {
      SplitWeave(parts[1..], seps[1..], sep);
      SplitCons(parts[0], seps[0], Weave(parts[1..], seps[1..]), sep);
      assert parts == [parts[0]] + parts[1..];
    }
  }

  /** The components concatenated are `s` without its separator characters. */
  lemma {:induction false} SplitKeepsText(s: string, sep: Separator)
    ensures Concat(Split(s, sep)) == Without(s, SepSet(sep))
    decreases |s|
  {
    var i := FirstSep(s, sep);
    if i == |s| {
      FirstSepSpec(s, sep);
      SplitKeepsTextNone(s, sep);
    } else {
      var t := s[i + 1..];
      SplitKeepsText(t, sep);
      ConcatSplitStep(s, sep);
      WithoutAtSep(s, sep);
    }
  }

  lemma ConcatSplitStep(s: string, sep: Separator)
    requires FirstSep(s, sep) < |s|
    ensures var i := FirstSep(s, sep);
            Concat(Split(s, sep)) == s[..i] + Concat(Split(s[i + 1..], sep))
  {
    var i := FirstSep(s, sep);
    assert Split(s, sep) == [s[..i]] + Split(s[i + 1..], sep);
  }

  lemma WithoutAtSep(s: string, sep: Separator)
    requires FirstSep(s, sep) < |s|
    ensures var i := FirstSep(s, sep);
            Without(s, SepSet(sep)) == s[..i] + Without(s[i + 1..], SepSet(sep))
  {
    FirstSepSpec(s, sep);
    WithoutAtFirst(s, FirstSep(s, sep), SepSet(sep));
  }

  lemma SplitKeepsTextNone(s: string, sep: Separator)
    requires NoSep(s, sep)
    ensures Concat(Split(s, sep)) == Without(s, SepSet(sep))
  {
    SplitNoSep(s, sep);
    WithoutKept(s, SepSet(sep));
    assert Concat([s]) == s + Concat([]);
  }

  lemma SliceAround(s: string, i: nat)
    requires i < |s|
    ensures s == s[..i] + ([s[i]] + s[i + 1..])
  {
  }

  /** Dropping characters from `s` whose first dropped character is at `i`. */
  lemma WithoutAtFirst(s: string, i: nat, drop: set<char>)
    requires i < |s| && s[i] in drop
    requires forall k :: 0 <= k < i ==> s[k] !in drop
    ensures Without(s, drop) == s[..i] + Without(s[i + 1..], drop)
  {
    var h, t := s[..i], s[i + 1..];
    WithoutPrefixKept(s, i, drop);
    WithoutDropHead(s[i], t, drop);
    SliceAround(s, i);
    WithoutAppend(h, [s[i]] + t, drop);
  }

  lemma WithoutPrefixKept(s: string, i: nat, drop: set<char>)
    requires i <= |s| && forall k :: 0 <= k < i ==> s[k] !in drop
    ensures Without(s[..i], drop) == s[..i]
  {
    var h := s[..i];
    assert forall k :: 0 <= k < |h| ==> h[k] == s[k];
    WithoutKept(h, drop);
  }

  lemma WithoutDropHead(c: char, t: string, drop: set<char>)
    requires c in drop
    ensures Without([c] + t, drop) == Without(t, drop)
  {
    WithoutAppend([c], t, drop);
    WithoutDropped([c], drop);
  }

  /* ---------------------------------------------------------------- */
  /* Lines                                                             */
  /* ---------------------------------------------------------------- */

  /** Each line followed by "\n": the text a sequence of emitted lines forms. */
  function Unlines(ls: seq<string>): (r: string)
    ensures ls == [] <==> r == []
  {
    if |ls| == 0 then "" else ls[0] + "\n" + Unlines(ls[1..])
  }

  lemma {:induction false} UnlinesAppend(a: seq<string>, b: seq<string>)
    ensures Unlines(a + b) == Unlines(a) + Unlines(b)
  {
    if |a| > 0 {
      UnlinesAppend(a[1..], b);
      assert (a + b)[1..] == a[1..] + b;
    } else {
      assert a + b == b;
    }
  }

  lemma UnlinesEndsWithNewline(ls: seq<string>)
    requires ls != []
    ensures Unlines(ls)[|Unlines(ls)| - 1] == '\n'
  {
    if |ls| > 1 {
      UnlinesEndsWithNewline(ls[1..]);
    }
  }

  function FilterNonEmpty(ls: seq<string>): (r: seq<string>)
    ensures forall i :: 0 <= i < |r| ==> r[i] != []
    ensures forall l :: l in r <==> l in ls && l != []
  {
    if |ls| == 0 then []
    else if ls[0] == [] then FilterNonEmpty(ls[1..])
    else [ls[0]] + FilterNonEmpty(ls[1..])
  }

  lemma {:induction false} FilterNonEmptyAppend(a: seq<string>, b: seq<string>)
    ensures FilterNonEmpty(a + b) == FilterNonEmpty(a) + FilterNonEmpty(b)
  {
    if |a| > 0 {
      FilterNonEmptyAppend(a[1..], b);
      assert (a + b)[1..] == a[1..] + b;
    } else {
      assert a + b == b;
    }
  }

  lemma {:induction false} ConcatFilterNonEmpty(ls: seq<string>)
    ensures Concat(FilterNonEmpty(ls)) == Concat(ls)
  {
    if |ls| > 0 {
      ConcatFilterNonEmpty(ls[1..]);
      if ls[0] == [] {
        assert Concat(ls) == [] + Concat(ls[1..]);
      } else {
        assert ([ls[0]] + FilterNonEmpty(ls[1..]))[1..] == FilterNonEmpty(ls[1..]);
      }
    }
  }

  /**
   * `components(separatedBy: .newlines).filter { !$0.isEmpty }`: the
   * kept lines are non-empty and newline-free, and together they are
   * every non-newline character of `s`, in order.
   */
  function NonEmptyLines(s: string): (r: seq<string>)
    ensures forall i :: 0 <= i < |r| ==> r[i] != [] && SingleLine(r[i])
    ensures Concat(r) == Without(s, SepSet(Newlines))
  {
    var parts := Split(s, Newlines);
    SplitParts(s, Newlines);
    var r := FilterNonEmpty(parts);
    assert Concat(r) == Without(s, SepSet(Newlines)) by {
      ConcatFilterNonEmpty(parts);
      SplitKeepsText(s, Newlines);
    }
    assert forall i :: 0 <= i < |r| ==> SingleLine(r[i]) by {
      forall i | 0 <= i < |r| ensures SingleLine(r[i]) {
        assert r[i] in parts;
        var j :| 0 <= j < |parts| && parts[j] == r[i];
        assert NoSep(parts[j], Newlines);
        assert forall k :: 0 <= k < |r[i]| ==> !IsSep(r[i][k], Newlines);
      }
    }
    r
  }

  /**
   * Text made of single lines separated by any newline characters --
   * "\r\n" pairs, lone "\r" or "\n", with or without a final newline --
   * reads back as exactly its non-empty lines.
   */
  lemma NonEmptyLinesOfWeave(ls: seq<string>, seps: string)
    requires |ls| == |seps| + 1
    requires forall i :: 0 <= i < |ls| ==> SingleLine(ls[i])
    requires forall k :: 0 <= k < |seps| ==> IsNewline(seps[k])
    ensures NonEmptyLines(Weave(ls, seps)) == FilterNonEmpty(ls)
  {
    assert forall i :: 0 <= i < |ls| ==> NoSep(ls[i], Newlines);
    SplitWeave(ls, seps, Newlines);
  }

  /** A "\r\n"-separated two-line text without a final newline gives its two lines. */
  lemma NonEmptyLinesCrLf(a: string, b: string)
    requires a != [] && b != [] && SingleLine(a) && SingleLine(b)
    ensures NonEmptyLines(a + "\r\n" + b) == [a, b]
  {
    var ls := [a, [], b];
    NonEmptyLinesOfWeave(ls, "\r\n");
    assert Weave(ls, "\r\n") == a + "\r\n" + b by {
      assert Weave(ls[2..], "\r\n"[2..]) == b;
      assert Weave(ls[1..], "\r\n"[1..]) == [] + "\n" + b;
    }
    assert FilterNonEmpty(ls) == [a, b] by {
      assert ls[1..][1..] == [b] && FilterNonEmpty([b]) == [b];
    }
  }

  /**
   * Re-reading emitted text line by line gives back exactly the
   * non-empty emitted lines: blank lines vanish, nothing else changes.
   */
  lemma {:induction false} NonEmptyLinesOfUnlines(ls: seq<string>)
    requires forall i :: 0 <= i < |ls| ==> SingleLine(ls[i])
    ensures NonEmptyLines(Unlines(ls)) == FilterNonEmpty(ls)
  {
    if |ls| > 0 {
      NonEmptyLinesOfUnlines(ls[1..]);
      assert Unlines(ls) == ls[0] + ['\n'] + Unlines(ls[1..]);
      SplitCons(ls[0], '\n', Unlines(ls[1..]), Newlines);
      var parts := Split(Unlines(ls), Newlines);
      assert parts[0] == ls[0] && parts[1..] == Split(Unlines(ls[1..]), Newlines);
      assert NonEmptyLines(Unlines(ls)) == FilterNonEmpty(parts);
      assert NonEmptyLines(Unlines(ls[1..])) == FilterNonEmpty(parts[1..]);
    } else {
      assert Split("", Newlines) == [""];
    }
  }

  /* ---------------------------------------------------------------- */
  /* Generic sequence helpers                                          */
  /* ---------------------------------------------------------------- */

  /** Associativity of concatenation, proved once in a small context. */
  lemma AppendAssoc<T>(a: seq<T>, b: seq<T>, c: seq<T>)
    ensures a + b + c == a + (b + c)
  {
  }

  /** The texts `f` gives the elements, concatenated in order. */
  function MapConcat<T>(f: T -> string, xs: seq<T>): string {
    if |xs| == 0 then "" else MapConcat(f, xs[..|xs| - 1]) + f(xs[|xs| - 1])
  }

  /** The line lists `g` gives the elements, concatenated in order. */
  function FlatMap<T>(g: T -> seq<string>, xs: seq<T>): seq<string> {
    if |xs| == 0 then [] else FlatMap(g, xs[..|xs| - 1]) + g(xs[|xs| - 1])
  }

  /** A left fold: the loop `for x in xs { acc = step(acc, x) }`. */
  function FoldLeft<T>(step: (string, T) -> string, init: string, xs: seq<T>): string {
    if |xs| == 0 then init else step(FoldLeft(step, init, xs[..|xs| - 1]), xs[|xs| - 1])
  }

  lemma {:induction false} MapConcatAppend<T>(f: T -> string, a: seq<T>, b: seq<T>)
    ensures MapConcat(f, a + b) == MapConcat(f, a) + MapConcat(f, b)
    decreases |b|
  {
    if |b| == 0 {
      assert a + b == a;
    } else {
      var b', x := b[..|b| - 1], b[|b| - 1];
      MapConcatAppend(f, a, b');
      var ab := a + b;
      assert MapConcat(f, ab) == MapConcat(f, a + b') + f(x) by {
        assert ab[..|ab| - 1] == a + b';
        assert ab[|ab| - 1] == x;
      }
      AppendAssoc(MapConcat(f, a), MapConcat(f, b'), f(x));
    }
  }

  /** When each element's text is the unlines of its line list, so is the whole. */
  lemma {:induction false} MapConcatUnlines<T>(f: T -> string, g: T -> seq<string>, xs: seq<T>)
    requires forall i :: 0 <= i < |xs| ==> f(xs[i]) == Unlines(g(xs[i]))
    ensures MapConcat(f, xs) == Unlines(FlatMap(g, xs))
    decreases |xs|
  {
    if |xs| > 0 {
      var pre := xs[..|xs| - 1];
      MapConcatUnlines(f, g, pre);
      UnlinesAppend(FlatMap(g, pre), g(xs[|xs| - 1]));
    }
  }

  /** Dropping blank lines commutes with concatenating per-element line lists. */
  lemma {:induction false} FlatMapFilter<T>(g: T -> seq<string>, h: T -> seq<string>, xs: seq<T>)
    requires forall i :: 0 <= i < |xs| ==> FilterNonEmpty(g(xs[i])) == h(xs[i])
    ensures FilterNonEmpty(FlatMap(g, xs)) == FlatMap(h, xs)
    decreases |xs|
  {
    if |xs| > 0 {
      var pre := xs[..|xs| - 1];
      FlatMapFilter(g, h, pre);
      FilterNonEmptyAppend(FlatMap(g, pre), g(xs[|xs| - 1]));
    }
  }

  /** Newline-free lines stay newline-free when two lists are joined. */
  lemma SingleLinesAppend(a: seq<string>, b: seq<string>)
    requires forall i :: 0 <= i < |a| ==> SingleLine(a[i])
    requires forall i :: 0 <= i < |b| ==> SingleLine(b[i])
    ensures forall i :: 0 <= i < |a + b| ==> SingleLine((a + b)[i])
  {
    forall i | 0 <= i < |a + b| ensures SingleLine((a + b)[i]) {
      if i >= |a| {
        assert (a + b)[i] == b[i - |a|];
      }
    }
  }

  lemma {:induction false} FlatMapSingleLine<T>(g: T -> seq<string>, xs: seq<T>)
    requires forall i, j :: 0 <= i < |xs| && 0 <= j < |g(xs[i])| ==> SingleLine(g(xs[i])[j])
    ensures forall j :: 0 <= j < |FlatMap(g, xs)| ==> SingleLine(FlatMap(g, xs)[j])
    decreases |xs|
  {
    if |xs| > 0 {
      var pre := xs[..|xs| - 1];
      FlatMapSingleLine(g, pre);
      SingleLinesAppend(FlatMap(g, pre), g(xs[|xs| - 1]));
    }
  }

  /** Every line an element contributes is among the concatenated lines. */
  lemma {:induction false} FlatMapMember<T>(g: T -> seq<string>, xs: seq<T>, i: int, y: string)
    requires 0 <= i < |xs| && y in g(xs[i])
    ensures y in FlatMap(g, xs)
    decreases |xs|
  {
    var pre := xs[..|xs| - 1];
    if i < |xs| - 1 {
      assert pre[i] == xs[i];
      FlatMapMember(g, pre, i, y);
    }
  }

  predicate Distinct<T(==)>(s: seq<T>) {
    forall i, j :: 0 <= i < j < |s| ==> s[i] != s[j]
  }

  /** The elements of `r` occur in `s` in the same order (not necessarily adjacent). */
  predicate Subsequence<T(==)>(r: seq<T>, s: seq<T>)
    decreases |s|
  {
    |r| == 0 || (|s| > 0 && ((r[0] == s[0] && Subsequence(r[1..], s[1..])) || Subsequence(r, s[1..])))
  }

  /** `filter`: the elements satisfying `p`, in their original order. */
  function Filter<T(==,!new)>(s: seq<T>, p: T -> bool): (r: seq<T>)
    ensures |r| <= |s|
    ensures forall x :: x in r <==> x in s && p(x)
    ensures Distinct(s) ==> Distinct(r)
  {
    if |s| == 0 then []
    else
      var rest := Filter(s[1..], p);
      assert Distinct(s) ==> s[0] !in s[1..] by {
        forall j | 0 <= j < |s| - 1 ensures Distinct(s) ==> s[1..][j] != s[0] {
          assert s[1..][j] == s[j + 1];
        }
      }
      if p(s[0]) then [s[0]] + rest else rest
  }

  /** One step of `filter`: the head is kept exactly when it satisfies `p`. */
  lemma FilterCons<T(!new)>(x: T, rest: seq<T>, p: T -> bool)
    ensures Filter([x] + rest, p) == (if p(x) then [x] else []) + Filter(rest, p)
  {
    assert ([x] + rest)[0] == x && ([x] + rest)[1..] == rest;
  }

  /** `filter` keeps the order of its input. */
  lemma {:induction false} FilterKeepsOrder<T(!new)>(s: seq<T>, p: T -> bool)
    ensures Subsequence(Filter(s, p), s)
    decreases |s|
  {
    if |s| > 0 {
      var rest := Filter(s[1..], p);
      FilterKeepsOrder(s[1..], p);
      if p(s[0]) {
        assert Filter(s, p) == [s[0]] + rest;
        assert ([s[0]] + rest)[1..] == rest;
      }
    }
  }
}
