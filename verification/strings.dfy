/** The Python `str` operations the loader relies on, over `seq<char>`:
    `in`, `startswith`, `endswith`, `find`, `replace`, `split`, `join`,
    `lstrip` and `rstrip` with a single character. */
module Strings {
  import opened Wrappers

  /** `p` occurs in `s` starting at index `i`. */
  predicate OccursAt(s: string, p: string, i: int) {
    0 <= i && i + |p| <= |s| && s[i..i + |p|] == p
  }

  /** Python's `p in s`. */
  predicate Contains(s: string, p: string) {
    exists i :: 0 <= i <= |s| - |p| && OccursAt(s, p, i)
  }

  predicate StartsWith(s: string, p: string) {
    |p| <= |s| && s[..|p|] == p
  }

  predicate EndsWith(s: string, p: string) {
    |p| <= |s| && s[|s| - |p|..] == p
  }

  /** The first occurrence of `p` in `s` at index `i` or later. */
  function FindFrom(s: string, p: string, i: nat): (r: Option<nat>)
    requires i <= |s|
    ensures r.Some? ==> i <= r.value && OccursAt(s, p, r.value)
    ensures r.Some? ==> forall j :: i <= j < r.value ==> !OccursAt(s, p, j)
    ensures r.None? ==> forall j :: i <= j ==> !OccursAt(s, p, j)
    decreases |s| - i
  {
    if i + |p| > |s| then None
    else if OccursAt(s, p, i) then Some(i)
    else FindFrom(s, p, i + 1)
  }

  /** Python's `s.find(p)`, with None for -1. */
  function FindFirst(s: string, p: string): (r: Option<nat>)
    ensures r.Some? ==> OccursAt(s, p, r.value) && forall j :: 0 <= j < r.value ==> !OccursAt(s, p, j)
    ensures r.None? <==> !Contains(s, p)
  {
    FindFrom(s, p, 0)
  }

  /** An occurrence inside the tail is an occurrence one place later in the whole. */
  lemma OccursInTail(s: string, p: string, i: int)
    requires |s| > 0 && OccursAt(s[1..], p, i)
    ensures OccursAt(s, p, i + 1)
  {
    assert s[i + 1..i + 1 + |p|] == s[1..][i..i + |p|];
  }

  /** An occurrence cannot start at a character other than the pattern's first. */
  lemma FirstCharBlocks(s: string, p: string, i: int)
    requires 0 <= i < |s| && |p| > 0 && s[i] != p[0]
    ensures !OccursAt(s, p, i)
  {
    if i + |p| <= |s| {
      assert s[i..i + |p|][0] == s[i];
    }
  }

  /** Behind a prefix, occurrences are those of the rest, shifted. */
  lemma OccursBehindPrefix(pre: string, b: string, p: string, j: int)
    requires 0 <= j
    ensures OccursAt(pre + b, p, |pre| + j) <==> OccursAt(b, p, j)
  {
    if j + |p| <= |b| {
      assert (pre + b)[|pre| + j..|pre| + j + |p|] == b[j..j + |p|];
    }
  }

  lemma ContainsTail(s: string, p: string)
    requires |s| > 0 && Contains(s[1..], p)
    ensures Contains(s, p)
  {
    var i :| 0 <= i <= |s[1..]| - |p| && OccursAt(s[1..], p, i);
    OccursInTail(s, p, i);
  }

  /** Whatever occurs in the tail occurs in the whole. */
  lemma TailContains(s: string, p: string)
    requires |s| > 0
    ensures Contains(s[1..], p) ==> Contains(s, p)
  {
    if Contains(s[1..], p) {
      ContainsTail(s, p);
    }
  }

  /** Python's `s.replace(target, repl)`: every occurrence of `target`, found
      left to right without overlap, becomes `repl`. */
  function Replace(s: string, target: string, repl: string): (r: string)
    requires |target| > 0
    ensures !Contains(s, target) ==> r == s
    decreases |s|
  {
    if |s| < |target| then s
    else if s[..|target|] == target then
      assert OccursAt(s, target, 0);
      repl + Replace(s[|target|..], target, repl)
    else
      TailContains(s, target);
      assert s == [s[0]] + s[1..];
      [s[0]] + Replace(s[1..], target, repl)
  }

  /** `Replace` copies the first character through whenever no occurrence starts there. */
  lemma ReplaceSkip(s: string, target: string, repl: string)
    requires |target| > 0 && |s| > 0
    requires |s| < |target| || s[..|target|] != target
    ensures Replace(s, target, repl) == [s[0]] + Replace(s[1..], target, repl)
  {
    if |s| < |target| {
      assert Replace(s[1..], target, repl) == s[1..];
    }
  }

  /** Python's `s.split(sep)`: the pieces between successive occurrences of `sep`. */
  function Split(s: string, sep: string): (parts: seq<string>)
    requires |sep| > 0
    ensures |parts| >= 1
    ensures |parts| > 1 <==> Contains(s, sep)
    ensures forall k :: 0 <= k < |parts| ==> !Contains(parts[k], sep)
    ensures |parts| > 1 ==> FindFirst(s, sep) == Some(|parts[0]|)
    decreases |s|
  {
    match FindFirst(s, sep)
    case None => [s]
    case Some(i) =>
      var head := s[..i];
      PrefixBeforeFirst(s, sep, i);
      assert OccursAt(s, sep, i);
      [head] + Split(s[i + |sep|..], sep)
  }

  /** The text before the first occurrence of `p` does not contain `p`. */
  lemma PrefixBeforeFirst(s: string, p: string, i: nat)
    requires |p| > 0 && FindFirst(s, p) == Some(i)
    ensures !Contains(s[..i], p)
  {
    forall j | 0 <= j <= i - |p|
      ensures OccursAt(s[..i], p, j) ==> OccursAt(s, p, j)
    {
      assert s[j..j + |p|] == s[..i][j..j + |p|];
    }
  }

  /** Python's `sep.join(parts)`. */
  function Join(parts: seq<string>, sep: string): string {
    if |parts| == 0 then ""
    else if |parts| == 1 then parts[0]
    else parts[0] + sep + Join(parts[1..], sep)
  }

  /** Splitting and joining with the same separator gives the text back. */
  lemma {:induction false} SplitJoin(s: string, sep: string)
    requires |sep| > 0
    ensures Join(Split(s, sep), sep) == s
    decreases |s|
  {
    match FindFirst(s, sep)
    case None =>
    case Some(i) =>
      var rest := s[i + |sep|..];
      SplitJoin(rest, sep);
      var parts := Split(s, sep);
      assert parts == [s[..i]] + Split(rest, sep);
      assert parts[1..] == Split(rest, sep);
      assert s[i..i + |sep|] == sep;
      assert s == s[..i] + s[i..i + |sep|] + rest;
  }

  /** Every cut of a split is at the first occurrence of the separator in
      what is left of the text: each part but the last ends where the first
      occurrence in the joined remaining parts begins. */
  lemma {:induction false} SplitCutsAtFirst(s: string, sep: string)
    requires |sep| > 0
    ensures var parts := Split(s, sep);
            forall k :: 0 <= k < |parts| - 1 ==> FindFirst(Join(parts[k..], sep), sep) == Some(|parts[k]|)
    decreases |s|
  {
    match FindFirst(s, sep)
    case None =>
    case Some(i) =>
      var rest := s[i + |sep|..];
      var parts, tail := Split(s, sep), Split(rest, sep);
      SplitCutsAtFirst(rest, sep);
      SplitAt(s, sep, i);
      SplitJoin(s, sep);
      forall k | 1 <= k < |parts| - 1
        ensures FindFirst(Join(parts[k..], sep), sep) == Some(|parts[k]|)
      {
        assert parts[k..] == tail[k - 1..];
      }
      assert parts[0..] == parts;
  }

  /** The first occurrence in `s` is at 0 when `s` starts with `p`, and is one
      place after the first occurrence in the tail otherwise. */
  lemma FindFirstStep(s: string, p: string)
    requires |s| > 0 && |p| > 0 && !OccursAt(s, p, 0)
    ensures FindFirst(s, p).None? ==> FindFirst(s[1..], p).None?
    ensures FindFirst(s, p).Some? ==>
      FindFirst(s[1..], p).Some? && FindFirst(s, p).value == FindFirst(s[1..], p).value + 1
  {
    var r := FindFirst(s, p);
    var t := FindFirst(s[1..], p);
    if t.Some? {
      OccursInTail(s, p, t.value);
    }
    if r.Some? {
      var i := r.value;
      assert s[1..][i - 1..i - 1 + |p|] == s[i..i + |p|];
      assert OccursAt(s[1..], p, i - 1);
    }
  }

  lemma JoinCons(a: string, rest: seq<string>, sep: string)
    requires |rest| >= 1
    ensures Join([a] + rest, sep) == a + sep + Join(rest, sep)
  {
    assert ([a] + rest)[1..] == rest;
  }

  lemma SplitAt(s: string, sep: string, i: nat)
    requires |sep| > 0 && FindFirst(s, sep) == Some(i)
    ensures Split(s, sep) == [s[..i]] + Split(s[i + |sep|..], sep)
  {
  }

  /** Python's identity `s.replace(t, r) == r.join(s.split(t))`: the
      character-by-character rewrite agrees with the split-based definition. */
  lemma {:induction false} ReplaceIsSplitJoin(s: string, target: string, repl: string)
    requires |target| > 0
    ensures Replace(s, target, repl) == Join(Split(s, target), repl)
    decreases |s|
  {
    if |s| < |target| {
      assert FindFirst(s, target).None?;
    } else if s[..|target|] == target {
      ReplaceIsSplitJoin(s[|target|..], target, repl);
      ReplaceMatchStep(s, target, repl);
    } else {
      ReplaceIsSplitJoin(s[1..], target, repl);
      ReplaceSkipStep(s, target, repl);
    }
  }

  /** The step of `ReplaceIsSplitJoin` where `s` starts with the target. */
  lemma ReplaceMatchStep(s: string, target: string, repl: string)
    requires |target| > 0 && |s| >= |target| && s[..|target|] == target
    requires Replace(s[|target|..], target, repl) == Join(Split(s[|target|..], target), repl)
    ensures Replace(s, target, repl) == Join(Split(s, target), repl)
  {
    var rest := s[|target|..];
    ReplaceAtMatch(s, target, repl);
    SplitAtStart(s, target);
    JoinEmptyHead(Split(rest, target), repl);
  }

  lemma ReplaceAtMatch(s: string, target: string, repl: string)
    requires |target| > 0 && |s| >= |target| && s[..|target|] == target
    ensures Replace(s, target, repl) == repl + Replace(s[|target|..], target, repl)
  {
  }

  lemma SplitAtStart(s: string, target: string)
    requires |target| > 0 && |s| >= |target| && s[..|target|] == target
    ensures Split(s, target) == [""] + Split(s[|target|..], target)
  {
    FindFirstAtStart(s, target);
    SplitAt(s, target, 0);
    assert s[..0] == "";
  }

  lemma FindFirstAtStart(s: string, p: string)
    requires |s| >= |p| && s[..|p|] == p
    ensures FindFirst(s, p) == Some(0)
  {
    assert OccursAt(s, p, 0);
  }

  lemma JoinEmptyHead(parts: seq<string>, sep: string)
    requires |parts| >= 1
    ensures Join([""] + parts, sep) == sep + Join(parts, sep)
  {
    JoinCons("", parts, sep);
  }

  /** The step of `ReplaceIsSplitJoin` where `s` does not start with the target. */
  lemma ReplaceSkipStep(s: string, target: string, repl: string)
    requires |target| > 0 && |s| >= |target| && s[..|target|] != target
    requires Replace(s[1..], target, repl) == Join(Split(s[1..], target), repl)
    ensures Replace(s, target, repl) == Join(Split(s, target), repl)
  {
    assert !OccursAt(s, target, 0);
    FindFirstStep(s, target);
    ReplaceShiftStep(s, target, repl);
  }

  /** The step of `ReplaceIsSplitJoin` where `s` does not start with the target. */
  lemma ReplaceShiftStep(s: string, target: string, repl: string)
    requires |target| > 0 && |s| > 0 && !OccursAt(s, target, 0)
    requires FindFirst(s, target).None? ==> FindFirst(s[1..], target).None?
    requires FindFirst(s, target).Some? ==>
      FindFirst(s[1..], target).Some? && FindFirst(s, target).value == FindFirst(s[1..], target).value + 1
    ensures Join(Split(s, target), repl) == [s[0]] + Join(Split(s[1..], target), repl)
  {
    match FindFirst(s, target)
    case None =>
      assert s == [s[0]] + s[1..];
    case Some(i) =>
      ShiftSplitHead(s, target, repl, i);
  }

  lemma ShiftSplitHead(s: string, target: string, repl: string, i: nat)
    requires |target| > 0 && 0 < i && FindFirst(s, target) == Some(i)
    requires FindFirst(s[1..], target) == Some(i - 1)
    ensures Join(Split(s, target), repl) == [s[0]] + Join(Split(s[1..], target), repl)
  {
    var rest := s[i + |target|..];
    SplitAt(s, target, i);
    SplitAt(s[1..], target, i - 1);
    assert s[1..][i - 1 + |target|..] == rest;
    assert s[..i] == [s[0]] + s[1..][..i - 1];
    JoinHeadShift(Split(s, target), Split(s[1..], target), s[..i], s[1..][..i - 1], Split(rest, target), s[0], repl);
  }

  /** Moving the first character of the first part out of a join. */
  lemma JoinHeadShift(p: seq<string>, q: seq<string>, a: string, b: string, tail: seq<string>, c: char, repl: string)
    requires p == [a] + tail && q == [b] + tail
    requires a == [c] + b && |tail| >= 1
    ensures Join(p, repl) == [c] + Join(q, repl)
  {
    JoinCons(a, tail, repl);
    JoinCons(b, tail, repl);
  }

  /** Python's `s.rstrip(c)`: `s` without its trailing run of `c`. */
  function RStrip(s: string, c: char): (r: string)
    ensures |r| <= |s| && r == s[..|r|]
    ensures |r| == 0 || r[|r| - 1] != c
    ensures forall k :: |r| <= k < |s| ==> s[k] == c
  {
    if |s| > 0 && s[|s| - 1] == c then RStrip(s[..|s| - 1], c) else s
  }

  /** Python's `s.lstrip(c)`: `s` without its leading run of `c`. */
  function LStrip(s: string, c: char): (r: string)
    ensures |r| <= |s| && r == s[|s| - |r|..]
    ensures |r| == 0 || r[0] != c
    ensures forall k :: 0 <= k < |s| - |r| ==> s[k] == c
  {
    if |s| > 0 && s[0] == c then LStrip(s[1..], c) else s
  }
}
