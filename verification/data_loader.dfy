/** Source classification and GitHub URL rewriting of `src/data_loader.py`.
    Reading files and fetching URLs is not modelled: the loader's outcome is
    the read it would perform (`ReadPlan`), or None where it gives up.
    `LoadData` goes through the corrected GitHub loader, so it reads a
    non-CSV GitHub file as Excel where the code returns None;
    `LoadDataAsWritten` keeps the code's behaviour. The file system is the
    set of paths `os.path.isfile` accepts. */
module DataLoader {
  import opened Wrappers
  import opened Strings

  const GithubHost: string := "github.com"
  const RawHost: string := "raw.githubusercontent.com"
  const BlobMarker: string := "/blob/"
  const TreeMarker: string := "/tree/"

  /** The pandas reader a source is handed to. */
  datatype Format = Csv | Excel

  /** A read the loader performs: which reader, on which path or URL. */
  datatype ReadPlan = ReadPlan(format: Format, location: string)

  /** The repository URL rewritten to its raw-content form: the host is
      replaced, then `/blob/` and, when present, `/tree/` collapse to `/`.
      On a repository URL holding neither marker only the host changes. */
  function RawUrl(repoUrl: string): (u: string)
    ensures !Contains(repoUrl, BlobMarker) && !Contains(repoUrl, TreeMarker) ==>
      u == Replace(repoUrl, GithubHost, RawHost)
  {
    HostRewriteAddsNoMarker(repoUrl);
    var u := Replace(Replace(repoUrl, GithubHost, RawHost), BlobMarker, "/");
    if Contains(u, TreeMarker) then Replace(u, TreeMarker, "/") else u
  }

  /** The host rewrite creates neither marker. */
  lemma HostRewriteAddsNoMarker(repo: string)
    ensures !Contains(repo, BlobMarker) ==> !Contains(Replace(repo, GithubHost, RawHost), BlobMarker)
    ensures !Contains(repo, TreeMarker) ==> !Contains(Replace(repo, GithubHost, RawHost), TreeMarker)
  {
    assert BlobMarker == "/" + "blob" + "/";
    assert TreeMarker == "/" + "tree" + "/";
    HostRewriteAddsNoSegment(repo, "blob");
    HostRewriteAddsNoSegment(repo, "tree");
  }

  lemma HostRewriteAddsNoSegment(repo: string, w: string)
    requires w == "blob" || w == "tree"
    ensures !Contains(repo, "/" + w + "/") ==> !Contains(Replace(repo, GithubHost, RawHost), "/" + w + "/")
  {
    if !Contains(repo, "/" + w + "/") {
      ReplaceAddsNoDelimited(repo, w, GithubHost, RawHost);
    }
  }

  predicate AllSlashes(t: string) {
    forall k :: 0 <= k < |t| ==> t[k] == '/'
  }

  /** The f-string `f"{base.rstrip('/')}/{path.lstrip('/')}"`. The URL has
      exactly one slash at the seam: the left half is `base` less a run of
      slashes and does not end in one, the right half is `path` less a run
      of slashes and does not start with one. */
  function JoinUrl(base: string, path: string): (url: string)
    ensures |url| == |RStrip(base, '/')| + 1 + |LStrip(path, '/')|
    ensures var left := RStrip(base, '/');
            var right := LStrip(path, '/');
            && base == left + base[|left|..] && AllSlashes(base[|left|..])
            && path == path[..|path| - |right|] + right && AllSlashes(path[..|path| - |right|])
            && url[..|left|] == left && url[|left|] == '/' && url[|left| + 1..] == right
            && (|left| == 0 || url[|left| - 1] != '/')
            && (|left| + 1 == |url| || url[|left| + 1] != '/')
  {
    SlashRuns(base, path);
    SeamChars(RStrip(base, '/'), LStrip(path, '/'));
    RStrip(base, '/') + "/" + LStrip(path, '/')
  }

  /** The URL fetched for a file of a repository. */
  function FullUrl(repoUrl: string, filePath: string): string {
    JoinUrl(RawUrl(repoUrl), filePath)
  }

  /** What the two strips remove is a run of slashes. */
  lemma SlashRuns(base: string, path: string)
    ensures var left := RStrip(base, '/');
            && base == left + base[|left|..] && AllSlashes(base[|left|..])
    ensures var right := LStrip(path, '/');
            && path == path[..|path| - |right|] + right && AllSlashes(path[..|path| - |right|])
  {
    var left := RStrip(base, '/');
    var right := LStrip(path, '/');
    assert base == left + base[|left|..];
    assert path == path[..|path| - |right|] + right;
  }

  /** Gluing two halves with one slash, where neither half has a slash at
      the seam, leaves exactly that slash at the seam. */
  lemma SeamChars(left: string, right: string)
    requires |left| == 0 || left[|left| - 1] != '/'
    requires |right| == 0 || right[0] != '/'
    ensures var url := left + "/" + right;
            && url[..|left|] == left && url[|left|] == '/' && url[|left| + 1..] == right
            && (|left| == 0 || url[|left| - 1] != '/')
            && (|left| + 1 == |url| || url[|left| + 1] != '/')
  {
    var url := left + "/" + right;
    assert url[..|left|] == left;
    assert url[|left| + 1..] == right;
    if |left| > 0 {
      assert url[|left| - 1] == left[|left| - 1];
    }
    if |left| + 1 < |url| {
      assert url[|left| + 1] == right[0];
    }
  }

  /** Replacing text that has no slash by text that has none leaves a
      slash-free string slash-free. */
  lemma {:induction false} ReplaceKeepsSlashFree(x: string, target: string, repl: string)
    requires |target| > 0 && '/' !in repl && '/' !in x
    ensures '/' !in Replace(x, target, repl)
    decreases |x|
  {
    if |x| < |target| {
    } else if x[..|target|] == target {
      ReplaceKeepsSlashFree(x[|target|..], target, repl);
    } else {
      assert '/' !in x[1..];
      ReplaceKeepsSlashFree(x[1..], target, repl);
    }
  }

  /** A replacement no shorter than its target never shortens the text. */
  lemma {:induction false} ReplaceNotShorter(x: string, target: string, repl: string)
    requires |target| > 0 && |repl| >= |target|
    ensures |Replace(x, target, repl)| >= |x|
    decreases |x|
  {
    if |x| < |target| {
    } else if x[..|target|] == target {
      ReplaceNotShorter(x[|target|..], target, repl);
    } else {
      ReplaceNotShorter(x[1..], target, repl);
    }
  }

  /** A slash-free target cannot straddle a slash, so the text on each side
      of a slash is rewritten on its own. */
  lemma {:induction false} ReplaceSplitsAtSlash(x: string, y: string, target: string, repl: string)
    requires |target| > 0 && '/' !in target && '/' !in x
    ensures Replace(x + "/" + y, target, repl) == Replace(x, target, repl) + "/" + Replace(y, target, repl)
    decreases |x|
  {
    var s := x + "/" + y;
    if |s| < |target| {
      SlashShortCase(x, y, target, repl);
    } else if s[..|target|] == target {
      TargetBeforeSlash(x, y, target);
      ReplaceSplitsAtSlash(x[|target|..], y, target, repl);
      SlashMatchCase(x, y, target, repl);
    } else if |x| == 0 {
      SlashEmptyCase(y, target, repl);
    } else {
      assert '/' !in x[1..];
      ReplaceSplitsAtSlash(x[1..], y, target, repl);
      SlashSkipCase(x, y, target, repl);
    }
  }

  lemma SlashShortCase(x: string, y: string, target: string, repl: string)
    requires |target| > 0 && |x + "/" + y| < |target|
    ensures Replace(x + "/" + y, target, repl) == Replace(x, target, repl) + "/" + Replace(y, target, repl)
  {
  }

  lemma SlashMatchCase(x: string, y: string, target: string, repl: string)
    requires |target| > 0 && |x| >= |target| && x[..|target|] == target
    requires (x + "/" + y)[..|target|] == target
    requires (x + "/" + y)[|target|..] == x[|target|..] + "/" + y
    requires Replace(x[|target|..] + "/" + y, target, repl)
          == Replace(x[|target|..], target, repl) + "/" + Replace(y, target, repl)
    ensures Replace(x + "/" + y, target, repl) == Replace(x, target, repl) + "/" + Replace(y, target, repl)
  {
  }

  lemma SlashEmptyCase(y: string, target: string, repl: string)
    requires |target| > 0 && '/' !in target
    ensures Replace("" + "/" + y, target, repl) == Replace("", target, repl) + "/" + Replace(y, target, repl)
  {
    var s := "/" + y;
    assert s[0] == '/' && s[1..] == y;
    if |s| >= |target| {
      assert s[..|target|][0] == '/';
    }
    ReplaceSkip(s, target, repl);
    assert "" + "/" + y == s;
  }

  lemma SlashSkipCase(x: string, y: string, target: string, repl: string)
    requires |target| > 0 && |x| > 0
    requires |x + "/" + y| >= |target| && (x + "/" + y)[..|target|] != target
    requires Replace(x[1..] + "/" + y, target, repl)
          == Replace(x[1..], target, repl) + "/" + Replace(y, target, repl)
    ensures Replace(x + "/" + y, target, repl) == Replace(x, target, repl) + "/" + Replace(y, target, repl)
  {
    var s := x + "/" + y;
    SkipHeads(x, y, target);
    ReplaceSkip(s, target, repl);
    ReplaceSkip(x, target, repl);
    ConsSlash(x[0], Replace(s, target, repl), Replace(x, target, repl),
              Replace(x[1..], target, repl), Replace(y, target, repl));
  }

  /** When `x + "/" + y` does not start with the target, neither does `x`. */
  lemma SkipHeads(x: string, y: string, target: string)
    requires |target| > 0 && |x| > 0
    requires |x + "/" + y| >= |target| && (x + "/" + y)[..|target|] != target
    ensures (x + "/" + y)[0] == x[0] && (x + "/" + y)[1..] == x[1..] + "/" + y
    ensures |x| < |target| || x[..|target|] != target
  {
    var s := x + "/" + y;
    if |x| >= |target| {
      assert x[..|target|] == s[..|target|];
    }
  }

  lemma ConsSlash(c: char, rs: string, rx: string, ra: string, rb: string)
    requires rs == [c] + (ra + "/" + rb) && rx == [c] + ra
    ensures rs == rx + "/" + rb
  {
  }

  /** A slash-free target at the start of `x + "/" + y` lies inside `x`. */
  lemma TargetBeforeSlash(x: string, y: string, target: string)
    requires '/' !in target && StartsWith(x + "/" + y, target)
    ensures |x| >= |target| && x[..|target|] == target
    ensures (x + "/" + y)[|target|..] == x[|target|..] + "/" + y
  {
    var s := x + "/" + y;
    assert forall j :: 0 <= j < |target| ==> s[j] == target[j];
    assert s[|x|] == '/';
    assert |x| >= |target|;
    assert x[..|target|] == s[..|target|];
  }

  /** Index of the first `c` in `s`. */
  function FirstIndex(s: string, c: char): (i: nat)
    requires c in s
    ensures i < |s| && s[i] == c && c !in s[..i]
  {
    if s[0] == c then 0 else FirstIndex(s[1..], c) + 1
  }

  /** Text without a slash holds no `/w/`. */
  lemma SlashFreeHasNoDelimited(r: string, w: string)
    requires '/' !in r
    ensures !Contains(r, "/" + w + "/")
  {
    var m := "/" + w + "/";
    forall i | 0 <= i <= |r| - |m| ensures !OccursAt(r, m, i) {
      assert r[i..i + |m|][0] == r[i];
      assert r[i] in r;
    }
  }

  /** An occurrence in the text after position `k` is one in the whole text. */
  lemma NotInSuffix(s: string, k: nat, p: string)
    requires k <= |s| && !Contains(s, p)
    ensures !Contains(s[k..], p)
  {
    forall j | 0 <= j <= |s[k..]| - |p| ensures !OccursAt(s[k..], p, j) {
      assert s[k + j..k + j + |p|] == s[k..][j..j + |p|];
      assert !OccursAt(s, p, k + j);
    }
  }

  /** `/w/` in `a + "/" + b`, where `a` has no slash, starts at the glued
      slash or lies inside `b`. */
  lemma DelimitedInGlue(a: string, b: string, w: string)
    requires '/' !in a
    requires !Contains(b, "/" + w + "/")
    requires !OccursAt(a + "/" + b, "/" + w + "/", |a|)
    ensures !Contains(a + "/" + b, "/" + w + "/")
  {
    var m := "/" + w + "/";
    var r := a + "/" + b;
    forall i | 0 <= i <= |r| - |m| ensures !OccursAt(r, m, i) {
      if i < |a| {
        assert r[i] == a[i] && a[i] in a;
        FirstCharBlocks(r, m, i);
      } else if i > |a| {
        assert r == (a + "/") + b;
        OccursBehindPrefix(a + "/", b, m, i - |a| - 1);
      }
    }
  }

  /** `/w/` cannot be created by rewriting slash-free text into longer
      slash-free text when `w` is shorter than the target: the rewrite never
      introduces a `/blob/` or `/tree/` that was not already there. */
  lemma {:induction false} ReplaceAddsNoDelimited(s: string, w: string, target: string, repl: string)
    requires |target| > 0 && '/' !in target && '/' !in repl && |repl| >= |target|
    requires '/' !in w && |w| < |target|
    requires !Contains(s, "/" + w + "/")
    ensures !Contains(Replace(s, target, repl), "/" + w + "/")
    decreases |s|
  {
    if '/' !in s {
      ReplaceKeepsSlashFree(s, target, repl);
      SlashFreeHasNoDelimited(Replace(s, target, repl), w);
    } else {
      var k := FirstIndex(s, '/');
      var x, y := s[..k], s[k + 1..];
      assert s == x + "/" + y;
      ReplaceSplitsAtSlash(x, y, target, repl);
      ReplaceKeepsSlashFree(x, target, repl);
      NotInSuffix(s, k + 1, "/" + w + "/");
      ReplaceAddsNoDelimited(y, w, target, repl);
      var rx, ry := Replace(x, target, repl), Replace(y, target, repl);
      DelimitedAtSeam(s, k, x, y, w, target, repl);
      assert !OccursAt(s, "/" + w + "/", k);
      DelimitedInGlue(rx, ry, w);
    }
  }

  /** If `r = a + "/" + rest` with `a` slash-free and `r` starts with
      `w + "/"` for a slash-free `w`, then `a` is `w`. */
  lemma FirstSegment(r: string, a: string, rest: string, w: string)
    requires r == a + "/" + rest && '/' !in a && '/' !in w
    requires |r| > |w| && r[..|w| + 1] == w + "/"
    ensures a == w
  {
    assert r[|a|] == '/';
    assert r[|w|] == '/';
    assert forall j :: 0 <= j < |w| ==> r[j] == w[j];
    assert forall j :: 0 <= j < |a| ==> r[j] == a[j];
    assert |a| == |w|;
    assert a == r[..|w|];
  }

  /** If `/w/` starts at the glued slash of `a + "/" + b`, `b` starts with `w/`. */
  lemma AfterGlue(a: string, b: string, w: string)
    requires OccursAt(a + "/" + b, "/" + w + "/", |a|)
    ensures |b| > |w| && b[..|w| + 1] == w + "/"
  {
    var r := a + "/" + b;
    assert r[|a| + 1..|a| + |w| + 2] == b[..|w| + 1];
    assert r[|a|..|a| + |w| + 2] == "/" + w + "/";
  }

  /** A slash in the rewritten text comes from the original text. */
  lemma SlashComesFromSource(y: string, target: string, repl: string)
    requires |target| > 0 && '/' !in repl
    ensures '/' in Replace(y, target, repl) ==> '/' in y
  {
    if '/' !in y {
      ReplaceKeepsSlashFree(y, target, repl);
    }
  }

  /** When the rewrite of `y` starts with `w/`, `y` itself starts with `w/`. */
  lemma RewriteKeepsFirstSegment(y: string, w: string, target: string, repl: string)
    requires |target| > 0 && '/' !in target && '/' !in repl && |repl| >= |target|
    requires '/' !in w && |w| < |target|
    requires var ry := Replace(y, target, repl); |ry| > |w| && ry[..|w| + 1] == w + "/"
    ensures |y| > |w| && y[..|w| + 1] == w + "/"
  {
    RewriteHasSlash(y, w, target, repl);
    var k := FirstIndex(y, '/');
    CutAtFirstSlash(y);
    FirstSegmentKept(y[..k], y[k + 1..], w, target, repl);
    assert y[..|w| + 1] == y[..k] + "/";
  }

  lemma RewriteHasSlash(y: string, w: string, target: string, repl: string)
    requires |target| > 0 && '/' !in repl
    requires var ry := Replace(y, target, repl); |ry| > |w| && ry[..|w| + 1] == w + "/"
    ensures '/' in y
  {
    var ry := Replace(y, target, repl);
    assert ry[|w|] == (w + "/")[|w|];
    assert ry[|w|] in ry;
    SlashComesFromSource(y, target, repl);
  }

  /** `y` is its slash-free first segment, a slash, and the rest. */
  lemma CutAtFirstSlash(y: string)
    requires '/' in y
    ensures var k := FirstIndex(y, '/');
            y == y[..k] + "/" + y[k + 1..] && '/' !in y[..k]
  {
    var k := FirstIndex(y, '/');
    assert y == y[..k] + [y[k]] + y[k + 1..];
  }

  /** The slash-free first segment of `x + "/" + y` is rewritten into `w`
      only when it already is `w`. */
  lemma FirstSegmentKept(x: string, y: string, w: string, target: string, repl: string)
    requires |target| > 0 && '/' !in target && '/' !in repl && |repl| >= |target|
    requires '/' !in w && |w| < |target| && '/' !in x
    requires var ry := Replace(x + "/" + y, target, repl); |ry| > |w| && ry[..|w| + 1] == w + "/"
    ensures x == w
  {
    ReplaceSplitsAtSlash(x, y, target, repl);
    ReplaceKeepsSlashFree(x, target, repl);
    FirstSegment(Replace(x + "/" + y, target, repl), Replace(x, target, repl), Replace(y, target, repl), w);
    ReplaceNotShorter(x, target, repl);
  }

  /** A slash at `k` followed by `w/` is an occurrence of `/w/` at `k`. */
  lemma SlashThenSegment(s: string, k: nat, w: string)
    requires k < |s| && s[k] == '/'
    requires |s[k + 1..]| > |w| && s[k + 1..][..|w| + 1] == w + "/"
    ensures OccursAt(s, "/" + w + "/", k)
  {
    assert s[k..k + |w| + 2] == [s[k]] + s[k + 1..][..|w| + 1];
  }

  /** A `/w/` of the rewritten text starting at the rewritten first slash of
      `s` is a `/w/` of `s` at that slash. */
  lemma DelimitedAtSeam(s: string, k: nat, x: string, y: string, w: string, target: string, repl: string)
    requires |target| > 0 && '/' !in target && '/' !in repl && |repl| >= |target|
    requires '/' !in w && |w| < |target|
    requires k < |s| && x == s[..k] && y == s[k + 1..] && s == x + "/" + y
    ensures var rx := Replace(x, target, repl);
            OccursAt(rx + "/" + Replace(y, target, repl), "/" + w + "/", |rx|) ==> OccursAt(s, "/" + w + "/", k)
  {
    var rx, ry := Replace(x, target, repl), Replace(y, target, repl);
    if OccursAt(rx + "/" + ry, "/" + w + "/", |rx|) {
      AfterGlue(rx, ry, w);
      RewriteKeepsFirstSegment(y, w, target, repl);
      SlashThenSegment(s, k, w);
    }
  }

  /** In the repository part of a `/blob/` source, which holds no `/blob/`,
      the `/blob/` rewrite changes nothing. */
  lemma BlobRewriteIsNoOp(repo: string)
    requires !Contains(repo, BlobMarker)
    ensures Replace(Replace(repo, GithubHost, RawHost), BlobMarker, "/") == Replace(repo, GithubHost, RawHost)
  {
    HostRewriteAddsNoMarker(repo);
  }

  /** A URL with no host and no marker is left unchanged by the rewrite. */
  lemma RawUrlIdentity(u: string)
    requires !Contains(u, GithubHost) && !Contains(u, BlobMarker) && !Contains(u, TreeMarker)
    ensures RawUrl(u) == u
  {
    assert Replace(u, GithubHost, RawHost) == u;
  }

  /** The marker a GitHub source is split on: `/blob/` when present, else `/tree/`. */
  function Marker(source: string): string {
    if Contains(source, BlobMarker) then BlobMarker else TreeMarker
  }

  /** A GitHub source cut into the repository URL and the file path. */
  datatype GithubSource = GithubSource(repo: string, file: Option<string>)

  lemma JoinTwoOrMore(parts: seq<string>, sep: string)
    requires |parts| >= 2
    ensures Join(parts, sep) == parts[0] + sep + Join(parts[1..], sep)
    ensures |parts| == 2 ==> Join(parts[1..], sep) == parts[1]
    ensures |parts| > 2 ==> Join(parts[1..], sep) == parts[1] + sep + Join(parts[2..], sep)
  {
    assert parts[1..][1..] == parts[2..];
  }

  /** `parts = source.split(marker)`; the repository is `parts[0]`, the file
      `parts[1]` when there is one. */
  function SplitGithubSource(source: string): (g: GithubSource)
    ensures !Contains(g.repo, Marker(source))
    ensures g.file.None? <==> !Contains(source, Marker(source))
    ensures g.file.None? ==> g.repo == source
    ensures g.file.Some? ==> FindFirst(source, Marker(source)) == Some(|g.repo|)
    ensures g.file.Some? ==>
      && !Contains(g.file.value, Marker(source))
      && StartsWith(source, g.repo + Marker(source) + g.file.value)
      && (source == g.repo + Marker(source) + g.file.value
          || StartsWith(source, g.repo + Marker(source) + g.file.value + Marker(source)))
    ensures g.file.Some? ==>
      var rest := source[|g.repo| + |Marker(source)|..];
      || (!Contains(rest, Marker(source)) && g.file.value == rest)
      || FindFirst(rest, Marker(source)) == Some(|g.file.value|)
  {
    var m := Marker(source);
    var parts := Split(source, m);
    SplitHeadParts(source, m);
    SplitSecondCut(source, m);
    if |parts| >= 2 then GithubSource(parts[0], Some(parts[1]))
    else GithubSource(parts[0], None)
  }

  /** The first two pieces of `s.split(m)`: neither holds `m`, and `s` starts
      with them glued by `m`, followed by the end of `s` or another `m`. */
  lemma SplitHeadParts(s: string, m: string)
    requires |m| > 0
    ensures var parts := Split(s, m);
            && (|parts| >= 2 <==> Contains(s, m))
            && (|parts| < 2 ==> parts[0] == s)
            && (|parts| >= 2 ==>
                && StartsWith(s, parts[0] + m + parts[1])
                && (s == parts[0] + m + parts[1] || StartsWith(s, parts[0] + m + parts[1] + m)))
  {
    var parts := Split(s, m);
    SplitJoin(s, m);
    if |parts| >= 2 {
      SplitHeadStarts(s, m, parts);
    }
  }

  /** When the marker `m` of a source occurs at least twice, the repository
      is the text before its first occurrence and the file the text between
      its first and second occurrences. */
  lemma SplitGithubSourceBetweenMarkers(source: string, m: string, i: nat, j: nat)
    requires m == Marker(source)
    requires FindFirst(source, m) == Some(i)
    requires FindFirst(source[i + |m|..], m) == Some(j)
    ensures i + |m| + j <= |source|
    ensures SplitGithubSource(source) == GithubSource(source[..i], Some(source[i + |m|..i + |m| + j]))
  {
    var g := SplitGithubSource(source);
    CutsDetermined(source, m, g.repo, g.file.value, i, j);
  }

  /** `'r/blob/x/blob/blob/z'.split('/blob/')[1]` is `'x'`: the file part
      ends at the next marker even where a later, overlapping one exists. */
  lemma SplitGithubSourceOverlapExample(source: string)
    requires source == "r/blob/x/blob/blob/z"
    ensures SplitGithubSource(source) == GithubSource("r", Some("x"))
  {
    var tail := ['x'] + BlobMarker + "blob/z";
    OverlapExampleShape(source, tail);
    BlobAfterOneChar('r', tail);
    BlobAfterOneChar('x', "blob/z");
    SplitGithubSourceBetweenMarkers(source, BlobMarker, 1, 1);
  }

  /** Where the markers sit in the example source. */
  lemma OverlapExampleShape(source: string, tail: string)
    requires source == "r/blob/x/blob/blob/z" && tail == ['x'] + BlobMarker + "blob/z"
    ensures source == ['r'] + BlobMarker + tail && source[7..] == tail
    ensures source[..1] == "r" && source[7..8] == "x"
  {
  }

  /** After one character other than `/`, a `/blob/` is the first marker. */
  lemma BlobAfterOneChar(c: char, rest: string)
    requires c != '/'
    ensures Contains([c] + BlobMarker + rest, BlobMarker)
    ensures FindFirst([c] + BlobMarker + rest, BlobMarker) == Some(1)
  {
    var s := [c] + BlobMarker + rest;
    assert s[1..7] == BlobMarker;
    assert OccursAt(s, BlobMarker, 1);
    FirstCharBlocks(s, BlobMarker, 0);
  }

  /** The text before the first marker and the text from there to the next
      marker, or to the end, are fixed by where the markers are. */
  lemma CutsDetermined(source: string, m: string, repo: string, file: string, i: nat, j: nat)
    requires FindFirst(source, m) == Some(|repo|) && FindFirst(source, m) == Some(i)
    requires StartsWith(source, repo + m + file)
    requires var rest := source[|repo| + |m|..];
      || (!Contains(rest, m) && file == rest)
      || FindFirst(rest, m) == Some(|file|)
    requires FindFirst(source[i + |m|..], m) == Some(j)
    ensures i + |m| + j <= |source|
    ensures repo == source[..i] && file == source[i + |m|..i + |m| + j]
  {
    var rest := source[i + |m|..];
    assert Contains(rest, m);
    assert source[..|repo + m + file|] == repo + m + file;
    assert rest[..j] == source[i + |m|..i + |m| + j];
  }

  /** The second piece of `s.split(m)` runs from just after the first `m`
      to the next `m`, or to the end of `s` when there is none. */
  lemma SplitSecondCut(s: string, m: string)
    requires |m| > 0
    ensures var parts := Split(s, m);
            |parts| >= 2 ==>
              var rest := s[|parts[0]| + |m|..];
              || (!Contains(rest, m) && parts[1] == rest)
              || FindFirst(rest, m) == Some(|parts[1]|)
  {
    var parts := Split(s, m);
    if |parts| >= 2 {
      var i := |parts[0]|;
      SplitAt(s, m, i);
      var rest := s[i + |m|..];
      if |Split(rest, m)| == 1 {
        SplitHeadParts(rest, m);
      }
    }
  }

  lemma SplitHeadStarts(s: string, m: string, parts: seq<string>)
    requires |parts| >= 2 && Join(parts, m) == s
    ensures StartsWith(s, parts[0] + m + parts[1])
    ensures s == parts[0] + m + parts[1] || StartsWith(s, parts[0] + m + parts[1] + m)
  {
    JoinTwoOrMore(parts, m);
    if |parts| > 2 {
      GluedPrefix(parts[0] + m + parts[1], m, Join(parts[2..], m), s);
    } else {
      assert s[..|s|] == s;
    }
  }

  /** `head + m + rest` starts with `head` and with `head + m`. */
  lemma GluedPrefix(head: string, m: string, rest: string, s: string)
    requires s == head + m + rest
    ensures StartsWith(s, head) && StartsWith(s, head + m)
  {
    assert s[..|head|] == head;
    assert s[..|head + m|] == head + m;
  }

  /** The repository URL that reaches the rewrite never holds the marker it
      was cut on, so the `/blob/` rewrite is a no-op on it; when the source
      has no `/blob/`, so is the `/tree/` rewrite. */
  lemma SplitRepoRewrite(source: string)
    ensures var repo := SplitGithubSource(source).repo;
            Replace(Replace(repo, GithubHost, RawHost), BlobMarker, "/") == Replace(repo, GithubHost, RawHost)
    ensures !Contains(source, BlobMarker) ==>
            RawUrl(SplitGithubSource(source).repo) == Replace(SplitGithubSource(source).repo, GithubHost, RawHost)
  {
    var g := SplitGithubSource(source);
    if Contains(source, BlobMarker) {
      BlobRewriteIsNoOp(g.repo);
    } else {
      assert StartsWith(source, g.repo);
      PrefixKeepsAbsence(source, g.repo, BlobMarker);
      BlobRewriteIsNoOp(g.repo);
    }
  }

  /** A prefix of a text without `p` is without `p`. */
  lemma PrefixKeepsAbsence(s: string, pre: string, p: string)
    requires StartsWith(s, pre) && !Contains(s, p)
    ensures !Contains(pre, p)
  {
    forall i | 0 <= i <= |pre| - |p| ensures !OccursAt(pre, p, i) {
      assert pre[i..i + |p|] == s[i..i + |p|];
      assert !OccursAt(s, p, i);
    }
  }

  /** `load_from_github` as written. A missing file path fails at `lstrip`;
      a non-CSV file is wrapped as `StringIO(response.content)`, which raises
      on bytes; both errors are caught and reported as None. */
  function LoadFromGithubAsWritten(repoUrl: string, filePath: Option<string>): (r: Option<ReadPlan>)
    ensures r.Some? <==> filePath.Some? && EndsWith(filePath.value, ".csv")
    ensures r.Some? ==> r.value == ReadPlan(Csv, FullUrl(repoUrl, filePath.value))
    ensures r.Some? ==> r == LoadFromGithub(repoUrl, filePath)
  {
    match filePath
    case None => None
    case Some(f) => if EndsWith(f, ".csv") then Some(ReadPlan(Csv, FullUrl(repoUrl, f))) else None
  }

  /** `load_from_github` with the Excel branch reading the fetched bytes:
      a '.csv' file path selects the CSV reader, any other the Excel reader. */
  function LoadFromGithub(repoUrl: string, filePath: Option<string>): (r: Option<ReadPlan>)
    ensures r.Some? <==> filePath.Some?
    ensures r.Some? ==> r.value.location == FullUrl(repoUrl, filePath.value)
    ensures r.Some? ==> (r.value.format == Csv <==> EndsWith(filePath.value, ".csv"))
  {
    match filePath
    case None => None
    case Some(f) => Some(ReadPlan(if EndsWith(f, ".csv") then Csv else Excel, FullUrl(repoUrl, f)))
  }

  /** The two readings part ways on every GitHub file that is not CSV: as
      written such a source never loads. */
  lemma GithubExcelLostAsWritten(repoUrl: string, f: string)
    requires !EndsWith(f, ".csv")
    ensures LoadFromGithubAsWritten(repoUrl, Some(f)) == None
    ensures LoadFromGithub(repoUrl, Some(f)) == Some(ReadPlan(Excel, FullUrl(repoUrl, f)))
  {
  }

  /** A local file is read by its suffix: '.csv' with the CSV reader,
      '.xls' or '.xlsx' with the Excel reader, anything else falls through to None. */
  function ReadLocal(path: string): (r: Option<ReadPlan>)
    ensures r.Some? <==> EndsWith(path, ".csv") || EndsWith(path, ".xls") || EndsWith(path, ".xlsx")
    ensures r.Some? ==> r.value.location == path
    ensures r.Some? ==> (r.value.format == Csv <==> EndsWith(path, ".csv"))
  {
    if EndsWith(path, ".csv") then Some(ReadPlan(Csv, path))
    else if EndsWith(path, ".xls") || EndsWith(path, ".xlsx") then Some(ReadPlan(Excel, path))
    else None
  }

  /** `os.path.join(a, b)` on POSIX. */
  function PathJoin(a: string, b: string): (p: string)
    ensures StartsWith(b, "/") ==> p == b
    ensures !StartsWith(b, "/") ==> EndsWith(p, b) && StartsWith(p, a)
    ensures !StartsWith(b, "/") ==> (|p| == |a| + |b| + 1 <==> |a| > 0 && !EndsWith(a, "/"))
    ensures !StartsWith(b, "/") && |p| != |a| + |b| + 1 ==> |p| == |a| + |b|
    ensures !StartsWith(b, "/") && |p| == |a| + |b| + 1 ==> p[|a|] == '/'
  {
    if StartsWith(b, "/") then b
    else if |a| == 0 || EndsWith(a, "/") then a + b
    else a + "/" + b
  }

  /** `load_data`: an existing file, then a GitHub URL, then any 'http'
      URL, then a file of the raw-data directory; otherwise None. A GitHub
      source goes through the corrected `LoadFromGithub`. Whatever the
      source, the CSV reader is chosen exactly when the location read ends
      in '.csv'. */
  function LoadData(source: string, files: set<string>, rawDir: string): (r: Option<ReadPlan>)
    ensures r.Some? ==> (r.value.format == Csv <==> EndsWith(r.value.location, ".csv"))
    decreases if source in files then 0 else 1
  {
    if source in files then ReadLocal(source)
    else if Contains(source, GithubHost) then
      var g := SplitGithubSource(source);
      GithubFormat(g);
      LoadFromGithub(g.repo, g.file)
    else if StartsWith(source, "http") then
      Some(ReadPlan(if EndsWith(source, ".csv") then Csv else Excel, source))
    else if PathJoin(rawDir, source) in files then LoadData(PathJoin(rawDir, source), files, rawDir)
    else None
  }

  /** The order in which `load_data` tries the kinds of source. */
  lemma DispatchOrder(source: string, files: set<string>, rawDir: string)
    ensures source in files ==> LoadData(source, files, rawDir) == ReadLocal(source)
    ensures source !in files && Contains(source, GithubHost) ==>
      LoadData(source, files, rawDir)
        == LoadFromGithub(SplitGithubSource(source).repo, SplitGithubSource(source).file)
    ensures source !in files && !Contains(source, GithubHost) && StartsWith(source, "http") ==>
      LoadData(source, files, rawDir) == Some(ReadPlan(if EndsWith(source, ".csv") then Csv else Excel, source))
    ensures source !in files && !Contains(source, GithubHost) && !StartsWith(source, "http") ==>
      LoadData(source, files, rawDir)
        == (if PathJoin(rawDir, source) in files then ReadLocal(PathJoin(rawDir, source)) else None)
  {
  }

  /** A GitHub source with neither marker has no file part and loads nothing. */
  lemma GithubWithoutMarkerFails(source: string, files: set<string>, rawDir: string)
    requires source !in files && Contains(source, GithubHost)
    requires !Contains(source, BlobMarker) && !Contains(source, TreeMarker)
    ensures LoadData(source, files, rawDir) == None
  {
  }

  /** An existing file with a suffix other than '.csv', '.xls', '.xlsx' loads nothing. */
  lemma UnknownLocalSuffixFails(source: string, files: set<string>, rawDir: string)
    requires source in files
    requires !EndsWith(source, ".csv") && !EndsWith(source, ".xls") && !EndsWith(source, ".xlsx")
    ensures LoadData(source, files, rawDir) == None
  {
  }

  /** Joining does not change whether the URL ends with a slash-free suffix. */
  lemma SuffixThroughSeam(base: string, f: string, x: string)
    requires '/' !in x && |x| > 0
    ensures EndsWith(JoinUrl(base, f), x) <==> EndsWith(f, x)
  {
    SlashRuns(base, f);
    if |LStrip(f, '/')| >= |x| {
      SeamLongTail(base, f, x);
    } else {
      SeamShortTail(base, f, x);
    }
  }

  lemma SeamLongTail(base: string, f: string, x: string)
    requires |LStrip(f, '/')| >= |x|
    ensures EndsWith(JoinUrl(base, f), x) <==> EndsWith(f, x)
  {
    var left := RStrip(base, '/');
    var b := LStrip(f, '/');
    assert JoinUrl(base, f) == (left + "/") + b;
    EndsWithLongTail(left + "/", b, x);
    var pre := f[..|f| - |b|];
    assert f == pre + b;
    EndsWithLongTail(pre, b, x);
  }

  lemma SeamShortTail(base: string, f: string, x: string)
    requires '/' !in x && |LStrip(f, '/')| < |x|
    requires AllSlashes(f[..|f| - |LStrip(f, '/')|])
    ensures !EndsWith(JoinUrl(base, f), x) && !EndsWith(f, x)
  {
    var left := RStrip(base, '/');
    var b := LStrip(f, '/');
    var url := JoinUrl(base, f);
    assert url[|left|] == '/';
    SlashInSuffixBlocks(url, |left|, x);
    if |f| >= |x| {
      var pre := f[..|f| - |b|];
      assert f[|pre| - 1] == pre[|pre| - 1];
      SlashInSuffixBlocks(f, |pre| - 1, x);
    }
  }

  /** A suffix no longer than the tail is a suffix of the tail. */
  lemma EndsWithLongTail(a: string, b: string, x: string)
    requires |b| >= |x|
    ensures EndsWith(a + b, x) <==> EndsWith(b, x)
  {
    assert (a + b)[|a + b| - |x|..] == b[|b| - |x|..];
  }

  /** A text whose last `|x|` characters include a slash does not end with
      a slash-free `x`. */
  lemma SlashInSuffixBlocks(s: string, k: int, x: string)
    requires 0 <= k < |s| && s[k] == '/' && k >= |s| - |x|
    requires '/' !in x
    ensures !EndsWith(s, x)
  {
    if |x| <= |s| {
      var d := k - (|s| - |x|);
      assert s[|s| - |x|..][d] == '/';
      assert x[d] in x;
    }
  }

  /** A GitHub read is CSV exactly when the fetched URL ends in '.csv'. */
  lemma GithubFormat(g: GithubSource)
    ensures var r := LoadFromGithub(g.repo, g.file);
            r.Some? ==> (r.value.format == Csv <==> EndsWith(r.value.location, ".csv"))
  {
    if g.file.Some? {
      SuffixThroughSeam(RawUrl(g.repo), g.file.value, ".csv");
    }
  }

  /** The corrected dispatch reads `source` as a GitHub Excel file. */
  predicate GithubExcelRead(source: string, files: set<string>, rawDir: string) {
    && source !in files && Contains(source, GithubHost)
    && LoadData(source, files, rawDir).Some? && LoadData(source, files, rawDir).value.format == Excel
  }

  /** `load_data` as written, where a GitHub source reaches the as-written
      `load_from_github`. It agrees with the corrected dispatch on every
      source except a GitHub Excel file, which it does not load; any read it
      makes of a GitHub source is a CSV read of a URL ending in '.csv'. */
  function LoadDataAsWritten(source: string, files: set<string>, rawDir: string): (r: Option<ReadPlan>)
    ensures r.Some? ==> LoadData(source, files, rawDir) == r
    ensures !GithubExcelRead(source, files, rawDir) ==> r == LoadData(source, files, rawDir)
    ensures GithubExcelRead(source, files, rawDir) ==> r.None?
    ensures r.Some? && source !in files && Contains(source, GithubHost) ==>
      r.value.format == Csv && EndsWith(r.value.location, ".csv")
    decreases if source in files then 0 else 1
  {
    if source in files then ReadLocal(source)
    else if Contains(source, GithubHost) then
      var g := SplitGithubSource(source);
      GithubFormat(g);
      LoadFromGithubAsWritten(g.repo, g.file)
    else if StartsWith(source, "http") then
      Some(ReadPlan(if EndsWith(source, ".csv") then Csv else Excel, source))
    else if PathJoin(rawDir, source) in files then LoadDataAsWritten(PathJoin(rawDir, source), files, rawDir)
    else None
  }

  /** Every GitHub source naming a file that is not CSV separates the two
      loaders: as written it loads nothing, corrected it is read as Excel. */
  lemma GithubExcelSourceLostAsWritten(source: string, files: set<string>, rawDir: string)
    requires source !in files && Contains(source, GithubHost)
    requires SplitGithubSource(source).file.Some?
    requires !EndsWith(SplitGithubSource(source).file.value, ".csv")
    ensures LoadDataAsWritten(source, files, rawDir) == None
    ensures var g := SplitGithubSource(source);
            LoadData(source, files, rawDir) == Some(ReadPlan(Excel, FullUrl(g.repo, g.file.value)))
  {
    var g := SplitGithubSource(source);
    GithubExcelLostAsWritten(g.repo, g.file.value);
  }
}
