/**
 * The small string helpers of the scraper: the snapshot and screenshot file
 * paths the browser CLI prints, the model name at the end of a page URL, and
 * the file name made from it.
 */
module Paths {
  import opened Text

  // ----- get_snapshot_path: `re.findall(r'\[Snapshot\]\(([^)]+)\)', output)[-1]`

  const SnapshotOpen: string := "[Snapshot]("

  /** Where the capture of a `[Snapshot](...)` link that starts at `k` ends:
      at the first `)` after the opening, which must leave at least one
      character to capture. */
  function SnapshotEnd(s: string, k: nat): (e: Option<nat>)
    ensures e.Some? ==> k + |SnapshotOpen| < e.value < |s| && s[e.value] == ')'
  {
    if StartsAt(s, k, SnapshotOpen) then
      var b := k + |SnapshotOpen|;
      var e := b + IndexOf(s[b..], ')');
      if b < e < |s| then Some(e) else None
    else None
  }

  /** The captures `re.findall` returns scanning from `k`: after a match the
      scan resumes just past its closing `)`. */
  function SnapshotsFrom(s: string, k: nat): seq<string>
    decreases |s| - k
  {
    if k >= |s| then []
    else
      match SnapshotEnd(s, k)
      case Some(e) => [s[k + |SnapshotOpen|..e]] + SnapshotsFrom(s, e + 1)
      case None => SnapshotsFrom(s, k + 1)
  }

  /** `get_snapshot_path`: the target of the last snapshot link. */
  function SnapshotPath(output: string): Option<string>
  {
    var ms := SnapshotsFrom(output, 0);
    if |ms| > 0 then Some(Last(ms)) else None
  }

  /** A snapshot link starts at `k` and captures `p`. */
  predicate SnapshotLink(s: string, k: nat, p: string)
  {
    SnapshotEnd(s, k).Some? && p == s[k + |SnapshotOpen|..SnapshotEnd(s, k).value]
  }

  /** No snapshot link starts in `k .. |s| - 1`. */
  predicate NoLinkFrom(s: string, k: nat)
  {
    forall j :: k <= j < |s| ==> SnapshotEnd(s, j).None?
  }

  lemma {:induction false} SnapshotsEmpty(s: string, k: nat)
    ensures SnapshotsFrom(s, k) == [] <==> NoLinkFrom(s, k)
    decreases |s| - k
  {
    if k < |s| && SnapshotEnd(s, k).None? {
      SnapshotsEmpty(s, k + 1);
    }
  }

  /** The last capture found from `k` on is the capture of a link at `j`
      after which no further link starts. */
  lemma {:induction false} SnapshotsLast(s: string, k: nat) returns (j: nat)
    requires SnapshotsFrom(s, k) != []
    ensures k <= j && SnapshotLink(s, j, Last(SnapshotsFrom(s, k)))
    ensures NoLinkFrom(s, SnapshotEnd(s, j).value + 1)
    decreases |s| - k
  {
    match SnapshotEnd(s, k)
    case Some(e) =>
      var rest := SnapshotsFrom(s, e + 1);
      assert SnapshotsFrom(s, k) == [s[k + |SnapshotOpen|..e]] + rest;
      if rest == [] {
        SnapshotsEmpty(s, e + 1);
        j := k;
      } else {
        j := SnapshotsLast(s, e + 1);
        LastAppend([s[k + |SnapshotOpen|..e]], rest);
      }
    case None =>
      assert SnapshotsFrom(s, k) == SnapshotsFrom(s, k + 1);
      j := SnapshotsLast(s, k + 1);
  }

  function Last(xs: seq<string>): string
    requires xs != []
  {
    xs[|xs| - 1]
  }

  lemma LastAppend(xs: seq<string>, ys: seq<string>)
    requires ys != []
    ensures Last(xs + ys) == Last(ys)
  {
  }

  /** A capture is a non-empty text without `)`. */
  predicate Target(p: string)
  {
    |p| >= 1 && ')' !in p
  }

  lemma CaptureTarget(s: string, k: nat)
    requires SnapshotEnd(s, k).Some?
    ensures Target(s[k + |SnapshotOpen|..SnapshotEnd(s, k).value])
  {
    var b := k + |SnapshotOpen|;
    var e := SnapshotEnd(s, k).value;
    assert s[b..e] == s[b..][..e - b];
  }

  lemma ConsTargets(p: string, rest: seq<string>)
    requires Target(p) && forall q :: q in rest ==> Target(q)
    ensures forall q :: q in [p] + rest ==> Target(q)
  {
  }

  /** Every capture is a non-empty text without `)`. */
  lemma {:induction false} SnapshotsShape(s: string, k: nat)
    ensures forall p :: p in SnapshotsFrom(s, k) ==> Target(p)
    decreases |s| - k
  {
    if k < |s| {
      match SnapshotEnd(s, k)
      case Some(e) =>
        SnapshotsShape(s, e + 1);
        CaptureTarget(s, k);
        ConsTargets(s[k + |SnapshotOpen|..e], SnapshotsFrom(s, e + 1));
      case None =>
        SnapshotsShape(s, k + 1);
    }
  }

  /** No path exactly when the output holds no snapshot link; otherwise the
      path is the non-empty, `)`-free target of a link after which no other
      link starts. */
  lemma SnapshotPathSpec(output: string)
    ensures SnapshotPath(output).None? <==> NoLinkFrom(output, 0)
    ensures SnapshotPath(output).Some? ==>
              var p := SnapshotPath(output).value;
              Target(p)
              && exists j: nat :: SnapshotLink(output, j, p) && NoLinkFrom(output, SnapshotEnd(output, j).value + 1)
  {
    var ms := SnapshotsFrom(output, 0);
    SnapshotsEmpty(output, 0);
    if ms != [] {
      var j := SnapshotsLast(output, 0);
      SnapshotsShape(output, 0);
      assert Last(ms) in ms;
    }
  }

  // ----- get_screenshot_path

  const CliDir: string := ".playwright-cli"
  const PagePrefix: string := "page-"
  const Png: string := ".png"
  const ScreenshotWord: string := "Screenshot"

  /** `[^\s\]]`: a character of a page screenshot's file name. */
  predicate PathChar(c: char)
  {
    !IsSpace(c) && c != ']'
  }

  /** The end of the run of path characters from `b`. */
  function PathRunEnd(s: string, b: nat): (e: nat)
    requires b <= |s|
    ensures b <= e <= |s| && (e < |s| ==> !PathChar(s[e]))
    ensures forall j :: b <= j < e ==> PathChar(s[j])
    decreases |s| - b
  {
    if b < |s| && PathChar(s[b]) then PathRunEnd(s, b + 1) else b
  }

  function PngAt(s: string): nat -> bool
  {
    (t: nat) => StartsAt(s, t, Png)
  }

  /** `(\.playwright-cli[/\\]page-[^\s\]]+\.png)` tried at `k`: the end of
      the match. The run of path characters after `page-` is taken whole and
      given back until `.png` follows what is left of it. */
  function PageShotEnd(s: string, k: nat): (e: Option<nat>)
    ensures e.Some? ==> k + |CliDir| + 1 + |PagePrefix| + 1 + |Png| <= e.value <= |s|
                        && PageShotParts(s, k, e.value - |Png|)
  {
    var b := k + |CliDir| + 1 + |PagePrefix|;
    if StartsAt(s, k, CliDir) && b <= |s| && IsSeparator(s[k + |CliDir|])
       && StartsAt(s, k + |CliDir| + 1, PagePrefix)
    then
      var run := PathRunEnd(s, b);
      RightmostSpec(PngAt(s), b + 1, run + 1);
      match Rightmost(PngAt(s), b + 1, run + 1)
      case Some(t) =>
        assert PngAt(s)(t);
        RunThenPng(s, b, t);
        Some(t + |Png|)
      case None => None
    else None
  }

  /** `.playwright-cli`, a separator and `page-` at `k`, path characters from
      there to `t`, and `.png` at `t`. */
  predicate PageShotParts(s: string, k: nat, t: nat)
  {
    StartsAt(s, k, CliDir) && k + |CliDir| < |s| && IsSeparator(s[k + |CliDir|])
    && StartsAt(s, k + |CliDir| + 1, PagePrefix)
    && k + |CliDir| + 1 + |PagePrefix| < t && StartsAt(s, t, Png)
    && forall j :: k + |CliDir| + 1 + |PagePrefix| <= j < t + |Png| ==> PathChar(s[j])
  }

  function PageShots(s: string): nat -> bool
  {
    (k: nat) => PageShotEnd(s, k).Some?
  }

  /** The first `re.search` of `get_screenshot_path`: the leftmost match of
      the page screenshot pattern. */
  function PageShot(s: string): Option<string>
  {
    LeftmostSpec(PageShots(s), 0, |s| + 1);
    match Leftmost(PageShots(s), 0, |s| + 1)
    case Some(k) => assert PageShots(s)(k); Some(s[k..PageShotEnd(s, k).value])
    case None => None
  }

  /** The end of the line holding position `p`: the next `\n`, or the end. */
  function LineEnd(s: string, p: nat): (e: nat)
    requires p <= |s|
    ensures p <= e <= |s| && (e < |s| ==> s[e] == '\n')
    ensures forall j :: p <= j < e ==> s[j] != '\n'
    decreases |s| - p
  {
    if p < |s| && s[p] != '\n' then LineEnd(s, p + 1) else p
  }

  /** The end of the run of whitespace from `p`. */
  function SpaceRunEnd(s: string, p: nat): (e: nat)
    requires p <= |s|
    ensures p <= e <= |s|
    ensures forall j :: p <= j < e ==> IsSpace(s[j])
    decreases |s| - p
  {
    if p < |s| && IsSpace(s[p]) then SpaceRunEnd(s, p + 1) else p
  }

  /** `(.+\.png)` tried at `p`: the end of the group. `.+` takes the rest of
      the line and gives it back until `.png` follows. */
  function GroupEnd(s: string, p: nat): (e: Option<nat>)
    requires p <= |s|
    ensures e.Some? ==> p + 1 + |Png| <= e.value <= |s| && StartsAt(s, e.value - |Png|, Png)
                        && forall j :: p <= j < e.value ==> s[j] != '\n'
  {
    RightmostSpec(PngAt(s), p + 1, LineEnd(s, p) + 1);
    match Rightmost(PngAt(s), p + 1, LineEnd(s, p) + 1)
    case Some(t) =>
      assert PngAt(s)(t);
      assert forall j :: t <= j < t + |Png| ==> s[j] == Png[j - t];
      Some(t + |Png|)
    case None => None
  }

  function Groups(s: string): nat -> bool
  {
    (p: nat) => p <= |s| && GroupEnd(s, p).Some?
  }

  /** The start of the group after the colon at `m`: `\s*` takes the whole
      run of whitespace and gives back one character at a time until the
      group matches. */
  function GroupStart(s: string, m: nat): (p: Option<nat>)
    requires m < |s|
    ensures p.Some? ==> m < p.value <= |s| && GroupEnd(s, p.value).Some?
  {
    RightmostSpec(Groups(s), m + 1, SpaceRunEnd(s, m + 1) + 1);
    var r := Rightmost(Groups(s), m + 1, SpaceRunEnd(s, m + 1) + 1);
    if r.Some? then assert Groups(s)(r.value); r else r
  }

  function Colons(s: string): nat -> bool
  {
    (m: nat) => m < |s| && s[m] == ':' && GroupStart(s, m).Some?
  }

  /** `Screenshot.*?:\s*(.+\.png)` tried at `k`: the start of its group.
      The lazy `.*?` stops at the first colon of the line after which the
      rest matches. */
  function CaptionStart(s: string, k: nat): (p: Option<nat>)
    ensures p.Some? ==> k < p.value <= |s| && GroupEnd(s, p.value).Some?
  {
    var a := k + |ScreenshotWord|;
    if StartsAt(s, k, ScreenshotWord) then
      LeftmostSpec(Colons(s), a, LineEnd(s, a));
      match Leftmost(Colons(s), a, LineEnd(s, a))
      case Some(m) => assert Colons(s)(m); GroupStart(s, m)
      case None => None
    else None
  }

  function Captions(s: string): nat -> bool
  {
    (k: nat) => CaptionStart(s, k).Some?
  }

  /** The second `re.search` of `get_screenshot_path`: the group of the
      leftmost match of the caption pattern. */
  function CaptionShot(s: string): Option<string>
  {
    LeftmostSpec(Captions(s), 0, |s| + 1);
    match Leftmost(Captions(s), 0, |s| + 1)
    case Some(k) =>
      assert Captions(s)(k);
      var p := CaptionStart(s, k).value;
      Some(s[p..GroupEnd(s, p).value])
    case None => None
  }

  /** `get_screenshot_path`: a page screenshot path if the output names one,
      else the stripped path after a `Screenshot...:` caption. */
  function ScreenshotPath(output: string): Option<string>
  {
    match PageShot(output)
    case Some(path) => Some(path)
    case None =>
      match CaptionShot(output)
      case Some(g) => Some(Strip(g))
      case None => None
  }

  predicate EndsWithPng(path: string)
  {
    |path| >= |Png| && path[|path| - |Png|..] == Png
  }

  /** `.playwright-cli`, a separator, `page-`, then path characters only,
      at least one before the closing `.png`. */
  predicate PageShotShape(path: string)
  {
    var b := |CliDir| + 1 + |PagePrefix|;
    |path| >= b + 1 + |Png|
    && path[..|CliDir|] == CliDir && IsSeparator(path[|CliDir|])
    && path[|CliDir| + 1..b] == PagePrefix
    && EndsWithPng(path)
    && forall i :: b <= i < |path| ==> PathChar(path[i])
  }

  /** A page screenshot match starts at `k` and spans `path`. */
  predicate PageShotAt(s: string, k: nat, path: string)
  {
    PageShotEnd(s, k).Some? && path == s[k..PageShotEnd(s, k).value]
  }

  lemma SliceContained(s: string, a: nat, b: nat)
    requires a <= b <= |s|
    ensures Contains(s, s[a..b])
  {
    assert StartsAt(s, a, s[a..b]);
  }

  /** What a page screenshot match spans has the page screenshot shape. */
  lemma PageShotAtShape(s: string, k: nat)
    requires PageShotEnd(s, k).Some?
    ensures PageShotShape(s[k..PageShotEnd(s, k).value])
  {
    PageShotSlice(s, k, PageShotEnd(s, k).value - |Png|);
  }

  /** The shape of a match from its parts. */
  lemma PageShotSlice(s: string, k: nat, t: nat)
    requires PageShotParts(s, k, t)
    ensures PageShotShape(s[k..t + |Png|])
  {
    var b := k + |CliDir| + 1 + |PagePrefix|;
    var e := t + |Png|;
    SliceOfSlice(s, k, e, 0, |CliDir|);
    SliceOfSlice(s, k, e, |CliDir| + 1, b - k);
    SliceOfSlice(s, k, e, t - k, e - k);
  }

  /** Path characters up to `t` followed by `.png` are path characters
      throughout. */
  lemma RunThenPng(s: string, b: nat, t: nat)
    requires b <= t && StartsAt(s, t, Png) && forall j :: b <= j < t ==> PathChar(s[j])
    ensures forall j :: b <= j < t + |Png| ==> PathChar(s[j])
  {
    forall j | t <= j < t + |Png| ensures PathChar(s[j]) {
      assert s[j] == Png[j - t];
    }
  }

  /** The first `re.search`: no path exactly when no match starts anywhere;
      otherwise the leftmost match, of the page screenshot shape. */
  lemma PageShotSpec(s: string)
    ensures PageShot(s).None? <==> forall k :: 0 <= k <= |s| ==> PageShotEnd(s, k).None?
    ensures PageShot(s).Some? ==>
              PageShotShape(PageShot(s).value) && Contains(s, PageShot(s).value)
              && exists k: nat :: PageShotAt(s, k, PageShot(s).value)
                                  && forall j :: 0 <= j < k ==> PageShotEnd(s, j).None?
  {
    LeftmostSpec(PageShots(s), 0, |s| + 1);
    assert forall j: nat :: PageShots(s)(j) == PageShotEnd(s, j).Some?;
    match Leftmost(PageShots(s), 0, |s| + 1)
    case Some(k) =>
      PageShotAtShape(s, k);
      SliceContained(s, k, PageShotEnd(s, k).value);
      assert PageShotAt(s, k, PageShot(s).value);
    case None =>
      forall k | 0 <= k <= |s| ensures PageShotEnd(s, k).None? {
        if k == |s| {
          assert PageShots(s)(k) == PageShotEnd(s, k).Some?;
        }
      }
  }

  /** What the caption pattern captures: `.png` at the end, no line break. */
  predicate CaptionShape(g: string)
  {
    |g| >= 1 + |Png| && EndsWithPng(g) && '\n' !in g
  }

  lemma GroupShape(s: string, p: nat)
    requires p <= |s| && GroupEnd(s, p).Some?
    ensures CaptionShape(s[p..GroupEnd(s, p).value])
  {
    var e := GroupEnd(s, p).value;
    assert s[p..e][e - p - |Png|..] == s[e - |Png|..e];
  }

  /** The second `re.search`: no group exactly when no match starts anywhere;
      otherwise the group of the leftmost match. */
  lemma CaptionShotSpec(s: string)
    ensures CaptionShot(s).None? <==> forall k :: 0 <= k <= |s| ==> CaptionStart(s, k).None?
    ensures CaptionShot(s).Some? ==> CaptionShape(CaptionShot(s).value) && Contains(s, CaptionShot(s).value)
  {
    CaptionShotNone(s);
    if CaptionShot(s).Some? {
      CaptionShotFound(s);
    }
  }

  /** No group exactly when the caption pattern matches nowhere. */
  lemma CaptionShotNone(s: string)
    ensures CaptionShot(s).None? <==> forall k :: 0 <= k <= |s| ==> CaptionStart(s, k).None?
  {
    LeftmostSpec(Captions(s), 0, |s| + 1);
    assert forall j: nat :: Captions(s)(j) == CaptionStart(s, j).Some?;
  }

  /** A group found is a one-line `.png` path taken from the output. */
  lemma CaptionShotFound(s: string)
    requires CaptionShot(s).Some?
    ensures CaptionShape(CaptionShot(s).value) && Contains(s, CaptionShot(s).value)
  {
    LeftmostSpec(Captions(s), 0, |s| + 1);
    var k := Leftmost(Captions(s), 0, |s| + 1).value;
    assert Captions(s)(k);
    var p := CaptionStart(s, k).value;
    assert CaptionShot(s).value == s[p..GroupEnd(s, p).value];
    GroupShape(s, p);
    SliceContained(s, p, GroupEnd(s, p).value);
  }

  /** Stripping a caption group keeps its `.png` end and drops only leading
      whitespace. */
  lemma StripCaption(g: string)
    requires CaptionShape(g)
    ensures var r := Strip(g);
            |r| <= |g| && r == g[|g| - |r|..] && EndsWithPng(r) && '\n' !in r && !IsSpace(r[0])
  {
    assert g[|g| - 1] == 'g';
    assert StripEnd(g) == g;
    StripStartSpec(g);
    var r := Strip(g);
    assert g[|g| - |Png|] == g[|g| - |Png|..][0] == '.';
    assert |r| >= |Png|;
    assert r[|r| - |Png|..] == g[|g| - |Png|..];
    assert forall c :: c in r ==> c in g;
  }

  lemma SuffixContained(s: string, g: string, r: string)
    requires Contains(s, g) && |r| <= |g| && r == g[|g| - |r|..]
    ensures Contains(s, r)
  {
    var k :| 0 <= k <= |s| && StartsAt(s, k, g);
    assert s[k + |g| - |r|..k + |g|] == r;
    assert StartsAt(s, k + |g| - |r|, r);
  }

  /** The caption path, stripped, ends in `.png`, starts with a non-space
      and lies within one line of the output. */
  predicate CaptionPath(output: string, r: string)
  {
    EndsWithPng(r) && '\n' !in r && !IsSpace(r[0]) && Contains(output, r)
  }

  lemma CaptionShotStripped(output: string)
    requires CaptionShot(output).Some?
    ensures CaptionPath(output, Strip(CaptionShot(output).value))
  {
    var g := CaptionShot(output).value;
    CaptionShotSpec(output);
    StripCaption(g);
    SuffixContained(output, g, Strip(g));
  }

  /** `get_screenshot_path` returns nothing exactly when neither pattern
      matches; a page screenshot path wins; otherwise the caption path is
      returned stripped. */
  lemma ScreenshotPathSpec(output: string)
    ensures ScreenshotPath(output).None? <==>
              (forall k :: 0 <= k <= |output| ==> PageShotEnd(output, k).None?)
              && (forall k :: 0 <= k <= |output| ==> CaptionStart(output, k).None?)
    ensures PageShot(output).Some? ==> ScreenshotPath(output) == PageShot(output)
                                       && PageShotShape(ScreenshotPath(output).value)
    ensures PageShot(output).None? && ScreenshotPath(output).Some? ==>
              CaptionPath(output, ScreenshotPath(output).value)
  {
    PageShotSpec(output);
    CaptionShotSpec(output);
    if PageShot(output).None? && CaptionShot(output).Some? {
      CaptionShotStripped(output);
    }
  }

  // ----- model_name_from_url: `url.split('/')[-1]`

  /** The text after the last `/`, or all of `url` when it has none. */
  function ModelNameFromUrl(url: string): (r: string)
    ensures |r| <= |url| && r == url[|url| - |r|..]
    ensures '/' !in r
    ensures |r| < |url| ==> url[|url| - |r| - 1] == '/'
  {
    if |url| == 0 then []
    else if url[|url| - 1] == '/' then []
    else
      var r := ModelNameFromUrl(url[..|url| - 1]);
      assert url[..|url| - 1][|url| - 1 - |r|..] == url[|url| - 1 - |r|..|url| - 1];
      r + [url[|url| - 1]]
  }

  /** The name after the last `/` of a URL is recovered whole. */
  lemma {:induction false} ModelNameOfJoin(base: string, name: string)
    requires '/' !in name
    ensures ModelNameFromUrl(base + "/" + name) == name
  {
    var url := base + "/" + name;
    var r := ModelNameFromUrl(url);
    assert url[|url| - |name| - 1] == '/';
    assert url[|url| - |name|..] == name;
  }

  // ----- safe_filename: `name.replace('/', '_').replace('\\', '_')`

  function ReplaceChar(s: string, a: char, b: char): (r: string)
  {
    seq(|s|, i requires 0 <= i < |s| => if s[i] == a then b else s[i])
  }

  predicate IsSeparator(c: char)
  {
    c == '/' || c == '\\'
  }

  /** `safe_filename`: every path separator becomes `_`. */
  function SafeFilename(name: string): (r: string)
    ensures |r| == |name|
    ensures forall i :: 0 <= i < |r| ==> !IsSeparator(r[i])
    ensures forall i :: 0 <= i < |r| && !IsSeparator(name[i]) ==> r[i] == name[i]
  {
    ReplaceChar(ReplaceChar(name, '/', '_'), '\\', '_')
  }

  /** A safe name is left as it is. */
  lemma SafeFilenameIdempotent(name: string)
    ensures SafeFilename(SafeFilename(name)) == SafeFilename(name)
  {
  }

  /** Separators become `_` and nothing else changes. */
  lemma SafeFilenameSeparators(name: string)
    ensures forall i :: 0 <= i < |name| && IsSeparator(name[i]) ==> SafeFilename(name)[i] == '_'
  {
  }
}
