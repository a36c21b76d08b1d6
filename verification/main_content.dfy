/** `extractMainContent` (content-extractor.ts): the captured text of the first content pattern
    that captures something, else the page with six kinds of non-content blocks cut out. */
module MainContent {
  import opened Wrappers
  import opened Seqs
  import opened HtmlPatterns

  /** `contentPatterns`, in the order they are tried. */
  const ContentPatterns: seq<Pattern> := [
    Element("article"),
    DivWithClass(["post-content", "entry-content", "article-content"]),
    DivWithClass(["blog-post", "main-content"])
  ]

  /** The tags whose blocks the fallback removes, in the order of the `replace` calls. */
  const NonContentTags: seq<string> := ["header", "footer", "nav", "script", "style", "aside"]

  /** Where the block of `tag` that starts at `k` ends, if one starts there. */
  function BlockEndAt(s: string, tag: string, k: nat): (r: Option<nat>)
    ensures r.Some? ==> k < r.value <= |s|
  {
    match ElementAt(s, k, tag)
    case Some(sp) => Some(sp.end)
    case None => None
  }

  /** A matcher for a global `replace`: at each position, the end of the match that starts there.
      Matches are never empty and never run past the text. */
  predicate Advancing(s: string, ends: nat -> Option<nat>)
  {
    forall k :: 0 <= k <= |s| && ends(k).Some? ==> k < ends(k).value <= |s|
  }

  /** No match starts anywhere in `[lo, hi)`. */
  predicate NoneBetween(ends: nat -> Option<nat>, lo: nat, hi: nat)
  {
    forall k :: lo <= k < hi ==> ends(k).None?
  }

  /** No match starts anywhere in `[i, n]`. */
  predicate NoneFrom(ends: nat -> Option<nat>, i: nat, n: nat)
  {
    NoneBetween(ends, i, n + 1)
  }

  lemma ConsSubsequence<T>(x: T, a: seq<T>, b: seq<T>)
    requires IsSubsequence(a, b)
    ensures IsSubsequence([x] + a, [x] + b)
  {
    assert ([x] + a)[1..] == a;
    assert ([x] + b)[1..] == b;
  }

  /** `s.replace(re, '')` with the g flag, from position `i` on: each match found is cut out and the
      search resumes where it ended. */
  function RemoveMatchesFrom(s: string, ends: nat -> Option<nat>, i: nat): (r: string)
    requires i <= |s| && Advancing(s, ends)
    decreases |s| - i
    ensures IsSubsequence(r, s[i..]) && |r| <= |s| - i
    ensures |r| == |s| - i <==> NoneFrom(ends, i, |s|)
    ensures NoneFrom(ends, i, |s|) ==> r == s[i..]
  {
    match ends(i)
    case Some(end) =>
      var rest := RemoveMatchesFrom(s, ends, end);
      assert s[i..][end - i..] == s[end..];
      SubsequenceOfSuffix(rest, s[i..], end - i);
      rest
    case None =>
      if i == |s| then
        ""
      else
        var rest := RemoveMatchesFrom(s, ends, i + 1);
        assert s[i..] == [s[i]] + s[i + 1..];
        ConsSubsequence(s[i], rest, s[i + 1..]);
        [s[i]] + rest
  }

  /** `starts` lists, in order, the matches a left-to-right scan from `i` meets: each one starts at
      or after the end of the one before, ends inside the text, no match starts in the gap before
      it, and none starts after the last one. */
  predicate IsScanOf(s: string, ends: nat -> Option<nat>, i: nat, starts: seq<nat>)
    decreases |starts|
  {
    if |starts| == 0 then
      NoneFrom(ends, i, |s|)
    else
      && i <= starts[0]
      && NoneBetween(ends, i, starts[0])
      && ends(starts[0]).Some?
      && starts[0] < ends(starts[0]).value <= |s|
      && IsScanOf(s, ends, ends(starts[0]).value, starts[1..])
  }

  /** `s[i..]` with the text of every match in `starts` cut out and the gaps kept in order. */
  function KeepGaps(s: string, ends: nat -> Option<nat>, i: nat, starts: seq<nat>): string
    requires i <= |s| && IsScanOf(s, ends, i, starts)
    decreases |starts|
  {
    if |starts| == 0 then s[i..]
    else s[i..starts[0]] + KeepGaps(s, ends, ends(starts[0]).value, starts[1..])
  }

  /** A scan from `i + 1` is one from `i` when no match starts at `i`. */
  lemma ScanFromEarlier(s: string, ends: nat -> Option<nat>, i: nat, starts: seq<nat>)
    requires ends(i).None? && IsScanOf(s, ends, i + 1, starts)
    ensures IsScanOf(s, ends, i, starts)
  {
  }

  /** A scan from `i` is one from `i + 1` when no match starts at `i` and the text goes on. */
  lemma ScanFromLater(s: string, ends: nat -> Option<nat>, i: nat, starts: seq<nat>)
    requires ends(i).None? && IsScanOf(s, ends, i, starts)
    ensures IsScanOf(s, ends, i + 1, starts)
  {
  }

  /** There is only one scan from `i`: each match in it is the first one at or after the end of
      the previous. */
  lemma {:induction false} ScanUnique(s: string, ends: nat -> Option<nat>, i: nat, a: seq<nat>, b: seq<nat>)
    requires IsScanOf(s, ends, i, a) && IsScanOf(s, ends, i, b)
    decreases |a|
    ensures a == b
  {
    if |a| > 0 && |b| > 0 {
      assert a[0] == b[0];
      ScanUnique(s, ends, ends(a[0]).value, a[1..], b[1..]);
      assert a == [a[0]] + a[1..] && b == [b[0]] + b[1..];
    }
  }

  /** The matches the global `replace` finds from `i` on. */
  function MatchStarts(s: string, ends: nat -> Option<nat>, i: nat): (starts: seq<nat>)
    requires i <= |s| && Advancing(s, ends)
    decreases |s| - i
    ensures IsScanOf(s, ends, i, starts)
  {
    match ends(i)
    case Some(end) =>
      var rest := MatchStarts(s, ends, end);
      assert ([i] + rest)[1..] == rest;
      [i] + rest
    case None =>
      if i == |s| then
        []
      else
        var rest := MatchStarts(s, ends, i + 1);
        ScanFromEarlier(s, ends, i, rest);
        rest
  }

  /** A match at `i`: both sides drop it and carry on from where it ends. */
  lemma CutStep(s: string, ends: nat -> Option<nat>, i: nat, starts: seq<nat>)
    requires i <= |s| && Advancing(s, ends) && IsScanOf(s, ends, i, starts) && ends(i).Some?
    ensures |starts| > 0 && starts[0] == i && IsScanOf(s, ends, ends(i).value, starts[1..])
    ensures RemoveMatchesFrom(s, ends, i) == RemoveMatchesFrom(s, ends, ends(i).value)
    ensures KeepGaps(s, ends, i, starts) == KeepGaps(s, ends, ends(i).value, starts[1..])
  {
    assert s[i..i] == "";
  }

  /** No match at `i`: the scan keeps `s[i]` and carries on from `i + 1`. */
  lemma KeepStep(s: string, ends: nat -> Option<nat>, i: nat, starts: seq<nat>)
    requires i <= |s| && IsScanOf(s, ends, i, starts) && ends(i).None?
    requires |starts| > 0
    ensures i < |s| && IsScanOf(s, ends, i + 1, starts)
    ensures KeepGaps(s, ends, i, starts) == [s[i]] + KeepGaps(s, ends, i + 1, starts)
  {
    ScanFromLater(s, ends, i, starts);
    var k, e := starts[0], ends(starts[0]).value;
    var rest := KeepGaps(s, ends, e, starts[1..]);
    assert s[i..k] == [s[i]] + s[i + 1..k];
    assert KeepGaps(s, ends, i, starts) == s[i..k] + rest;
    assert KeepGaps(s, ends, i + 1, starts) == s[i + 1..k] + rest;
  }

  /** No match at `i` and the text goes on: the global `replace` keeps `s[i]`. */
  lemma RemoveKeepStep(s: string, ends: nat -> Option<nat>, i: nat)
    requires i < |s| && Advancing(s, ends) && ends(i).None?
    ensures RemoveMatchesFrom(s, ends, i) == [s[i]] + RemoveMatchesFrom(s, ends, i + 1)
  {
  }

  /** The global `replace` cuts out exactly the matches of the scan and keeps every other
      character, in order. */
  lemma {:induction false} RemoveMatchesKeepsGaps(s: string, ends: nat -> Option<nat>, i: nat, starts: seq<nat>)
    requires i <= |s| && Advancing(s, ends) && IsScanOf(s, ends, i, starts)
    decreases |s| - i
    ensures RemoveMatchesFrom(s, ends, i) == KeepGaps(s, ends, i, starts)
  {
    if |starts| == 0 {
    } else if ends(i).Some? {
      CutStep(s, ends, i, starts);
      RemoveMatchesKeepsGaps(s, ends, ends(i).value, starts[1..]);
    } else {
      KeepStep(s, ends, i, starts);
      RemoveKeepStep(s, ends, i);
      RemoveMatchesKeepsGaps(s, ends, i + 1, starts);
    }
  }

  /** The block matcher of `tag`: where the block that starts at each position ends. */
  function BlockEnds(s: string, tag: string): nat -> Option<nat>
  {
    (k: nat) => BlockEndAt(s, tag, k)
  }

  /** The block matcher of `tag` never produces an empty match or one past the text. */
  lemma BlocksAdvance(s: string, tag: string)
    ensures Advancing(s, BlockEnds(s, tag))
  {
    var ends := BlockEnds(s, tag);
    forall k | 0 <= k <= |s| && ends(k).Some? ensures k < ends(k).value <= |s| {
      assert ends(k) == BlockEndAt(s, tag, k);
    }
  }

  /** No block `<tag ...>...</tag>` starts anywhere in `s`. */
  predicate NoBlock(s: string, tag: string)
  {
    NoneFrom(BlockEnds(s, tag), 0, |s|)
  }

  /** `s.replace(/<tag[^>]*>[\s\S]*?<\/tag>/gi, '')`. */
  function RemoveBlocks(s: string, tag: string): (r: string)
    ensures IsSubsequence(r, s) && |r| <= |s|
    ensures r == s <==> NoBlock(s, tag)
  {
    assert s[0..] == s;
    BlocksAdvance(s, tag);
    RemoveMatchesFrom(s, BlockEnds(s, tag), 0)
  }

  /** Where the blocks of `tag` that the global `replace` removes start. */
  function BlockStarts(s: string, tag: string): seq<nat>
  {
    BlocksAdvance(s, tag);
    MatchStarts(s, BlockEnds(s, tag), 0)
  }

  /** Removing the blocks of `tag` cuts out exactly the blocks a left-to-right scan meets, each
      from its `<tag` to the first closing tag after the opening tag's `>`, and keeps every other
      character in order; no block starts in any of the kept gaps. */
  lemma RemoveBlocksCutsScannedBlocks(s: string, tag: string)
    ensures IsScanOf(s, BlockEnds(s, tag), 0, BlockStarts(s, tag))
    ensures RemoveBlocks(s, tag) == KeepGaps(s, BlockEnds(s, tag), 0, BlockStarts(s, tag))
  {
    BlocksAdvance(s, tag);
    RemoveMatchesKeepsGaps(s, BlockEnds(s, tag), 0, BlockStarts(s, tag));
  }

  /** The chain of `replace` calls, one tag after the other. */
  function StripTags(s: string, tags: seq<string>): (r: string)
    decreases |tags|
    ensures IsSubsequence(r, s) && |r| <= |s|
    ensures r == s <==> forall j :: 0 <= j < |tags| ==> NoBlock(s, tags[j])
  {
    if |tags| == 0 then
      SubsequenceReflexive(s);
      s
    else
      var first := RemoveBlocks(s, tags[0]);
      var r := StripTags(first, tags[1..]);
      SubsequenceTransitive(r, first, s);
      StripStep(s, tags, first, r);
      r
  }

  /** One `replace` of the chain: the whole chain leaves the text unchanged exactly when every
      step does. */
  lemma StripStep(s: string, tags: seq<string>, first: string, r: string)
    requires |tags| > 0 && first == RemoveBlocks(s, tags[0])
    requires |r| <= |first|
    requires r == first <==> forall j :: 0 <= j < |tags| - 1 ==> NoBlock(first, tags[1..][j])
    ensures r == s <==> forall j :: 0 <= j < |tags| ==> NoBlock(s, tags[j])
  {
    if first == s {
      forall j | 1 <= j < |tags| ensures tags[1..][j - 1] == tags[j] { }
    } else {
      SubsequenceLength(first, s);
      if |first| == |s| {
        SubsequenceSameLength(first, s);
      }
    }
  }

  /** The texts along the chain: the input, then the result of each `replace` call in turn. */
  function Stages(s: string, tags: seq<string>): (r: seq<string>)
    decreases |tags|
    ensures |r| == |tags| + 1 && r[0] == s
    ensures forall j :: 0 <= j < |tags| ==> r[j + 1] == RemoveBlocks(r[j], tags[j])
  {
    if |tags| == 0 then [s]
    else
      var rest := Stages(RemoveBlocks(s, tags[0]), tags[1..]);
      assert forall j :: 1 <= j < |tags| ==> tags[1..][j - 1] == tags[j];
      [s] + rest
  }

  /** `next` is `prev` with exactly the blocks of `tag` that a left-to-right scan meets cut out. */
  predicate CutsScannedBlocks(prev: string, tag: string, next: string)
  {
    && IsScanOf(prev, BlockEnds(prev, tag), 0, BlockStarts(prev, tag))
    && next == KeepGaps(prev, BlockEnds(prev, tag), 0, BlockStarts(prev, tag))
  }

  /** The chain of removals ends in the last stage. */
  lemma {:induction false} StripTagsIsLastStage(s: string, tags: seq<string>)
    decreases |tags|
    ensures StripTags(s, tags) == Stages(s, tags)[|tags|]
  {
    if |tags| > 0 {
      var first := RemoveBlocks(s, tags[0]);
      StripTagsIsLastStage(first, tags[1..]);
      assert StripTags(s, tags) == StripTags(first, tags[1..]);
      assert Stages(s, tags) == [s] + Stages(first, tags[1..]);
    }
  }

  /** The chain ends in its last stage, and each stage is the one before with exactly the blocks of
      its tag that a left-to-right scan meets cut out. */
  lemma StripTagsStageByStage(s: string, tags: seq<string>)
    ensures StripTags(s, tags) == Stages(s, tags)[|tags|]
    ensures forall j :: 0 <= j < |tags| ==> CutsScannedBlocks(Stages(s, tags)[j], tags[j], Stages(s, tags)[j + 1])
  {
    StripTagsIsLastStage(s, tags);
    var st := Stages(s, tags);
    forall j | 0 <= j < |tags| ensures CutsScannedBlocks(st[j], tags[j], st[j + 1]) {
      RemoveBlocksCutsScannedBlocks(st[j], tags[j]);
    }
  }

  /** The fallback: the page without its header, footer, nav, script, style and aside blocks. */
  function StripNonContent(html: string): (r: string)
    ensures IsSubsequence(r, html) && |r| <= |html|
    ensures r == html <==> forall j :: 0 <= j < |NonContentTags| ==> NoBlock(html, NonContentTags[j])
  {
    StripTags(html, NonContentTags)
  }

  /** `match && match[1]`: the pattern matches and its group captured some text. */
  predicate Captures(html: string, p: Pattern)
  {
    Capture(html, p).Some? && Capture(html, p).value != ""
  }

  /** None of the patterns before position `j` captures any text. */
  predicate NoCaptureBefore(html: string, ps: seq<Pattern>, j: nat)
  {
    forall k :: 0 <= k < j && k < |ps| ==> !Captures(html, ps[k])
  }

  /** Pattern `j` is the first of `ps` that captures some text. */
  predicate WinsAt(html: string, ps: seq<Pattern>, j: nat)
  {
    j < |ps| && Captures(html, ps[j]) && NoCaptureBefore(html, ps, j)
  }

  /** The loop over the patterns: the first non-empty capture. */
  function FirstCapture(html: string, ps: seq<Pattern>): (r: Option<string>)
    ensures r.Some? ==> r.value != "" && IsSubsequence(r.value, html)
    ensures forall j: nat :: WinsAt(html, ps, j) ==> r == Capture(html, ps[j])
    ensures r.None? <==> NoCaptureBefore(html, ps, |ps|)
  {
    if |ps| == 0 then None
    else if Captures(html, ps[0]) then
      var sp := FirstMatch(html, ps[0]).value;
      SliceIsSubsequence(html, sp.innerStart, sp.innerEnd);
      Capture(html, ps[0])
    else
      var r := FirstCapture(html, ps[1..]);
      assert forall j :: 1 <= j < |ps| ==> ps[1..][j - 1] == ps[j];
      r
  }

  function ExtractMainContent(html: string): (r: string)
    ensures IsSubsequence(r, html) && |r| <= |html|
    ensures forall j: nat :: WinsAt(html, ContentPatterns, j) ==> r == Capture(html, ContentPatterns[j]).value
    ensures NoCaptureBefore(html, ContentPatterns, |ContentPatterns|) ==> r == StripNonContent(html)
  {
    match FirstCapture(html, ContentPatterns)
    case Some(content) =>
      SubsequenceLength(content, html);
      content
    case None => StripNonContent(html)
  }

  /** A page with no content wrapper and none of the six kinds of blocks comes back unchanged;
      any block of one of those kinds makes the result strictly shorter. */
  lemma FallbackUnchangedIff(html: string)
    requires NoCaptureBefore(html, ContentPatterns, |ContentPatterns|)
    ensures ExtractMainContent(html) == html <==>
      forall j :: 0 <= j < |NonContentTags| ==> NoBlock(html, NonContentTags[j])
    ensures ExtractMainContent(html) != html ==> |ExtractMainContent(html)| < |html|
  {
    var r := ExtractMainContent(html);
    if r != html {
      SubsequenceLength(r, html);
      if |r| == |html| {
        SubsequenceSameLength(r, html);
      }
    }
  }
}
