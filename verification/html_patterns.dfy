/** The three content patterns and the tag-block pattern of `extractMainContent`
    (content-extractor.ts), matched by hand. All of them ignore ASCII case. A lazy `[\s\S]*?` before
    a closing tag stops at its first occurrence, and `[^>]*>` ends at the first `>`. */
module HtmlPatterns {
  import opened Wrappers
  import opened Strings

  /** One match: it starts at `start`, the captured group is `[innerStart, innerEnd)`, and the
      match ends just before `end`. */
  datatype Span = Span(start: nat, innerStart: nat, innerEnd: nat, end: nat)

  predicate WellPlaced(s: string, sp: Span)
  {
    sp.start < sp.innerStart <= sp.innerEnd < sp.end <= |s|
  }

  function OpenTag(tag: string): string { "<" + tag }

  function CloseTag(tag: string): string { "</" + tag + ">" }

  /** `<tag[^>]*>([\s\S]*?)<\/tag>` tried at position `i`. */
  function ElementAt(s: string, i: nat, tag: string): (r: Option<Span>)
    ensures r.Some? ==> r.value.start == i && WellPlaced(s, r.value)
    ensures r.Some? ==> OccursAt(s, i, OpenTag(tag)) && s[r.value.innerStart - 1] == '>'
    ensures r.Some? ==> forall k :: i + |OpenTag(tag)| <= k < r.value.innerStart - 1 ==> s[k] != '>'
    ensures r.Some? ==> OccursAt(s, r.value.innerEnd, CloseTag(tag))
    ensures r.Some? ==> r.value.end == r.value.innerEnd + |CloseTag(tag)|
    ensures r.Some? ==> forall k :: r.value.innerStart <= k < r.value.innerEnd ==> !OccursAt(s, k, CloseTag(tag))
  {
    FindChar(s, '>', i + |OpenTag(tag)|);
    if !OccursAt(s, i, OpenTag(tag)) then None
    else match Find(s, ">", i + |OpenTag(tag)|)
      case None => None
      case Some(g) =>
        match Find(s, CloseTag(tag), g + 1)
        case None => None
        case Some(e) => Some(Span(i, g + 1, e, e + |CloseTag(tag)|))
  }

  /** The element pattern matches at `i` exactly when `<tag` opens there and some `>` after the
      tag name is followed later by the closing tag. */
  lemma ElementAtComplete(s: string, i: nat, tag: string)
    ensures ElementAt(s, i, tag).Some? <==> OccursAt(s, i, OpenTag(tag)) && exists g, e :: i + |OpenTag(tag)| <= g < e && g < |s| && s[g] == '>' && OccursAt(s, e, CloseTag(tag))
  {
    var r := ElementAt(s, i, tag);
    if r.Some? {
      var g, e := r.value.innerStart - 1, r.value.innerEnd;
      assert i + |OpenTag(tag)| <= g < e && g < |s| && s[g] == '>' && OccursAt(s, e, CloseTag(tag));
    } else if OccursAt(s, i, OpenTag(tag)) {
      FindChar(s, '>', i + |OpenTag(tag)|);
      var first := Find(s, ">", i + |OpenTag(tag)|);
      forall g, e | i + |OpenTag(tag)| <= g < e && g < |s| && s[g] == '>'
        ensures !OccursAt(s, e, CloseTag(tag))
      {
        assert first.Some? && first.value <= g;
      }
    }
  }

  /** Some keyword occurs inside `[lo, hi)`. */
  predicate KeywordWithin(s: string, keywords: seq<string>, lo: nat, hi: nat)
  {
    exists k: nat, j :: lo <= k && 0 <= j < |keywords| && k + |keywords[j]| <= hi && OccursAt(s, k, keywords[j])
  }

  const ClassOpen: string := "class=\""

  const DivClose: string := "</div>"

  /** Where the class value that starts after `class="` at `c` ends: the first `"` after it. */
  function ClassValueEnd(s: string, c: nat): (r: Option<nat>)
    ensures r.Some? ==> c + |ClassOpen| <= r.value < |s| && s[r.value] == '"'
    ensures r.Some? ==> forall k :: c + |ClassOpen| <= k < r.value ==> s[k] != '"'
    ensures r.None? ==> forall k :: c + |ClassOpen| <= k < |s| ==> s[k] != '"'
  {
    FindChar(s, '"', c + |ClassOpen|);
    Find(s, "\"", c + |ClassOpen|)
  }

  /** The part of a div pattern after `<div[^>]*?`, tried at position `c`:
      `class="[^"]*?(?:kw|...)[^"]*?"[^>]*>([\s\S]*?)<\/div>`. Whatever keyword matches, the class
      value ends at the first `"` after `class="`, so a keyword must lie before that quote; the
      opening tag then ends at the first `>` after the quote. The span returned starts at `c`. */
  function ClassAttributeAt(s: string, c: nat, keywords: seq<string>): (r: Option<Span>)
    ensures r.Some? ==> r.value.start == c && WellPlaced(s, r.value)
    ensures r.Some? ==> OccursAt(s, c, ClassOpen) && s[r.value.innerStart - 1] == '>'
    ensures r.Some? ==> ClassValueEnd(s, c).Some? && KeywordWithin(s, keywords, c + |ClassOpen|, ClassValueEnd(s, c).value)
    ensures r.Some? ==> ClassValueEnd(s, c).value < r.value.innerStart - 1 && NoGtBetween(s, ClassValueEnd(s, c).value + 1, r.value.innerStart - 1)
    ensures r.Some? ==> OccursAt(s, r.value.innerEnd, DivClose) && r.value.end == r.value.innerEnd + |DivClose|
    ensures r.Some? ==> forall k :: r.value.innerStart <= k < r.value.innerEnd ==> !OccursAt(s, k, DivClose)
  {
    if !OccursAt(s, c, ClassOpen) then None
    else match ClassValueEnd(s, c)
      case None => None
      case Some(q) =>
        if !KeywordWithin(s, keywords, c + |ClassOpen|, q) then None
        else
          FindChar(s, '>', q + 1);
          match Find(s, ">", q + 1)
          case None => None
          case Some(g) =>
            match Find(s, DivClose, g + 1)
            case None => None
            case Some(e) => Some(Span(c, g + 1, e, e + |DivClose|))
  }

  /** The class attribute matches at `c` exactly when `class="` is there, its value holds a keyword
      before the closing quote, and some `>` after that quote is followed by `</div>`. */
  lemma ClassAttributeAtComplete(s: string, c: nat, keywords: seq<string>)
    ensures ClassAttributeAt(s, c, keywords).Some? <==>
      && OccursAt(s, c, ClassOpen)
      && ClassValueEnd(s, c).Some?
      && KeywordWithin(s, keywords, c + |ClassOpen|, ClassValueEnd(s, c).value)
      && exists g, e :: ClassValueEnd(s, c).value < g < e && g < |s| && s[g] == '>' && OccursAt(s, e, DivClose)
  {
    var r := ClassAttributeAt(s, c, keywords);
    var q := ClassValueEnd(s, c);
    if r.Some? {
      var g, e := r.value.innerStart - 1, r.value.innerEnd;
      assert q.value < g < e && g < |s| && s[g] == '>' && OccursAt(s, e, DivClose);
    } else if OccursAt(s, c, ClassOpen) && q.Some? && KeywordWithin(s, keywords, c + |ClassOpen|, q.value) {
      FindChar(s, '>', q.value + 1);
      var first := Find(s, ">", q.value + 1);
      forall g, e | q.value < g < e && g < |s| && s[g] == '>'
        ensures !OccursAt(s, e, DivClose)
      {
        assert first.Some? && first.value <= g;
      }
    }
  }

  /** No `>` in `s[c..d]`: the lazy `[^>]*?` can stretch from `c` to `d`. */
  predicate NoGtBetween(s: string, c: nat, d: nat)
  {
    forall k :: c <= k < d && k < |s| ==> s[k] != '>'
  }

  /** The lazy `[^>]*?` in front of an attribute test `at`: the test is tried at `c`, `c + 1`, ...
      up to and including the first `>`; the first position where it succeeds is returned. */
  function LazyScan<T>(s: string, c: nat, at: nat -> Option<T>): (r: Option<nat>)
    requires c <= |s|
    decreases |s| - c
    ensures r.Some? ==> c <= r.value <= |s| && NoGtBetween(s, c, r.value) && at(r.value).Some?
    ensures r.Some? ==> forall d :: c <= d < r.value ==> at(d).None?
    ensures r.None? <==> forall d :: c <= d <= |s| && NoGtBetween(s, c, d) ==> at(d).None?
  {
    if at(c).Some? then Some(c)
    else if c < |s| && s[c] != '>' then LazyScan(s, c + 1, at)
    else None
  }

  /** The class attribute test the lazy scan of a div pattern tries at each position. */
  function ClassTest(s: string, keywords: seq<string>): nat -> Option<Span>
  {
    (d: nat) => ClassAttributeAt(s, d, keywords)
  }

  /** What the lazy scan for the class attribute found, in terms of the attribute itself. */
  lemma ClassScanFinds(s: string, c: nat, keywords: seq<string>, d: nat)
    requires c <= |s| && LazyScan(s, c, ClassTest(s, keywords)) == Some(d)
    ensures c <= d <= |s| && NoGtBetween(s, c, d) && ClassAttributeAt(s, d, keywords).Some?
    ensures forall d' :: c <= d' < d ==> ClassAttributeAt(s, d', keywords).None?
  {
    var at := ClassTest(s, keywords);
    assert at(d) == ClassAttributeAt(s, d, keywords);
    forall d' | c <= d' < d ensures ClassAttributeAt(s, d', keywords).None? {
      assert at(d') == ClassAttributeAt(s, d', keywords);
    }
  }

  /** The lazy scan for the class attribute fails only when the attribute matches nowhere in reach. */
  lemma ClassScanFails(s: string, c: nat, keywords: seq<string>)
    requires c <= |s| && LazyScan(s, c, ClassTest(s, keywords)).None?
    ensures forall d :: c <= d <= |s| && NoGtBetween(s, c, d) ==> ClassAttributeAt(s, d, keywords).None?
  {
    var at := ClassTest(s, keywords);
    forall d | c <= d <= |s| && NoGtBetween(s, c, d) ensures ClassAttributeAt(s, d, keywords).None? {
      assert at(d) == ClassAttributeAt(s, d, keywords);
    }
  }

  /** `<div[^>]*?class="[^"]*?(?:kw|...)[^"]*?"[^>]*>([\s\S]*?)<\/div>` tried at position `i`. */
  function DivWithClassAt(s: string, i: nat, keywords: seq<string>): (r: Option<Span>)
    ensures r.Some? ==> r.value.start == i && WellPlaced(s, r.value) && OccursAt(s, i, "<div")
    ensures r.Some? ==> s[r.value.innerStart - 1] == '>' && OccursAt(s, r.value.innerEnd, DivClose)
    ensures r.Some? ==> forall k :: r.value.innerStart <= k < r.value.innerEnd ==> !OccursAt(s, k, DivClose)
    ensures r.Some? ==> exists d ::
      && i + 4 <= d <= |s| && NoGtBetween(s, i + 4, d)
      && (forall d' :: i + 4 <= d' < d ==> ClassAttributeAt(s, d', keywords).None?)
      && ClassAttributeAt(s, d, keywords) == Some(Span(d, r.value.innerStart, r.value.innerEnd, r.value.end))
    ensures r.None? ==> !OccursAt(s, i, "<div") || forall d :: i + 4 <= d <= |s| && NoGtBetween(s, i + 4, d) ==> ClassAttributeAt(s, d, keywords).None?
  {
    if !OccursAt(s, i, "<div") then None
    else match LazyScan(s, i + 4, ClassTest(s, keywords))
      case None =>
        ClassScanFails(s, i + 4, keywords);
        None
      case Some(d) =>
        ClassScanFinds(s, i + 4, keywords, d);
        var sp := ClassAttributeAt(s, d, keywords).value;
        Some(Span(i, sp.innerStart, sp.innerEnd, sp.end))
  }

  /** A content pattern: an element with a given tag, or a div whose class names a keyword. */
  datatype Pattern = Element(tag: string) | DivWithClass(keywords: seq<string>)

  function MatchAt(s: string, p: Pattern, i: nat): (r: Option<Span>)
    ensures r.Some? ==> r.value.start == i && WellPlaced(s, r.value)
  {
    match p
    case Element(tag) => ElementAt(s, i, tag)
    case DivWithClass(keywords) => DivWithClassAt(s, i, keywords)
  }

  /** The leftmost position in `[i, n]` where `m` succeeds. */
  function Leftmost<T>(m: nat -> Option<T>, n: nat, i: nat): (r: Option<nat>)
    requires i <= n
    decreases n - i
    ensures r.Some? ==> i <= r.value <= n && m(r.value).Some?
    ensures r.Some? ==> forall k :: i <= k < r.value ==> m(k).None?
    ensures r.None? <==> forall k :: i <= k <= n ==> m(k).None?
  {
    if m(i).Some? then Some(i)
    else if i == n then None
    else Leftmost(m, n, i + 1)
  }

  /** The matcher of `p` the search tries at each position. */
  function MatchTest(s: string, p: Pattern): nat -> Option<Span>
  {
    (k: nat) => MatchAt(s, p, k)
  }

  /** `String.prototype.match` without the g flag: the leftmost match of `p` in `s`. */
  function FirstMatch(s: string, p: Pattern): (r: Option<Span>)
    ensures r.Some? ==> MatchAt(s, p, r.value.start) == r
    ensures r.Some? ==> forall k :: 0 <= k < r.value.start ==> MatchAt(s, p, k).None?
    ensures r.None? <==> forall k :: 0 <= k <= |s| ==> MatchAt(s, p, k).None?
  {
    LeftmostMatch(s, p);
    match Leftmost(MatchTest(s, p), |s|, 0)
    case Some(k) => MatchAt(s, p, k)
    case None => None
  }

  /** The search's answer, restated for the matcher of `p`. */
  lemma LeftmostMatch(s: string, p: Pattern)
    ensures var r := Leftmost(MatchTest(s, p), |s|, 0);
      && (r.Some? ==> r.value <= |s| && MatchAt(s, p, r.value).Some?)
      && (r.Some? ==> forall k :: 0 <= k < r.value ==> MatchAt(s, p, k).None?)
      && (r.None? ==> forall k :: 0 <= k <= |s| ==> MatchAt(s, p, k).None?)
  {
    var m := MatchTest(s, p);
    var r := Leftmost(m, |s|, 0);
    forall k | 0 <= k <= |s| ensures m(k) == MatchAt(s, p, k) {
    }
  }

  /** `match[1]` of `s.match(p)`: the captured group of the leftmost match, if any. */
  function Capture(s: string, p: Pattern): (r: Option<string>)
    ensures r.Some? ==> FirstMatch(s, p).Some?
    ensures r.Some? ==> r.value == s[FirstMatch(s, p).value.innerStart..FirstMatch(s, p).value.innerEnd]
    ensures r.None? <==> forall k :: 0 <= k <= |s| ==> MatchAt(s, p, k).None?
  {
    match FirstMatch(s, p)
    case Some(sp) => Some(s[sp.innerStart..sp.innerEnd])
    case None => None
  }

  /** An element that matches at a later opening would match at an earlier one too: the earlier
      opening's first `>` comes no later than the later one's. */
  lemma ElementAtEarlier(s: string, tag: string, i: nat, k: nat)
    requires i <= k && OccursAt(s, i, OpenTag(tag))
    ensures ElementAt(s, k, tag).Some? ==> ElementAt(s, i, tag).Some?
  {
    ElementAtComplete(s, i, tag);
    if ElementAt(s, k, tag).Some? {
      var sp := ElementAt(s, k, tag).value;
      var g, e := sp.innerStart - 1, sp.innerEnd;
      assert i + |OpenTag(tag)| <= g < e && g < |s| && s[g] == '>' && OccursAt(s, e, CloseTag(tag));
    }
  }

  /** The element pattern is decided at the first `<tag` in the text: when that opening is
      followed by `>` and a closing tag, the capture is the text between them, and when it is not,
      no later opening matches either and there is no capture. */
  lemma ElementCaptureAtFirstOpening(s: string, tag: string, i: nat)
    requires Find(s, OpenTag(tag), 0) == Some(i)
    ensures Capture(s, Element(tag)) ==
      match ElementAt(s, i, tag)
      case Some(sp) => Some(s[sp.innerStart..sp.innerEnd])
      case None => None
  {
    var p := Element(tag);
    forall k | 0 <= k < i ensures MatchAt(s, p, k).None? {
      assert !OccursAt(s, k, OpenTag(tag));
    }
    if ElementAt(s, i, tag).Some? {
      var r := FirstMatch(s, p);
      assert MatchAt(s, p, i).Some?;
      var start := r.value.start;
      assert start <= i;
      assert MatchAt(s, p, start).Some?;
      assert start == i;
    } else {
      forall k | i <= k <= |s| ensures MatchAt(s, p, k).None? {
        ElementAtEarlier(s, tag, i, k);
      }
    }
  }

  /** A capture never contains the closing tag that ends it. */
  lemma ElementCaptureHasNoClosingTag(s: string, tag: string)
    requires Capture(s, Element(tag)).Some?
    ensures var c := Capture(s, Element(tag)).value;
      forall k :: 0 <= k < |c| ==> !OccursAt(c, k, CloseTag(tag))
  {
    var sp := FirstMatch(s, Element(tag)).value;
    assert ElementAt(s, sp.start, tag) == Some(sp) by {
      assert MatchAt(s, Element(tag), sp.start) == ElementAt(s, sp.start, tag);
    }
    var c := s[sp.innerStart..sp.innerEnd];
    forall k | 0 <= k < |c| ensures !OccursAt(c, k, CloseTag(tag)) {
      if OccursAt(c, k, CloseTag(tag)) {
        OccursInSlice(s, sp.innerStart, sp.innerEnd, k, CloseTag(tag));
      }
    }
  }

  /** An occurrence inside a slice is an occurrence in the whole text. */
  lemma OccursInSlice(s: string, a: nat, b: nat, k: nat, p: string)
    requires a <= b <= |s| && OccursAt(s[a..b], k, p)
    ensures OccursAt(s, a + k, p)
  {
    forall m | 0 <= m < |p| ensures LowerAscii(s[a + k + m]) == LowerAscii(p[m]) {
      assert s[a..b][k + m] == s[a + k + m];
    }
  }
}
