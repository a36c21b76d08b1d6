/** The clean-up at the end of `extractContent`:
    `content.replace(/\s+/g, ' ').replace(/\n+/g, ' ').trim()`,
    and its reference meaning: the words of the content joined by single spaces. */
module Whitespace {
  import opened Strings

  /** The character class repeated in a `replace(/c+/g, ' ')` pass: `\s` or `\n`. */
  datatype RunClass = AnySpace | LineFeed

  predicate InClass(c: char, k: RunClass)
  {
    match k
    case AnySpace => IsSpace(c)
    case LineFeed => c == '\n'
  }

  /** Length of the run of class `k` at the start of `s`. */
  function RunLength(s: string, k: RunClass): (n: nat)
    ensures n <= |s|
    ensures forall i :: 0 <= i < n ==> InClass(s[i], k)
    ensures n == |s| || !InClass(s[n], k)
  {
    if |s| > 0 && InClass(s[0], k) then 1 + RunLength(s[1..], k) else 0
  }

  /** `s.replace(/\s+/g, ' ')` for `AnySpace`, `s.replace(/\n+/g, ' ')` for `LineFeed`: scanning left to
      right, every maximal run of class `k` is replaced by one space. The result holds no class character
      other than a space, never two class characters in a row, and starts like `s` does. */
  function ReplaceRuns(s: string, k: RunClass): (r: string)
    ensures forall i :: 0 <= i < |r| && InClass(r[i], k) ==> r[i] == ' '
    ensures forall i :: 0 <= i < |r| - 1 ==> !InClass(r[i], k) || !InClass(r[i + 1], k)
    ensures |r| == 0 <==> |s| == 0
    ensures |s| > 0 && InClass(s[0], k) ==> r[0] == ' '
    ensures |s| > 0 && !InClass(s[0], k) ==> r[0] == s[0]
    decreases |s|
  {
    if |s| == 0 then ""
    else if InClass(s[0], k) then " " + ReplaceRuns(s[RunLength(s, k)..], k)
    else [s[0]] + ReplaceRuns(s[1..], k)
  }

  /** Reference meaning of the pass, one character at a time: a character outside class `k` is
      kept; a class character becomes a space when it starts a run (`inRun` is false: the text
      starts there or the character before is outside the class) and disappears otherwise. */
  function CollapseFrom(s: string, k: RunClass, inRun: bool): string
    decreases |s|
  {
    if |s| == 0 then ""
    else if !InClass(s[0], k) then [s[0]] + CollapseFrom(s[1..], k, false)
    else (if inRun then "" else " ") + CollapseFrom(s[1..], k, true)
  }

  /** Inside a run, the rest of the run disappears. */
  lemma {:induction false} RunSwallowed(s: string, k: RunClass)
    ensures CollapseFrom(s, k, true) == CollapseFrom(s[RunLength(s, k)..], k, false)
    decreases |s|
  {
    if |s| > 0 && InClass(s[0], k) {
      RunSwallowed(s[1..], k);
      assert s[1..][RunLength(s[1..], k)..] == s[RunLength(s, k)..];
    }
  }

  /** The pass is the character-by-character collapse: every maximal run of class `k` becomes
      one space and every other character is kept, in order. */
  lemma {:induction false} ReplaceRunsIsCollapse(s: string, k: RunClass)
    ensures ReplaceRuns(s, k) == CollapseFrom(s, k, false)
    decreases |s|
  {
    if |s| > 0 {
      if InClass(s[0], k) {
        RunSwallowed(s[1..], k);
        assert s[1..][RunLength(s[1..], k)..] == s[RunLength(s, k)..];
        ReplaceRunsIsCollapse(s[RunLength(s, k)..], k);
      } else {
        ReplaceRunsIsCollapse(s[1..], k);
      }
    }
  }

  /** A string with no character of class `k` is left alone by the pass for `k`. */
  lemma {:induction false} ReplaceRunsAbsent(s: string, k: RunClass)
    requires forall i :: 0 <= i < |s| ==> !InClass(s[i], k)
    ensures ReplaceRuns(s, k) == s
    decreases |s|
  {
    if |s| > 0 {
      ReplaceRunsAbsent(s[1..], k);
    }
  }

  /** The shape of normalised content: trimmed, every white-space character is a plain space,
      and no two white-space characters are adjacent. */
  predicate IsNormalized(r: string)
  {
    && IsTrimmed(r)
    && (forall i :: 0 <= i < |r| && IsSpace(r[i]) ==> r[i] == ' ')
    && (forall i :: 0 <= i < |r| - 1 ==> !IsSpace(r[i]) || !IsSpace(r[i + 1]))
  }

  /** The text clean-up of `extractContent` (route.ts lines 44-47). */
  function NormalizeContent(s: string): (r: string)
    ensures IsNormalized(r)
    ensures forall i :: 0 <= i < |r| ==> r[i] != '\n'
    ensures |r| <= |s|
  {
    var collapsed := ReplaceRuns(s, AnySpace);
    NoLineFeedLeft(collapsed);
    ReplaceRunsAbsent(collapsed, LineFeed);
    ReplaceRunsLength(s, AnySpace);
    var r := Trim(ReplaceRuns(collapsed, LineFeed));
    TrimKeepsShape(collapsed);
    r
  }

  lemma NoLineFeedLeft(collapsed: string)
    requires forall i :: 0 <= i < |collapsed| && IsSpace(collapsed[i]) ==> collapsed[i] == ' '
    ensures forall i :: 0 <= i < |collapsed| ==> !InClass(collapsed[i], LineFeed)
  {
  }

  lemma {:induction false} ReplaceRunsLength(s: string, k: RunClass)
    ensures |ReplaceRuns(s, k)| <= |s|
    decreases |s|
  {
    if |s| > 0 {
      if InClass(s[0], k) {
        ReplaceRunsLength(s[RunLength(s, k)..], k);
      } else {
        ReplaceRunsLength(s[1..], k);
      }
    }
  }

  /** Trimming the output of the `\s` pass yields normalised text. */
  lemma TrimKeepsShape(x: string)
    requires forall i :: 0 <= i < |x| && IsSpace(x[i]) ==> x[i] == ' '
    requires forall i :: 0 <= i < |x| - 1 ==> !IsSpace(x[i]) || !IsSpace(x[i + 1])
    ensures IsNormalized(Trim(x))
  {
    var r := Trim(x);
    var a := LeadingSpace(x);
    assert forall i :: 0 <= i < |r| ==> r[i] == x[a + i];
    forall i | 0 <= i < |r| - 1
      ensures !IsSpace(r[i]) || !IsSpace(r[i + 1])
    {
      assert r[i] == x[a + i] && r[i + 1] == x[a + i + 1];
    }
  }

  // ---------------------------------------------------------------------------------------------
  // Reference meaning: words joined by single spaces.

  predicate IsWord(w: string)
  {
    |w| > 0 && forall j :: 0 <= j < |w| ==> !IsSpace(w[j])
  }

  /** The maximal runs of non-white-space characters of `s`, in order. */
  function Words(s: string): (ws: seq<string>)
    ensures forall i :: 0 <= i < |ws| ==> IsWord(ws[i])
    ensures |s| > 0 && !IsSpace(s[0]) ==> |ws| > 0
    decreases |s|
  {
    if |s| == 0 then []
    else
      var rest := Words(s[1..]);
      if IsSpace(s[0]) then rest
      else if |s| > 1 && !IsSpace(s[1]) then [[s[0]] + rest[0]] + rest[1..]
      else [[s[0]]] + rest
  }

  /** `ws.join(' ')`. */
  function JoinWords(ws: seq<string>): string
  {
    if |ws| == 0 then ""
    else if |ws| == 1 then ws[0]
    else ws[0] + " " + JoinWords(ws[1..])
  }

  lemma {:induction false} WordsOfAllSpace(s: string)
    requires AllSpace(s)
    ensures Words(s) == []
    decreases |s|
  {
    if |s| > 0 {
      WordsOfAllSpace(s[1..]);
    }
  }

  /** Leading white space does not change the words. */
  lemma {:induction false} WordsDropLeadingSpace(s: string, n: nat)
    requires n <= |s|
    requires forall i :: 0 <= i < n ==> IsSpace(s[i])
    ensures Words(s) == Words(s[n..])
    decreases n
  {
    if n > 0 {
      assert s[1..][n - 1..] == s[n..];
      WordsDropLeadingSpace(s[1..], n - 1);
    }
  }

  /** Trailing white space does not change the words. */
  lemma {:induction false} WordsAppendSpace(y: string, z: string)
    requires AllSpace(z)
    ensures Words(y + z) == Words(y)
    decreases |y|
  {
    if |y| == 0 {
      assert y + z == z;
      WordsOfAllSpace(z);
    } else {
      assert (y + z)[1..] == y[1..] + z;
      WordsAppendSpace(y[1..], z);
      if |y| == 1 && |z| > 0 {
        assert (y + z)[1] == z[0];
      } else if |y| > 1 {
        assert (y + z)[1] == y[1];
      }
    }
  }

  lemma WordsOfTrim(x: string)
    ensures Words(Trim(x)) == Words(x)
  {
    var a := LeadingSpace(x);
    var r := Trim(x);
    WordsDropLeadingSpace(x, a);
    var y := x[a..];
    assert y == r + y[|r|..];
    assert AllSpace(y[|r|..]) by {
      forall i | 0 <= i < |y[|r|..]|
        ensures IsSpace(y[|r|..][i])
      {
        assert y[|r|..][i] == x[a + |r| + i];
      }
    }
    WordsAppendSpace(r, y[|r|..]);
  }

  /** The `\s` pass keeps the words. */
  lemma {:induction false} WordsOfReplaceRuns(s: string)
    ensures Words(ReplaceRuns(s, AnySpace)) == Words(s)
    decreases |s|
  {
    if |s| > 0 {
      if IsSpace(s[0]) {
        var n := RunLength(s, AnySpace);
        WordsOfReplaceRuns(s[n..]);
        WordsDropLeadingSpace(s, n);
        assert (" " + ReplaceRuns(s[n..], AnySpace))[1..] == ReplaceRuns(s[n..], AnySpace);
      } else {
        var y := ReplaceRuns(s[1..], AnySpace);
        WordsOfReplaceRuns(s[1..]);
        assert ([s[0]] + y)[1..] == y;
      }
    }
  }

  lemma JoinConsHead(c: char, w: string, ws: seq<string>)
    ensures JoinWords([[c] + w] + ws) == [c] + JoinWords([w] + ws)
  {
    assert ([[c] + w] + ws)[1..] == ws;
    assert ([w] + ws)[1..] == ws;
  }

  /** Normalised text is the join of its own words. */
  lemma {:induction false} NormalizedIsJoin(r: string)
    requires IsNormalized(r)
    ensures JoinWords(Words(r)) == r
    decreases |r|
  {
    if |r| > 1 {
      var t := r[1..];
      if !IsSpace(t[0]) {
        assert IsNormalized(t) by {
          assert t[|t| - 1] == r[|r| - 1];
          assert forall i :: 0 <= i < |t| ==> t[i] == r[i + 1];
        }
        NormalizedIsJoin(t);
        var w := Words(t);
        JoinConsHead(r[0], w[0], w[1..]);
        assert [w[0]] + w[1..] == w;
        assert [r[0]] + t == r;
      } else {
        assert t[0] == ' ';
        var t' := r[2..];
        assert !IsSpace(r[2]);
        assert IsNormalized(t') by {
          assert t'[|t'| - 1] == r[|r| - 1];
          assert forall i :: 0 <= i < |t'| ==> t'[i] == r[i + 2];
        }
        NormalizedIsJoin(t');
        assert t[1..] == t';
        WordsDropLeadingSpace(t, 1);
        var w := Words(t');
        assert Words(r) == [[r[0]]] + w;
        assert ([[r[0]]] + w)[1..] == w;
        assert r == [r[0]] + " " + t';
      }
    }
  }

  /** The normalised content is exactly the words of the content, joined by single spaces. */
  lemma NormalizeIsJoinOfWords(s: string)
    ensures NormalizeContent(s) == JoinWords(Words(s))
  {
    var collapsed := ReplaceRuns(s, AnySpace);
    NoLineFeedLeft(collapsed);
    ReplaceRunsAbsent(collapsed, LineFeed);
    WordsOfReplaceRuns(s);
    WordsOfTrim(collapsed);
    NormalizedIsJoin(NormalizeContent(s));
  }

  /** Normalising twice is normalising once. */
  lemma NormalizeIdempotent(s: string)
    ensures NormalizeContent(NormalizeContent(s)) == NormalizeContent(s)
  {
    var n := NormalizeContent(s);
    NormalizeIsJoinOfWords(n);
    NormalizedIsJoin(n);
  }

  /** The normalised content is empty exactly when the content is all white space. */
  lemma NormalizeEmpty(s: string)
    ensures NormalizeContent(s) == "" <==> AllSpace(s)
  {
    NormalizeIsJoinOfWords(s);
    if AllSpace(s) {
      WordsOfAllSpace(s);
    } else {
      var i :| 0 <= i < |s| && !IsSpace(s[i]);
      WordsDropLeadingSpace(s, LeadingSpace(s));
      assert LeadingSpace(s) <= i;
      var ws := Words(s[LeadingSpace(s)..]);
      assert |ws| > 0;
      assert |ws[0]| > 0;
      assert |JoinWords(ws)| > 0;
    }
  }
}
