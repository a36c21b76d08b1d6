/** The sentence split of `chunkText`: `text.match(/[^.!?]+[.!?]+/g) || []`. */
module Sentences {
  import opened Wrappers
  import opened Seqs

  predicate IsTerminator(c: char)
  {
    c == '.' || c == '!' || c == '?'
  }

  predicate NoTerminator(s: string)
  {
    forall i :: 0 <= i < |s| ==> !IsTerminator(s[i])
  }

  /** Some terminator follows some non-terminator: the text holds at least one sentence. */
  predicate HasTerminatedText(s: string)
  {
    exists i, j :: 0 <= i < j < |s| && !IsTerminator(s[i]) && IsTerminator(s[j])
  }

  /** What one match of `[^.!?]+[.!?]+` looks like: non-terminators, then terminators, both non-empty. */
  predicate IsSentence(x: string)
  {
    && |x| > 0
    && !IsTerminator(x[0])
    && IsTerminator(x[|x| - 1])
    && forall i, j :: 0 <= i < j < |x| && IsTerminator(x[i]) ==> IsTerminator(x[j])
  }

  /** Length of the longest prefix of `s` whose characters are all terminators (when `terminators`)
      or all non-terminators (otherwise). */
  function ClassRun(s: string, terminators: bool): (n: nat)
    ensures n <= |s|
    ensures forall i :: 0 <= i < n ==> IsTerminator(s[i]) == terminators
    ensures n == |s| || IsTerminator(s[n]) != terminators
  {
    if |s| > 0 && IsTerminator(s[0]) == terminators then 1 + ClassRun(s[1..], terminators) else 0
  }

  /** The match of `[^.!?]+[.!?]+` anchored at the start of `s`, given by its length. Both repetitions
      are greedy; giving characters back from the first cannot help, because the character given back
      is a non-terminator where a terminator is needed. */
  function SentenceAt(s: string): (r: Option<nat>)
    ensures r.Some? ==> r.value <= |s| && IsSentence(s[..r.value])
    ensures r.Some? ==> r.value == |s| || !IsTerminator(s[r.value])
    ensures r.None? <==> |s| == 0 || IsTerminator(s[0]) || NoTerminator(s)
  {
    var n := ClassRun(s, false);
    if n == 0 || n == |s| then None
    else
      var m := n + ClassRun(s[n..], true);
      assert forall i :: n <= i < m ==> s[i] == s[n..][i - n];
      Some(m)
  }

  /** `text.match(/[^.!?]+[.!?]+/g) || []`: the scan tries every position from left to right and
      resumes after each match. Every member is a sentence. */
  function Split(s: string): (ss: seq<string>)
    ensures forall k :: 0 <= k < |ss| ==> IsSentence(ss[k])
    decreases |s|
  {
    if |s| == 0 then []
    else
      match SentenceAt(s)
      case Some(n) => [s[..n]] + Split(s[n..])
      case None => Split(s[1..])
  }

  lemma {:induction false} SplitNoTerminator(s: string)
    requires NoTerminator(s)
    ensures Split(s) == []
    decreases |s|
  {
    if |s| > 0 {
      SplitNoTerminator(s[1..]);
    }
  }

  /** The split is empty exactly when no terminator follows a non-terminator; then `chunkText`
      has nothing to pack. */
  lemma {:induction false} SplitEmptyIff(s: string)
    ensures |Split(s)| == 0 <==> !HasTerminatedText(s)
    decreases |s|
  {
    if |s| > 0 {
      if IsTerminator(s[0]) {
        SplitEmptyIff(s[1..]);
        if HasTerminatedText(s) {
          var i, j :| 0 <= i < j < |s| && !IsTerminator(s[i]) && IsTerminator(s[j]);
          assert s[1..][i - 1] == s[i] && s[1..][j - 1] == s[j];
        }
        if HasTerminatedText(s[1..]) {
          var i, j :| 0 <= i < j < |s[1..]| && !IsTerminator(s[1..][i]) && IsTerminator(s[1..][j]);
          assert s[i + 1] == s[1..][i] && s[j + 1] == s[1..][j];
        }
      } else if NoTerminator(s) {
        SplitNoTerminator(s);
      } else {
        var j :| 0 <= j < |s| && IsTerminator(s[j]);
        assert j > 0;
      }
    }
  }

  /** The sentences, concatenated, are the text after its leading terminators, up to a tail
      that holds no terminator. */
  lemma SplitCoversText(s: string)
    ensures var a := ClassRun(s, true); var m := Flatten(Split(s));
      && a + |m| <= |s| && s[a..a + |m|] == m
      && forall i :: a + |m| <= i < |s| ==> !IsTerminator(s[i])
  {
    SplitIsInfix(s);
    SplitLeavesTail(s);
    assert InfixAfterTerminators(s) && TailWithoutTerminator(s);
  }

  /** `Flatten(Split(s))` sits in `s` right after the leading terminators. */
  ghost predicate InfixAfterTerminators(s: string)
  {
    var a := ClassRun(s, true); var m := Flatten(Split(s));
    a + |m| <= |s| && s[a..a + |m|] == m
  }

  /** Nothing after `Flatten(Split(s))` is a terminator. */
  ghost predicate TailWithoutTerminator(s: string)
  {
    var a := ClassRun(s, true); var m := Flatten(Split(s));
    forall i :: a + |m| <= i < |s| ==> !IsTerminator(s[i])
  }

  lemma {:induction false} SplitIsInfix(s: string)
    ensures InfixAfterTerminators(s)
    decreases |s|
  {
    if |s| > 0 {
      if IsTerminator(s[0]) {
        SplitIsInfix(s[1..]);
        InfixTerminatorStep(s);
      } else if NoTerminator(s) {
        SplitNoTerminator(s);
      } else {
        var n := SentenceAt(s).value;
        SplitIsInfix(s[n..]);
        InfixSentenceStep(s, n);
      }
    }
  }

  lemma {:induction false} SplitLeavesTail(s: string)
    ensures TailWithoutTerminator(s)
    decreases |s|
  {
    if |s| > 0 {
      if IsTerminator(s[0]) {
        SplitLeavesTail(s[1..]);
        TailTerminatorStep(s);
      } else if NoTerminator(s) {
        SplitNoTerminator(s);
      } else {
        var n := SentenceAt(s).value;
        SplitLeavesTail(s[n..]);
        TailSentenceStep(s, n);
      }
    }
  }

  /** A leading terminator is skipped by the scan and belongs to the leading terminator run. */
  lemma SkipTerminator(s: string)
    requires 0 < |s| && IsTerminator(s[0])
    ensures Split(s) == Split(s[1..])
    ensures ClassRun(s, true) == ClassRun(s[1..], true) + 1
  {
    assert SentenceAt(s).None?;
  }

  /** A sentence at the start of the text is the first member of the split. */
  lemma TakeSentence(s: string, n: nat)
    requires 0 < |s| && !IsTerminator(s[0]) && SentenceAt(s) == Some(n)
    ensures n <= |s| && Flatten(Split(s)) == s[..n] + Flatten(Split(s[n..]))
    ensures ClassRun(s, true) == 0 && ClassRun(s[n..], true) == 0
  {
    assert Split(s) == [s[..n]] + Split(s[n..]);
    assert Flatten([s[..n]] + Split(s[n..])) == s[..n] + Flatten(Split(s[n..]));
  }

  lemma InfixTerminatorStep(s: string)
    requires 0 < |s| && IsTerminator(s[0]) && InfixAfterTerminators(s[1..])
    ensures InfixAfterTerminators(s)
  {
    var t := s[1..];
    SkipTerminator(s);
    var a := ClassRun(t, true);
    var m := Flatten(Split(t));
    SliceOfSuffix(s, 1, a, m);
  }

  lemma TailTerminatorStep(s: string)
    requires 0 < |s| && IsTerminator(s[0]) && TailWithoutTerminator(s[1..])
    ensures TailWithoutTerminator(s)
  {
    var t := s[1..];
    SkipTerminator(s);
    var a := ClassRun(t, true);
    var m := Flatten(Split(t));
    assert forall i :: a + 1 + |m| <= i < |s| ==> s[i] == t[i - 1];
  }

  lemma InfixSentenceStep(s: string, n: nat)
    requires 0 < |s| && !IsTerminator(s[0]) && SentenceAt(s) == Some(n) && InfixAfterTerminators(s[n..])
    ensures InfixAfterTerminators(s)
  {
    var t := s[n..];
    var m' := Flatten(Split(t));
    TakeSentence(s, n);
    assert t[0..|m'|] == t[..|m'|];
    PrefixThenSlice(s, n, m');
  }

  lemma TailSentenceStep(s: string, n: nat)
    requires 0 < |s| && !IsTerminator(s[0]) && SentenceAt(s) == Some(n) && TailWithoutTerminator(s[n..])
    ensures TailWithoutTerminator(s)
  {
    var t := s[n..];
    var m' := Flatten(Split(t));
    TakeSentence(s, n);
    assert forall i :: n + |m'| <= i < |s| ==> s[i] == t[i - n];
  }

  lemma SentencePrefix(x: string, y: string)
    requires IsSentence(x)
    requires |y| == 0 || !IsTerminator(y[0])
    ensures SentenceAt(x + y) == Some(|x|)
  {
    var s := x + y;
    var n := ClassRun(s, false);
    assert n < |x| by {
      assert IsTerminator(s[|x| - 1]);
    }
    assert n > 0;
    var t := s[n..];
    assert IsTerminator(x[n]);
    assert forall k :: 0 <= k < |x| - n ==> IsTerminator(t[k]) by {
      forall k | 0 <= k < |x| - n ensures IsTerminator(t[k]) {
        assert t[k] == x[n + k];
        if k > 0 { assert IsTerminator(x[n]) ==> IsTerminator(x[n + k]); }
      }
    }
    assert |x| - n == |t| || !IsTerminator(t[|x| - n]) by {
      if |x| - n < |t| { assert t[|x| - n] == y[0]; }
    }
    assert ClassRun(t, true) == |x| - n;
  }

  /** A text made of sentences splits back into exactly those sentences. */
  lemma {:induction false} SplitUnique(ss: seq<string>)
    requires forall k :: 0 <= k < |ss| ==> IsSentence(ss[k])
    ensures Split(Flatten(ss)) == ss
  {
    if |ss| > 0 {
      var x := ss[0];
      var y := Flatten(ss[1..]);
      SplitUnique(ss[1..]);
      if |ss| > 1 {
        FlattenHead(ss[1..]);
      }
      SentencePrefix(x, y);
      assert (x + y)[..|x|] == x;
      assert (x + y)[|x|..] == y;
    }
  }

  /** `ss` is a sentence split of `s`: sentences whose concatenation is the text after its leading
      terminators, followed only by non-terminators. */
  predicate IsSentenceSplitOf(s: string, ss: seq<string>)
  {
    && (forall k :: 0 <= k < |ss| ==> IsSentence(ss[k]))
    && var a := ClassRun(s, true); var m := Flatten(ss);
      && a + |m| <= |s| && s[a..a + |m|] == m
      && forall i :: a + |m| <= i < |s| ==> !IsTerminator(s[i])
  }

  lemma {:induction false} FlattenSentencesEnd(ss: seq<string>)
    requires forall k :: 0 <= k < |ss| ==> IsSentence(ss[k])
    ensures |Flatten(ss)| == 0 || IsTerminator(Flatten(ss)[|Flatten(ss)| - 1])
  {
    if |ss| > 0 {
      FlattenSentencesEnd(ss[1..]);
      var y := Flatten(ss[1..]);
      if |y| == 0 {
        assert Flatten(ss) == ss[0] + y;
      }
    }
  }

  /** The match list is the one and only sentence split of the text. */
  lemma SplitCharacterized(s: string, ss: seq<string>)
    ensures IsSentenceSplitOf(s, ss) <==> ss == Split(s)
  {
    SplitCoversText(s);
    if IsSentenceSplitOf(s, ss) {
      var a := ClassRun(s, true);
      var m := Flatten(ss);
      var m' := Flatten(Split(s));
      FlattenSentencesEnd(ss);
      FlattenSentencesEnd(Split(s));
      assert m == m';
      SplitUnique(ss);
      SplitUnique(Split(s));
    }
  }
}
