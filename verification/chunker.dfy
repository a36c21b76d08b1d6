/** `chunkText` (route.ts lines 51-68): greedy packing of whole sentences into chunks of at most
    `maxLength` characters, each chunk trimmed. */
module Chunker {
  import opened Seqs
  import opened Strings
  import opened Sentences

  /** The default of the `maxLength` parameter. */
  const DefaultMaxLength: int := 4000

  predicate AllNonEmpty(ss: seq<string>)
  {
    forall k :: 0 <= k < |ss| ==> |ss[k]| > 0
  }

  /** The loop of `chunkText` from the point where `cur` is the group of sentences held in the buffer
      `currentChunk` and `ss` are the sentences still to come. A sentence joins the buffer when the
      joined length stays within `maxLength`; otherwise a non-empty buffer is closed and the sentence
      starts a new one. The buffer left at the end is closed when non-empty. */
  function PackFrom(ss: seq<string>, maxLength: int, cur: seq<string>): seq<seq<string>>
    decreases |ss|
  {
    if |ss| == 0 then
      (if Flatten(cur) != "" then [cur] else [])
    else if |Flatten(cur) + ss[0]| <= maxLength then
      PackFrom(ss[1..], maxLength, cur + [ss[0]])
    else
      (if Flatten(cur) != "" then [cur] else []) + PackFrom(ss[1..], maxLength, [ss[0]])
  }

  /** The sentence groups of the chunks, starting from an empty buffer. */
  function PackGroups(ss: seq<string>, maxLength: int): seq<seq<string>>
  {
    PackFrom(ss, maxLength, [])
  }

  /** Reference definition of greedy packing: the groups cover the sentences in order, none is empty,
      a group longer than `maxLength` holds a single sentence, and a group is closed only because its
      next sentence would not have fitted. */
  predicate IsGreedyPacking(ss: seq<string>, maxLength: int, gs: seq<seq<string>>)
  {
    && Flatten(gs) == ss
    && (forall i :: 0 <= i < |gs| ==> |gs[i]| > 0)
    && (forall i :: 0 <= i < |gs| ==> |gs[i]| == 1 || |Flatten(gs[i])| <= maxLength)
    && (forall i :: 0 <= i < |gs| - 1 ==> |Flatten(gs[i])| + |gs[i + 1][0]| > maxLength)
  }

  lemma {:induction false} FlattenNonEmpty(cur: seq<string>)
    requires AllNonEmpty(cur)
    ensures Flatten(cur) == "" <==> |cur| == 0
  {
  }

  lemma FlattenSnoc(cur: seq<string>, s: string)
    ensures Flatten(cur + [s]) == Flatten(cur) + s
  {
    FlattenAppend(cur, [s]);
    assert Flatten([s]) == s + Flatten([s][1..]);
  }

  lemma {:induction false} PackFromGreedy(ss: seq<string>, maxLength: int, cur: seq<string>)
    requires AllNonEmpty(ss) && AllNonEmpty(cur)
    requires |cur| <= 1 || |Flatten(cur)| <= maxLength
    ensures IsGreedyPacking(cur + ss, maxLength, PackFrom(ss, maxLength, cur))
    decreases |ss|
  {
    FlattenNonEmpty(cur);
    if |ss| == 0 {
      PackEndGreedy(cur, maxLength);
      assert cur + ss == cur;
    } else {
      var s, rest := ss[0], ss[1..];
      assert AllNonEmpty(rest);
      if |Flatten(cur) + s| <= maxLength {
        FlattenSnoc(cur, s);
        assert AllNonEmpty(cur + [s]);
        PackFromGreedy(rest, maxLength, cur + [s]);
        ExtendBufferGreedy(ss, maxLength, cur);
      } else {
        assert AllNonEmpty([s]);
        PackFromGreedy(rest, maxLength, [s]);
        StartBufferGreedy(ss, maxLength, cur);
      }
    }
  }

  /** A sentence that fits joins the buffer: the packing from there on is the whole packing. */
  lemma ExtendBufferGreedy(ss: seq<string>, maxLength: int, cur: seq<string>)
    requires |ss| > 0 && |Flatten(cur) + ss[0]| <= maxLength
    requires IsGreedyPacking((cur + [ss[0]]) + ss[1..], maxLength, PackFrom(ss[1..], maxLength, cur + [ss[0]]))
    ensures IsGreedyPacking(cur + ss, maxLength, PackFrom(ss, maxLength, cur))
  {
    assert PackFrom(ss, maxLength, cur) == PackFrom(ss[1..], maxLength, cur + [ss[0]]);
    assert cur + ss == (cur + [ss[0]]) + ss[1..];
  }

  /** A sentence that does not fit closes a non-empty buffer and starts the next one. */
  lemma StartBufferGreedy(ss: seq<string>, maxLength: int, cur: seq<string>)
    requires |ss| > 0 && |ss[0]| > 0 && |Flatten(cur) + ss[0]| > maxLength
    requires AllNonEmpty(cur) && (|cur| <= 1 || |Flatten(cur)| <= maxLength)
    requires IsGreedyPacking([ss[0]] + ss[1..], maxLength, PackFrom(ss[1..], maxLength, [ss[0]]))
    ensures IsGreedyPacking(cur + ss, maxLength, PackFrom(ss, maxLength, cur))
  {
    FlattenNonEmpty(cur);
    PackStep(ss, maxLength, cur);
    assert [ss[0]] + ss[1..] == ss;
    if |cur| > 0 {
      CloseBufferGreedy(ss, maxLength, cur, PackFrom(ss[1..], maxLength, [ss[0]]));
    } else {
      assert cur + ss == ss;
    }
  }

  /** The buffer left at the end of the loop is a greedy packing of its own sentences. */
  lemma PackEndGreedy(cur: seq<string>, maxLength: int)
    requires AllNonEmpty(cur) && (|cur| <= 1 || |Flatten(cur)| <= maxLength)
    ensures IsGreedyPacking(cur, maxLength, PackFrom([], maxLength, cur))
  {
    FlattenNonEmpty(cur);
    if |cur| > 0 {
      assert Flatten([cur]) == cur + Flatten([cur][1..]);
    }
  }

  /** Closing a non-empty buffer because the next sentence does not fit keeps the packing greedy. */
  lemma CloseBufferGreedy(ss: seq<string>, maxLength: int, cur: seq<string>, rest: seq<seq<string>>)
    requires |ss| > 0 && |ss[0]| > 0 && |cur| > 0
    requires |cur| <= 1 || |Flatten(cur)| <= maxLength
    requires |Flatten(cur)| + |ss[0]| > maxLength
    requires IsGreedyPacking(ss, maxLength, rest)
    ensures IsGreedyPacking(cur + ss, maxLength, [cur] + rest)
  {
    var gs := [cur] + rest;
    assert |rest| > 0 && |rest[0]| > 0 && rest[0][0] == ss[0] by {
      FlattenHead(rest);
    }
    assert Flatten(gs) == cur + ss by {
      FlattenAppend([cur], rest);
      assert Flatten([cur]) == cur + Flatten([cur][1..]);
    }
    assert forall i :: 1 <= i < |gs| ==> gs[i] == rest[i - 1];
    assert |Flatten(gs[0])| + |gs[1][0]| > maxLength;
  }

  /** The packing computed by the loop is a greedy packing of the sentences. */
  lemma PackGroupsIsGreedy(ss: seq<string>, maxLength: int)
    requires AllNonEmpty(ss)
    ensures IsGreedyPacking(ss, maxLength, PackGroups(ss, maxLength))
  {
    assert [] + ss == ss;
    PackFromGreedy(ss, maxLength, []);
  }

  lemma GreedyTail(ss: seq<string>, maxLength: int, gs: seq<seq<string>>)
    requires IsGreedyPacking(ss, maxLength, gs) && |gs| > 0
    ensures |gs[0]| <= |ss| && ss[..|gs[0]|] == gs[0]
    ensures IsGreedyPacking(ss[|gs[0]|..], maxLength, gs[1..])
  {
    assert Flatten(gs) == gs[0] + Flatten(gs[1..]);
    assert forall i :: 0 <= i < |gs| - 1 ==> gs[1..][i] == gs[i + 1];
  }

  /** There is only one greedy packing of a sequence of sentences. */
  lemma {:induction false} GreedyPackingUnique(ss: seq<string>, maxLength: int, gs1: seq<seq<string>>, gs2: seq<seq<string>>)
    requires IsGreedyPacking(ss, maxLength, gs1) && IsGreedyPacking(ss, maxLength, gs2)
    ensures gs1 == gs2
    decreases |gs1|
  {
    if |gs1| == 0 || |gs2| == 0 {
      if |gs1| > 0 { FlattenHead(gs1); }
      if |gs2| > 0 { FlattenHead(gs2); }
    } else {
      GreedyTail(ss, maxLength, gs1);
      GreedyTail(ss, maxLength, gs2);
      var n1 := |gs1[0]|;
      var n2 := |gs2[0]|;
      if n1 < n2 {
        GreedyClosesEarly(ss, maxLength, gs1, gs2);
      } else if n2 < n1 {
        GreedyClosesEarly(ss, maxLength, gs2, gs1);
      }
      assert gs1[0] == gs2[0];
      GreedyPackingUnique(ss[n1..], maxLength, gs1[1..], gs2[1..]);
      assert gs1 == [gs1[0]] + gs1[1..];
      assert gs2 == [gs2[0]] + gs2[1..];
    }
  }

  /** Two greedy packings cannot start with groups of different lengths. */
  lemma GreedyClosesEarly(ss: seq<string>, maxLength: int, gs1: seq<seq<string>>, gs2: seq<seq<string>>)
    requires IsGreedyPacking(ss, maxLength, gs1) && IsGreedyPacking(ss, maxLength, gs2)
    requires |gs1| > 0 && |gs2| > 0
    requires |gs2[0]| <= |ss| && ss[..|gs2[0]|] == gs2[0]
    ensures |gs1[0]| >= |gs2[0]|
  {
    ClosedGroupCannotGrow(ss, maxLength, gs1, |gs2[0]|);
  }

  /** The sentences up to and including the one that closed the first group do not fit together. */
  lemma ClosedGroupCannotGrow(ss: seq<string>, maxLength: int, gs: seq<seq<string>>, n: nat)
    requires IsGreedyPacking(ss, maxLength, gs) && |gs| > 0 && n <= |ss|
    ensures |gs[0]| < n ==> |Flatten(ss[..n])| > maxLength
  {
    var n1 := |gs[0]|;
    if n1 < n {
      GreedyTail(ss, maxLength, gs);
      var rest := gs[1..];
      FlattenHead(rest);
      assert gs[1][0] == ss[n1];
      assert ss[..n1 + 1] == gs[0] + [ss[n1]];
      FlattenSnoc(gs[0], ss[n1]);
      FlattenPrefixLength(ss[..n], n1 + 1, n);
      assert ss[..n][..n1 + 1] == ss[..n1 + 1];
      assert ss[..n][..n] == ss[..n];
    }
  }

  /** Greedy packing, characterised: the groups the loop computes are exactly the greedy packing. */
  lemma GreedyPackingCharacterized(ss: seq<string>, maxLength: int, gs: seq<seq<string>>)
    requires AllNonEmpty(ss)
    ensures IsGreedyPacking(ss, maxLength, gs) <==> gs == PackGroups(ss, maxLength)
  {
    PackGroupsIsGreedy(ss, maxLength);
    if IsGreedyPacking(ss, maxLength, gs) {
      GreedyPackingUnique(ss, maxLength, gs, PackGroups(ss, maxLength));
    }
  }

  /** The untrimmed buffers `currentChunk` that `chunkText` closes, in order. */
  function Buffers(text: string, maxLength: int): seq<string>
  {
    FlattenEach(PackGroups(Split(text), maxLength))
  }

  function TrimEach(bs: seq<string>): (r: seq<string>)
    ensures |r| == |bs|
    ensures forall i :: 0 <= i < |bs| ==> r[i] == Trim(bs[i])
  {
    seq(|bs|, i requires 0 <= i < |bs| => Trim(bs[i]))
  }

  /** The result of `chunkText(text, maxLength)`. */
  function Chunks(text: string, maxLength: int): seq<string>
  {
    TrimEach(Buffers(text, maxLength))
  }

  lemma SentencesNonEmpty(text: string)
    ensures AllNonEmpty(Split(text))
  {
  }

  /** No sentence is lost, duplicated, reordered or split: the buffers, concatenated, are the
      sentences concatenated, which is the text after its leading terminators and before its
      unterminated tail. */
  lemma BuffersPreserveSentences(text: string, maxLength: int)
    ensures Flatten(Buffers(text, maxLength)) == Flatten(Split(text))
    ensures var a := ClassRun(text, true); var m := Flatten(Buffers(text, maxLength));
      && a + |m| <= |text| && text[a..a + |m|] == m
      && forall i :: a + |m| <= i < |text| ==> !IsTerminator(text[i])
  {
    var gs := PackGroups(Split(text), maxLength);
    SentencesNonEmpty(text);
    PackGroupsIsGreedy(Split(text), maxLength);
    FlattenOfFlattenEach(gs);
    SplitCoversText(text);
  }

  /** Every buffer is the concatenation of whole sentences of the text, and the buffers are
      exactly the greedy packing of those sentences. */
  lemma BuffersAreGreedyGroups(text: string, maxLength: int)
    ensures var gs := PackGroups(Split(text), maxLength);
      && IsGreedyPacking(Split(text), maxLength, gs)
      && Buffers(text, maxLength) == FlattenEach(gs)
  {
    SentencesNonEmpty(text);
    PackGroupsIsGreedy(Split(text), maxLength);
  }

  /** A buffer holds a terminator, so its trimmed chunk is not empty. */
  lemma GroupHasTerminator(g: seq<string>)
    requires |g| > 0 && forall k :: 0 <= k < |g| ==> IsSentence(g[k])
    ensures 0 < |g[0]| <= |Flatten(g)| && IsTerminator(Flatten(g)[|g[0]| - 1])
  {
    assert Flatten(g) == g[0] + Flatten(g[1..]);
  }

  /** Every chunk is non-empty and equal to its own trim. */
  lemma ChunksNonEmptyTrimmed(text: string, maxLength: int)
    ensures forall i :: 0 <= i < |Chunks(text, maxLength)| ==>
      |Chunks(text, maxLength)[i]| > 0 && Trim(Chunks(text, maxLength)[i]) == Chunks(text, maxLength)[i]
  {
    var gs := PackGroups(Split(text), maxLength);
    BuffersAreGreedyGroups(text, maxLength);
    var cs := Chunks(text, maxLength);
    forall i | 0 <= i < |cs|
      ensures |cs[i]| > 0 && Trim(cs[i]) == cs[i]
    {
      GroupIsSentences(Split(text), gs, i);
      GroupHasTerminator(gs[i]);
      var b := Flatten(gs[i]);
      TrimNonEmpty(b, |gs[i][0]| - 1);
      TrimTrimmed(cs[i]);
    }
  }

  /** A group of a packing of sentences consists of sentences. */
  lemma GroupIsSentences(ss: seq<string>, gs: seq<seq<string>>, i: nat)
    requires Flatten(gs) == ss && i < |gs|
    requires forall k :: 0 <= k < |ss| ==> IsSentence(ss[k])
    ensures forall k :: 0 <= k < |gs[i]| ==> IsSentence(gs[i][k])
  {
    forall k | 0 <= k < |gs[i]|
      ensures IsSentence(gs[i][k])
    {
      FlattenContains(gs, i, k);
    }
  }

  /** `c` is the trim of a single sentence of `text` that alone is longer than `maxLength`. */
  predicate IsOversizedSentence(text: string, maxLength: int, c: string)
  {
    exists s :: s in Split(text) && |s| > maxLength && c == Trim(s)
  }

  /** Every chunk is at most `maxLength` long, unless it is a single sentence that alone is longer. */
  lemma ChunkLengthBound(text: string, maxLength: int)
    ensures forall i :: 0 <= i < |Chunks(text, maxLength)| ==>
      || |Chunks(text, maxLength)[i]| <= maxLength
      || IsOversizedSentence(text, maxLength, Chunks(text, maxLength)[i])
  {
    forall i | 0 <= i < |Chunks(text, maxLength)|
      ensures || |Chunks(text, maxLength)[i]| <= maxLength
              || IsOversizedSentence(text, maxLength, Chunks(text, maxLength)[i])
    {
      ChunkLengthBoundAt(text, maxLength, i);
    }
  }

  lemma ChunkLengthBoundAt(text: string, maxLength: int, i: nat)
    requires i < |Chunks(text, maxLength)|
    ensures || |Chunks(text, maxLength)[i]| <= maxLength
            || IsOversizedSentence(text, maxLength, Chunks(text, maxLength)[i])
  {
    var ss := Split(text);
    var gs := PackGroups(ss, maxLength);
    BuffersAreGreedyGroups(text, maxLength);
    var c := Chunks(text, maxLength)[i];
    assert c == Trim(Flatten(gs[i]));
    GreedyGroupFits(ss, maxLength, gs, i);
    if |Flatten(gs[i])| > maxLength {
      SingleGroupSentence(ss, gs, i);
      assert gs[i][0] in ss && |gs[i][0]| > maxLength && c == Trim(gs[i][0]);
    }
  }

  /** A group of a greedy packing fits within the limit unless it holds a single sentence. */
  lemma GreedyGroupFits(ss: seq<string>, maxLength: int, gs: seq<seq<string>>, i: nat)
    requires IsGreedyPacking(ss, maxLength, gs) && i < |gs|
    ensures |gs[i]| == 1 || |Flatten(gs[i])| <= maxLength
    ensures Flatten(gs) == ss
  {
  }

  /** A group holding one sentence is that sentence, and the sentence is one of the packed ones. */
  lemma SingleGroupSentence(ss: seq<string>, gs: seq<seq<string>>, i: nat)
    requires Flatten(gs) == ss && i < |gs| && |gs[i]| == 1
    ensures gs[i][0] in ss && Flatten(gs[i]) == gs[i][0]
  {
    FlattenContains(gs, i, 0);
    assert Flatten(gs[i]) == gs[i][0] + Flatten(gs[i][1..]);
  }

  /** `chunkText` returns no chunk exactly when no terminator follows a non-terminator. */
  lemma NoChunkIffNoSentence(text: string, maxLength: int)
    ensures |Chunks(text, maxLength)| == 0 <==> !HasTerminatedText(text)
  {
    SplitEmptyIff(text);
    BuffersAreGreedyGroups(text, maxLength);
    var gs := PackGroups(Split(text), maxLength);
    if |gs| > 0 {
      FlattenHead(gs);
    }
  }

  /** One iteration of the loop, in terms of the sentence groups. */
  lemma PackStep(ss: seq<string>, maxLength: int, cur: seq<string>)
    requires |ss| > 0
    ensures |Flatten(cur) + ss[0]| <= maxLength ==>
      PackFrom(ss, maxLength, cur) == PackFrom(ss[1..], maxLength, cur + [ss[0]])
    ensures |Flatten(cur) + ss[0]| > maxLength && Flatten(cur) != "" ==>
      PackFrom(ss, maxLength, cur) == [cur] + PackFrom(ss[1..], maxLength, [ss[0]])
    ensures |Flatten(cur) + ss[0]| > maxLength && Flatten(cur) == "" ==>
      PackFrom(ss, maxLength, cur) == PackFrom(ss[1..], maxLength, [ss[0]])
    ensures PackFrom([], maxLength, cur) == (if Flatten(cur) != "" then [cur] else [])
  {
    assert [] + PackFrom(ss[1..], maxLength, [ss[0]]) == PackFrom(ss[1..], maxLength, [ss[0]]);
  }

  /** Closing a buffer appends its trimmed text to the chunks. */
  lemma AppendChunk(closed: seq<seq<string>>, g: seq<string>)
    ensures TrimEach(FlattenEach(closed + [g])) == TrimEach(FlattenEach(closed)) + [Trim(Flatten(g))]
  {
  }

  /** A sentence that fits joins the buffer. */
  lemma JoinStep(closed: seq<seq<string>>, ss: seq<string>, maxLength: int, group: seq<string>)
    requires |ss| > 0 && |Flatten(group) + ss[0]| <= maxLength
    ensures closed + PackFrom(ss, maxLength, group) == closed + PackFrom(ss[1..], maxLength, group + [ss[0]])
    ensures Flatten(group + [ss[0]]) == Flatten(group) + ss[0]
  {
    PackStep(ss, maxLength, group);
    FlattenSnoc(group, ss[0]);
  }

  /** A sentence that does not fit closes the non-empty buffer and starts the next one. */
  lemma CloseStep(closed: seq<seq<string>>, ss: seq<string>, maxLength: int, group: seq<string>)
    requires |ss| > 0 && |Flatten(group) + ss[0]| > maxLength && Flatten(group) != ""
    ensures closed + PackFrom(ss, maxLength, group) == (closed + [group]) + PackFrom(ss[1..], maxLength, [ss[0]])
    ensures TrimEach(FlattenEach(closed + [group])) == TrimEach(FlattenEach(closed)) + [Trim(Flatten(group))]
    ensures Flatten([ss[0]]) == ss[0]
  {
    PackStep(ss, maxLength, group);
    AppendChunk(closed, group);
    assert Flatten([ss[0]]) == ss[0] + Flatten([ss[0]][1..]);
  }

  /** A sentence that does not fit an empty buffer starts it. */
  lemma StartStep(closed: seq<seq<string>>, ss: seq<string>, maxLength: int, group: seq<string>)
    requires |ss| > 0 && |Flatten(group) + ss[0]| > maxLength && Flatten(group) == ""
    ensures closed + PackFrom(ss, maxLength, group) == closed + PackFrom(ss[1..], maxLength, [ss[0]])
    ensures Flatten([ss[0]]) == ss[0]
  {
    PackStep(ss, maxLength, group);
    assert Flatten([ss[0]]) == ss[0] + Flatten([ss[0]][1..]);
  }

  /** The non-empty buffer left after the last sentence becomes the last chunk. */
  lemma FinalStep(closed: seq<seq<string>>, maxLength: int, group: seq<string>)
    requires Flatten(group) != ""
    ensures closed + PackFrom([], maxLength, group) == closed + [group]
    ensures TrimEach(FlattenEach(closed + [group])) == TrimEach(FlattenEach(closed)) + [Trim(Flatten(group))]
  {
    AppendChunk(closed, group);
  }

  /** The loop of `chunkText`, with the buffer `currentChunk` kept as a string. */
  method ChunkText(text: string, maxLength: int) returns (chunks: seq<string>)
    ensures chunks == Chunks(text, maxLength)
    ensures |chunks| == 0 <==> !HasTerminatedText(text)
    ensures forall i :: 0 <= i < |chunks| ==> |chunks[i]| > 0 && Trim(chunks[i]) == chunks[i]
    ensures forall i :: 0 <= i < |chunks| ==>
      || |chunks[i]| <= maxLength
      || IsOversizedSentence(text, maxLength, chunks[i])
  {
    var sentences := Split(text);
    chunks := [];
    var currentChunk := "";
    ghost var closed: seq<seq<string>> := [];
    ghost var group: seq<string> := [];
    for i := 0 to |sentences|
      invariant currentChunk == Flatten(group)
      invariant closed + PackFrom(sentences[i..], maxLength, group) == PackGroups(sentences, maxLength)
      invariant chunks == TrimEach(FlattenEach(closed))
    {
      var sentence := sentences[i];
      assert sentences[i..][0] == sentence && sentences[i..][1..] == sentences[i + 1..];
      if |currentChunk + sentence| <= maxLength {
        JoinStep(closed, sentences[i..], maxLength, group);
        currentChunk := currentChunk + sentence;
        group := group + [sentence];
      } else {
        if currentChunk != "" {
          CloseStep(closed, sentences[i..], maxLength, group);
          chunks := chunks + [Trim(currentChunk)];
          closed := closed + [group];
        } else {
          StartStep(closed, sentences[i..], maxLength, group);
        }
        currentChunk := sentence;
        group := [sentence];
      }
    }
    if currentChunk != "" {
      FinalStep(closed, maxLength, group);
      chunks := chunks + [Trim(currentChunk)];
      closed := closed + [group];
    }
    NoChunkIffNoSentence(text, maxLength);
    ChunksNonEmptyTrimmed(text, maxLength);
    ChunkLengthBound(text, maxLength);
  }

  /** `chunkText(extractedContent)` with `maxLength` left at its default: every chunk holds at most
      4000 characters unless it is one sentence longer than that on its own. */
  method ChunkTextDefault(text: string) returns (chunks: seq<string>)
    ensures chunks == Chunks(text, DefaultMaxLength)
    ensures |chunks| == 0 <==> !HasTerminatedText(text)
    ensures forall i :: 0 <= i < |chunks| ==>
      || |chunks[i]| <= 4000
      || IsOversizedSentence(text, DefaultMaxLength, chunks[i])
  {
    chunks := ChunkText(text, DefaultMaxLength);
  }
}
