/** Generic facts about sequences of sequences and about subsequences. */
module Seqs {

  /** Concatenation of the members of `xss`, in order. */
  function Flatten<T>(xss: seq<seq<T>>): seq<T>
  {
    if |xss| == 0 then [] else xss[0] + Flatten(xss[1..])
  }

  /** Flattens every member of a sequence of sequences of sequences. */
  function FlattenEach<T>(xsss: seq<seq<seq<T>>>): (r: seq<seq<T>>)
    ensures |r| == |xsss|
    ensures forall i :: 0 <= i < |xsss| ==> r[i] == Flatten(xsss[i])
  {
    seq(|xsss|, i requires 0 <= i < |xsss| => Flatten(xsss[i]))
  }

  lemma {:induction false} FlattenAppend<T>(a: seq<seq<T>>, b: seq<seq<T>>)
    ensures Flatten(a + b) == Flatten(a) + Flatten(b)
  {
    if |a| == 0 {
      assert a + b == b;
    } else {
      assert (a + b)[1..] == a[1..] + b;
      FlattenAppend(a[1..], b);
    }
  }

  /** The first element of a flattened sequence is the first element of its first member. */
  lemma FlattenHead<T>(xss: seq<seq<T>>)
    requires |xss| > 0 && |xss[0]| > 0
    ensures |Flatten(xss)| > 0 && Flatten(xss)[0] == xss[0][0]
  {
  }

  /** Flattening is monotone in the prefix taken. */
  lemma FlattenPrefixLength<T>(xss: seq<seq<T>>, i: nat, j: nat)
    requires i <= j <= |xss|
    ensures |Flatten(xss[..i])| <= |Flatten(xss[..j])|
  {
    assert xss[..j] == xss[..i] + xss[i..j];
    FlattenAppend(xss[..i], xss[i..j]);
  }

  /** Every member of a member of `xss` occurs in the flattening of `xss`. */
  lemma {:induction false} FlattenContains<T>(xss: seq<seq<T>>, i: nat, k: nat)
    requires i < |xss| && k < |xss[i]|
    ensures xss[i][k] in Flatten(xss)
  {
    if i > 0 {
      FlattenContains(xss[1..], i - 1, k);
    }
  }

  /** Flattening twice equals flattening each member and then flattening the results. */
  lemma {:induction false} FlattenOfFlattenEach<T>(xsss: seq<seq<seq<T>>>)
    ensures Flatten(FlattenEach(xsss)) == Flatten(Flatten(xsss))
  {
    if |xsss| > 0 {
      FlattenOfFlattenEach(xsss[1..]);
      assert FlattenEach(xsss) == [Flatten(xsss[0])] + FlattenEach(xsss[1..]);
      assert FlattenEach(xsss)[1..] == FlattenEach(xsss[1..]);
      FlattenAppend(xsss[0], Flatten(xsss[1..]));
    }
  }

  /** `a` is obtained from `b` by deleting elements, keeping the rest in order. */
  predicate IsSubsequence<T(==)>(a: seq<T>, b: seq<T>)
    decreases |b|
  {
    |a| == 0 || (|b| > 0 && ((a[0] == b[0] && IsSubsequence(a[1..], b[1..])) || IsSubsequence(a, b[1..])))
  }

  lemma {:induction false} SubsequenceLength<T>(a: seq<T>, b: seq<T>)
    requires IsSubsequence(a, b)
    ensures |a| <= |b|
    decreases |b|
  {
    if |a| > 0 {
      if a[0] == b[0] && IsSubsequence(a[1..], b[1..]) {
        SubsequenceLength(a[1..], b[1..]);
      } else {
        SubsequenceLength(a, b[1..]);
      }
    }
  }

  lemma {:induction false} SubsequenceReflexive<T>(a: seq<T>)
    ensures IsSubsequence(a, a)
  {
    if |a| > 0 {
      SubsequenceReflexive(a[1..]);
    }
  }

  lemma {:induction false} SubsequenceTransitive<T>(a: seq<T>, b: seq<T>, c: seq<T>)
    requires IsSubsequence(a, b) && IsSubsequence(b, c)
    ensures IsSubsequence(a, c)
    decreases |c|
  {
    if |a| == 0 {
    } else if |b| == 0 {
    } else if b[0] == c[0] && IsSubsequence(b[1..], c[1..]) {
      if a[0] == b[0] && IsSubsequence(a[1..], b[1..]) {
        SubsequenceTransitive(a[1..], b[1..], c[1..]);
      } else {
        SubsequenceTransitive(a, b[1..], c[1..]);
      }
    } else {
      SubsequenceTransitive(a, b, c[1..]);
    }
  }

  /** Deleting a prefix of `b` keeps a subsequence of what remains a subsequence of `b`. */
  lemma {:induction false} SubsequenceOfSuffix<T>(a: seq<T>, b: seq<T>, n: nat)
    requires n <= |b| && IsSubsequence(a, b[n..])
    ensures IsSubsequence(a, b)
    decreases n
  {
    if n > 0 {
      assert b[n..] == b[1..][n - 1..];
      SubsequenceOfSuffix(a, b[1..], n - 1);
      assert |a| == 0 || IsSubsequence(a, b[1..]);
    }
  }
  /** A prefix of `b` is a subsequence of `b`. */
  lemma {:induction false} PrefixIsSubsequence<T>(b: seq<T>, n: nat)
    requires n <= |b|
    ensures IsSubsequence(b[..n], b)
    decreases n
  {
    if n > 0 {
      assert b[..n][1..] == b[1..][..n - 1];
      PrefixIsSubsequence(b[1..], n - 1);
    }
  }

  /** A contiguous slice of `b` is a subsequence of `b`. */
  lemma SliceIsSubsequence<T>(b: seq<T>, i: nat, j: nat)
    requires i <= j <= |b|
    ensures IsSubsequence(b[i..j], b)
  {
    assert b[i..j] == b[i..][..j - i];
    PrefixIsSubsequence(b[i..], j - i);
    SubsequenceOfSuffix(b[i..j], b, i);
  }
  /** A subsequence as long as the sequence is the sequence itself. */
  lemma {:induction false} SubsequenceSameLength<T>(a: seq<T>, b: seq<T>)
    requires IsSubsequence(a, b) && |a| == |b|
    ensures a == b
    decreases |b|
  {
    if |a| > 0 {
      if a[0] == b[0] && IsSubsequence(a[1..], b[1..]) {
        SubsequenceSameLength(a[1..], b[1..]);
        assert a == [a[0]] + a[1..];
        assert b == [b[0]] + b[1..];
      } else {
        SubsequenceLength(a, b[1..]);
      }
    }
  }
  /** A slice of a suffix is a slice of the whole sequence. */
  lemma SliceOfSuffix<T>(s: seq<T>, d: nat, a: nat, m: seq<T>)
    requires d <= |s| && a + |m| <= |s| - d && s[d..][a..a + |m|] == m
    ensures d + a + |m| <= |s| && s[d + a..d + a + |m|] == m
  {
    assert s[d..][a..a + |m|] == s[d + a..d + a + |m|];
  }

  /** A prefix followed by the start of what comes after it is a longer prefix. */
  lemma PrefixThenSlice<T>(s: seq<T>, n: nat, m: seq<T>)
    requires n <= |s| && |m| <= |s| - n && s[n..][..|m|] == m
    ensures n + |m| <= |s| && s[..n] + m == s[..n + |m|]
  {
    assert s[n..][..|m|] == s[n..n + |m|];
    assert s[..n] + s[n..n + |m|] == s[..n + |m|];
  }
}
