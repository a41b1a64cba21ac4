/** Slices, concatenations and prefixes of sequences, as the other modules cut them. */
module Sequences {

  lemma SliceOfSlice<T>(s: seq<T>, from: nat, to: nat, i: nat, j: nat)
    requires from <= to <= |s| && i <= j <= to - from
    ensures s[from..to][i..j] == s[from + i..from + j]
  {
    forall k | 0 <= k < j - i
      ensures s[from..to][i..j][k] == s[from + i..from + j][k]
    {
    }
  }

  lemma Prefix<T>(s: seq<T>, head: nat, i: nat, j: nat)
    requires i <= j <= head <= |s|
    ensures s[..head][i..j] == s[i..j]
  {
  }

  lemma Associate<T>(a: seq<T>, b: seq<T>, c: seq<T>)
    ensures a + b + c == a + (b + c)
  {
  }

  /** A sequence is a header and a rest exactly when it starts with the one and goes on with the other. */
  lemma SplitAt<T>(s: seq<T>, header: seq<T>, rest: seq<T>)
    requires |header| <= |s|
    ensures s == header + rest <==> s[..|header|] == header && s[|header|..] == rest
  {
    assert s == s[..|header|] + s[|header|..];
  }

  lemma FourParts<T>(s: seq<T>, a: nat, b: nat, c: nat, d: nat, e: nat)
    requires a <= b <= c <= d <= e <= |s|
    ensures s[a..e] == s[a..b] + s[b..c] + s[c..d] + s[d..e]
  {
    assert s[a..c] == s[a..b] + s[b..c];
    assert s[a..d] == s[a..c] + s[c..d];
    assert s[a..e] == s[a..d] + s[d..e];
  }

  /** A run found at some place that is two runs back to back. */
  lemma SplitRun<T>(s: seq<T>, at: nat, first: seq<T>, second: seq<T>)
    requires at + |first| + |second| <= |s|
    requires s[at..at + |first| + |second|] == first + second
    ensures s[at..at + |first|] == first
    ensures s[at + |first|..at + |first| + |second|] == second
  {
    var end := at + |first| + |second|;
    SliceOfSlice(s, at, end, 0, |first|);
    SliceOfSlice(s, at, end, |first|, |first| + |second|);
    assert (first + second)[0..|first|] == first;
    assert (first + second)[|first|..|first| + |second|] == second;
  }

  /** Two runs found back to back are one. */
  lemma JoinRuns<T>(s: seq<T>, at: nat, first: seq<T>, second: seq<T>)
    requires at + |first| + |second| <= |s|
    requires s[at..at + |first|] == first
    requires s[at + |first|..at + |first| + |second|] == second
    ensures s[at..at + |first| + |second|] == first + second
  {
    var end := at + |first| + |second|;
    assert s[at..end] == s[at..at + |first|] + s[at + |first|..end];
  }

  lemma PrefixBehind<T>(front: seq<T>, part: seq<T>, whole: seq<T>)
    requires part <= whole
    ensures front + part <= front + whole
  {
    assert front + whole == front + part + whole[|part|..];
  }

  /** What starts a prefix of a prefix starts the whole. */
  lemma RestBehindPart<T>(part: seq<T>, next: seq<T>, middle: seq<T>, n: nat, whole: seq<T>)
    requires n <= |middle| && middle[..n] == part + next && middle <= whole
    ensures |part| <= |whole| && whole == part + whole[|part|..]
  {
    assert |part| <= n;
    assert whole[..n] == middle[..n];
    assert whole[..|part|] == whole[..n][..|part|] == (part + next)[..|part|] == part;
  }

  /** The parts of a list, back to back. */
  function Flatten<T>(parts: seq<seq<T>>): seq<T>
    decreases |parts|
  {
    if parts == [] then []
    else
      var last := |parts| - 1;
      Flatten(parts[..last]) + parts[last]
  }

  lemma FlattenSnoc<T>(parts: seq<seq<T>>, part: seq<T>)
    ensures Flatten(parts + [part]) == Flatten(parts) + part
  {
    assert (parts + [part])[..|parts|] == parts;
  }

  lemma FlattenOne<T>(part: seq<T>)
    ensures Flatten([part]) == part
  {
    assert [part][..0] == [] && [] + part == part;
  }

  lemma {:induction false} FlattenConcat<T>(parts: seq<seq<T>>, more: seq<seq<T>>)
    ensures Flatten(parts + more) == Flatten(parts) + Flatten(more)
    decreases |more|
  {
    if more == [] {
      assert parts + more == parts;
    } else {
      var init, last := more[..|more| - 1], more[|more| - 1];
      FlattenConcat(parts, init);
      assert parts + more == (parts + init) + [last];
      FlattenSnoc(parts + init, last);
      assert more == init + [last];
      FlattenSnoc(init, last);
      Associate(Flatten(parts), Flatten(init), last);
    }
  }
}
