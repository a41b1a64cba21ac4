/** Writing a run of cells into a buffer, and what the rest of the buffer keeps. */
module Buffers {

  /** `after` is `before` with `s` written at `at`, and nothing else changed. */
  ghost predicate Wrote<T>(before: seq<T>, after: seq<T>, at: nat, s: seq<T>) {
    && at + |s| <= |before| == |after|
    && after[..at] == before[..at]
    && after[at..at + |s|] == s
    && after[at + |s|..] == before[at + |s|..]
  }

  lemma WroteNothing<T>(before: seq<T>, at: nat)
    requires at <= |before|
    ensures Wrote(before, before, at, [])
  {
  }

  /** Two adjacent writes are one. */
  lemma WroteThen<T>(before: seq<T>, middle: seq<T>, after: seq<T>, at: nat, s: seq<T>, t: seq<T>)
    requires Wrote(before, middle, at, s) && Wrote(middle, after, at + |s|, t)
    ensures Wrote(before, after, at, s + t)
  {
    var end := at + |s| + |t|;
    assert after[..at] == after[..at + |s|][..at];
    assert after[at..at + |s|] == after[..at + |s|][at..] == middle[..at + |s|][at..];
    assert after[at..end] == after[at..at + |s|] + after[at + |s|..end];
    assert middle[end..] == middle[at + |s|..][|t|..] == before[at + |s|..][|t|..] == before[end..];
  }

  /** Rewriting the end of the first of two adjacent writes. */
  lemma WrotePatched<T>(
      before: seq<T>, first: seq<T>, second: seq<T>, after: seq<T>, s: seq<T>, t: seq<T>, at: nat, patch: seq<T>)
    requires Wrote(before, first, 0, s) && Wrote(first, second, |s|, t)
    requires at + |patch| == |s| && Wrote(second, after, at, patch)
    ensures Wrote(before, after, 0, s[..at] + patch + t)
  {
    var end := |s| + |t|;
    WroteThen(before, first, second, 0, s, t);
    assert second[..end] == s + t && second[end..] == before[end..];
    assert after[..at] == second[..at] == second[..end][..at] == s[..at];
    assert after[|s|..end] == after[|s|..][..|t|] == second[|s|..][..|t|] == second[..end][|s|..] == t;
    assert after[..end] == after[..at] + after[at..|s|] + after[|s|..end];
    assert after[end..] == after[|s|..][|t|..] == second[|s|..][|t|..] == second[end..];
  }

  /** What one written cell, and one other cell, hold afterwards. */
  lemma WroteCell<T>(before: seq<T>, after: seq<T>, at: nat, s: seq<T>, i: nat)
    requires Wrote(before, after, at, s) && i < |after|
    ensures after[i] == if at <= i < at + |s| then s[i - at] else before[i]
  {
    if i < at {
      assert after[i] == after[..at][i];
    } else if i < at + |s| {
      assert after[i] == after[at..at + |s|][i - at];
    } else {
      assert after[i] == after[at + |s|..][i - at - |s|];
    }
  }

  method Copy<T>(dest: array<T>, at: nat, s: seq<T>)
    requires at + |s| <= dest.Length
    modifies dest
    ensures Wrote(old(dest[..]), dest[..], at, s)
  {
    var i := 0;
    while i < |s|
      invariant 0 <= i <= |s|
      invariant forall k :: at <= k < at + i ==> dest[k] == s[k - at]
      invariant forall k :: 0 <= k < dest.Length && !(at <= k < at + i) ==> dest[k] == old(dest[k])
    {
      dest[at + i] := s[i];
      i := i + 1;
    }
  }
}
