/** Plain text operations of Go's strings package, on sequences of bytes. */
module Texts {

  /** Position of the first `c` in `s`, or `|s|` when there is none. */
  function IndexOf(s: string, c: char): (k: nat)
    ensures k <= |s|
    ensures forall i :: 0 <= i < k ==> s[i] != c
    ensures k < |s| ==> s[k] == c
  {
    if s == "" then 0 else if s[0] == c then 0 else 1 + IndexOf(s[1..], c)
  }

  lemma IndexOfUnique(s: string, c: char, k: nat)
    requires k <= |s|
    requires forall i :: 0 <= i < k ==> s[i] != c
    requires k < |s| ==> s[k] == c
    ensures IndexOf(s, c) == k
  {
  }

  /** `strings.Split` for a one-byte separator: always at least one part. */
  function Split(s: string, c: char): (parts: seq<string>)
    ensures |parts| >= 1
  {
    if s == "" then [""]
    else
      var before, last := Split(s[..|s| - 1], c), s[|s| - 1];
      if last == c then before + [""]
      else before[..|before| - 1] + [before[|before| - 1] + [last]]
  }

  lemma {:induction false} SplitWithout(s: string, c: char)
    requires c !in s
    ensures Split(s, c) == [s]
  {
    if s != "" {
      SplitWithout(s[..|s| - 1], c);
      assert s[..|s| - 1] + [s[|s| - 1]] == s;
    }
  }

  /** What follows the last separator is the last part. */
  lemma {:induction false} SplitAtLast(before: string, after: string, c: char)
    requires c !in after
    ensures Split(before + [c] + after, c) == Split(before, c) + [after]
  {
    var s := before + [c] + after;
    if after == "" {
      assert s[..|s| - 1] == before;
    } else {
      assert s[..|s| - 1] == before + [c] + after[..|after| - 1];
      SplitAtLast(before, after[..|after| - 1], c);
      assert after[..|after| - 1] + [after[|after| - 1]] == after;
    }
  }

  /** One separator gives the text before and the text after it. */
  lemma SplitAtOne(before: string, after: string, c: char)
    requires c !in before && c !in after
    ensures Split(before + [c] + after, c) == [before, after]
  {
    SplitWithout(before, c);
    SplitAtLast(before, after, c);
  }

  function Reversed(s: string): (r: string)
    ensures |r| == |s|
    ensures forall i :: 0 <= i < |s| ==> r[i] == s[|s| - 1 - i]
  {
    if s == "" then "" else Reversed(s[1..]) + [s[0]]
  }

  lemma ReversedCons(c: char, s: string)
    ensures Reversed([c] + s) == Reversed(s) + [c]
  {
  }

  lemma ReversedTwice(s: string)
    ensures Reversed(Reversed(s)) == s
  {
  }

  /** `s` with every `c` deleted. */
  function Without(s: string, c: char): (r: string)
    ensures c !in r
  {
    if s == "" then ""
    else (if s[0] == c then "" else [s[0]]) + Without(s[1..], c)
  }

  lemma {:induction false} WithoutConcat(a: string, b: string, c: char)
    ensures Without(a + b, c) == Without(a, c) + Without(b, c)
  {
    if a == "" {
      assert a + b == b;
    } else {
      assert (a + b)[1..] == a[1..] + b;
      WithoutConcat(a[1..], b, c);
    }
  }

  lemma {:induction false} WithoutNone(s: string, c: char)
    requires c !in s
    ensures Without(s, c) == s
  {
    if s != "" {
      WithoutNone(s[1..], c);
      assert s == [s[0]] + s[1..];
    }
  }
}
