/** Facts about sequences that the solver does not find by itself. */
module Sequences {

  lemma Associate<T>(a: seq<T>, b: seq<T>, c: seq<T>)
    ensures a + (b + c) == a + b + c
  {
  }

  lemma SplitAt<T>(l: seq<T>, s: seq<T>, r: seq<T>, t: seq<T>)
    requires |l| == |r| && l + s == r + t
    ensures l == r && s == t
  {
    assert l == (l + s)[..|l|] && r == (r + t)[..|r|];
    assert s == (l + s)[|l|..] && t == (r + t)[|r|..];
  }

  lemma SliceAppend<T>(s: seq<T>, i: nat, j: nat)
    requires i <= j < |s|
    ensures s[i..j + 1] == s[i..j] + [s[j]]
  {
  }

  lemma SliceOfSlice<T>(s: seq<T>, a: nat, b: nat, i: nat, j: nat)
    requires a <= i <= j <= b <= |s|
    ensures s[a..b][i - a..j - a] == s[i..j]
  {
    forall k | 0 <= k < j - i
      ensures s[a..b][i - a..j - a][k] == s[i..j][k]
    {
      assert s[a..b][i - a + k] == s[i + k];
    }
  }
}
