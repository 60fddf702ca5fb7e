/** Per-element boolean markers (a CSS class present or absent on each
    element of a list of page elements) and how many of them are set. */
module Flags {

  /** The number of elements of `s` that carry the marker. */
  function Count(s: seq<bool>): (c: nat)
    ensures c <= |s|
    ensures c == 0 <==> forall j :: 0 <= j < |s| ==> !s[j]
  {
    if s == [] then 0
    else
      var rest := Count(s[1..]);
      assert forall j :: 1 <= j < |s| ==> s[1..][j - 1] == s[j];
      (if s[0] then 1 else 0) + rest
  }

  /** At most one element carries the marker. */
  predicate AtMostOne(s: seq<bool>) {
    Count(s) <= 1
  }

  /** Exactly one element carries the marker. */
  predicate ExactlyOne(s: seq<bool>) {
    Count(s) == 1
  }

  /** When no element other than position `k` is marked, the count is
      0 or 1 according to the marker at `k`. */
  lemma {:induction false} CountSingle(s: seq<bool>, k: int)
    requires forall j :: 0 <= j < |s| && j != k ==> !s[j]
    ensures Count(s) == (if 0 <= k < |s| && s[k] then 1 else 0)
  {
    if s != [] {
      forall j | 0 <= j < |s[1..]| && j != k - 1
        ensures !s[1..][j]
      {
        assert s[1..][j] == s[j + 1];
      }
      CountSingle(s[1..], k - 1);
      if 1 <= k < |s| {
        assert s[1..][k - 1] == s[k];
      }
    }
  }

  /** Two distinct marked positions make the count at least two. */
  lemma {:induction false} CountTwo(s: seq<bool>, i: int, j: int)
    requires 0 <= i < |s| && 0 <= j < |s| && i != j
    requires s[i] && s[j]
    ensures Count(s) >= 2
  {
    if i == 0 {
      assert s[1..][j - 1] == s[j];
      assert Count(s[1..]) != 0;
    } else if j == 0 {
      assert s[1..][i - 1] == s[i];
      assert Count(s[1..]) != 0;
    } else {
      assert s[1..][i - 1] == s[i] && s[1..][j - 1] == s[j];
      CountTwo(s[1..], i - 1, j - 1);
    }
  }

  /** Exactly one marked element pins down the whole list: once position `i`
      is known to be marked, every other position is unmarked. Together with
      CountSingle this makes "exactly one marked" and "marked at `i` and
      nowhere else" the same thing. */
  lemma ExactlyOneAt(s: seq<bool>, i: int)
    requires ExactlyOne(s) && 0 <= i < |s| && s[i]
    ensures forall j :: 0 <= j < |s| && j != i ==> !s[j]
  {
    forall j | 0 <= j < |s| && j != i
      ensures !s[j]
    {
      if s[j] {
        CountTwo(s, i, j);
      }
    }
  }
}
