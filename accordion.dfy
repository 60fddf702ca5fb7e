/** The FAQ accordion: a list of items, each with an `active` class that shows
    its answer. */
module Accordion {
  import opened Flags

  /** The markers after a click on the question of item `k`: every other item
      is closed and item `k` has flipped, so whatever the markers were
      before, at most one item is open afterwards. */
  function Clicked(s: seq<bool>, k: int): (r: seq<bool>)
    requires 0 <= k < |s|
    ensures |r| == |s|
    ensures forall j :: 0 <= j < |s| && j != k ==> !r[j]
    ensures r[k] == !s[k]
    ensures AtMostOne(r)
  {
    var r := seq(|s|, j requires 0 <= j < |s| => if j == k then !s[k] else false);
    CountSingle(r, k);
    r
  }

  /** Opening item `b` while item `a` is open closes `a` and opens `b`: the
      two are never open together. */
  lemma OpenOtherCloses(s: seq<bool>, a: int, b: int)
    requires 0 <= a < |s| && 0 <= b < |s| && a != b
    requires s[a] && !s[b]
    ensures !Clicked(s, b)[a] && Clicked(s, b)[b]
    ensures ExactlyOne(Clicked(s, b))
  {
  }

  /** A click on the open item closes everything. */
  lemma ClickOpenClosesAll(s: seq<bool>, k: int)
    requires 0 <= k < |s| && s[k]
    ensures Count(Clicked(s, k)) == 0
  {
  }

  /** From a state in which only item `k` may be open (the state any click on
      `k` leaves), a second click on `k` restores it. */
  lemma ClickTwice(s: seq<bool>, k: int)
    requires 0 <= k < |s|
    requires forall j :: 0 <= j < |s| && j != k ==> !s[j]
    ensures Clicked(Clicked(s, k), k) == s
  {
  }

  /** The list of FAQ items and their `active` markers, updated in place. */
  class FaqList {
    var active: array<bool>

    /** The page markup starts with every item closed. */
    constructor (n: nat)
      ensures fresh(active) && active.Length == n
      ensures forall j :: 0 <= j < n ==> !active[j]
    {
      active := new bool[n](_ => false);
    }

    /** The click listener on item `k`'s question: first close every other
        open item, then toggle item `k`. */
    method ClickQuestion(k: int)
      requires 0 <= k < active.Length
      modifies active
      ensures active[..] == Clicked(old(active[..]), k)
      ensures AtMostOne(active[..])
    {
      var j := 0;
      while j < active.Length
        invariant 0 <= j <= active.Length
        invariant forall m :: 0 <= m < j && m != k ==> !active[m]
        invariant forall m :: 0 <= m < active.Length && (j <= m || m == k) ==> active[m] == old(active[m])
      {
        if j != k && active[j] {
          active[j] := false;
        }
        j := j + 1;
      }
      active[k] := !active[k];
    }
  }
}
