/** Effects driven by the window's scroll position: the header's `scrolled`
    class, and the one-way reveal of a fixed list of page sections. */
module ScrollEffects {

  /** Vertical scroll offset, in pixels, past which the header is restyled. */
  const HeaderThreshold := 50

  /** How far, in pixels, an element's top edge must be above the bottom of
      the viewport before it is revealed. */
  const RevealMargin := 100

  /** The page header and its `scrolled` class. */
  class Header {
    var scrolled: bool

    constructor ()
      ensures !scrolled
    {
      scrolled := false;
    }

    /** The scroll listener: the marker is recomputed from the current offset
        alone, whatever it was before. */
    method OnScroll(scrollY: int)
      modifies this
      ensures scrolled <==> scrollY > HeaderThreshold
    {
      if scrollY > HeaderThreshold {
        scrolled := true;
      } else {
        scrolled := false;
      }
    }
  }

  /** What the viewport reports at one scroll event: the top edge of each
      tracked element relative to the viewport, and the viewport's height. */
  datatype Viewport = Viewport(tops: seq<int>, innerHeight: int)

  /** An element is past the threshold when its top edge lies above the line
      `RevealMargin` pixels from the bottom of the viewport. */
  predicate PastThreshold(v: Viewport, i: nat)
    requires i < |v.tops|
  {
    v.tops[i] < v.innerHeight - RevealMargin
  }

  /** One run of `animateOnScroll` on the "shown" markers `s`. */
  function RevealStep(s: seq<bool>, v: Viewport): (r: seq<bool>)
    requires |v.tops| == |s|
    ensures |r| == |s|
    // never hides an element that was shown
    ensures forall i :: 0 <= i < |s| && s[i] ==> r[i]
    // shows every element that is past the threshold
    ensures forall i :: 0 <= i < |s| && PastThreshold(v, i) ==> r[i]
    // shows nothing else
    ensures forall i :: 0 <= i < |s| && r[i] && !s[i] ==> PastThreshold(v, i)
  {
    seq(|s|, i requires 0 <= i < |s| => s[i] || PastThreshold(v, i))
  }

  /** Running the step again on the same viewport changes nothing. */
  lemma RevealStepIdempotent(s: seq<bool>, v: Viewport)
    requires |v.tops| == |s|
    ensures RevealStep(RevealStep(s, v), v) == RevealStep(s, v)
  {
  }

  /** Every viewport in a history reports one top edge per element. */
  predicate Matches(history: seq<Viewport>, n: nat) {
    forall k :: 0 <= k < |history| ==> |history[k].tops| == n
  }

  /** The markers after the listener has run once per scroll event in
      `history`, oldest first. */
  function RevealAll(s: seq<bool>, history: seq<Viewport>): (r: seq<bool>)
    requires Matches(history, |s|)
    ensures |r| == |s|
    decreases |history|
  {
    if history == [] then s
    else RevealAll(RevealStep(s, history[0]), history[1..])
  }

  /** Across any history of scroll events, an element ends up shown exactly
      when it was shown at the start or some event found it past the
      threshold: the reveal is one-way and happens only at the threshold. */
  lemma {:induction false} RevealAllShown(s: seq<bool>, history: seq<Viewport>, i: nat)
    requires Matches(history, |s|) && i < |s|
    ensures RevealAll(s, history)[i] <==>
      s[i] || exists k :: 0 <= k < |history| && PastThreshold(history[k], i)
    decreases |history|
  {
    if history != [] {
      var s' := RevealStep(s, history[0]);
      assert Matches(history[1..], |s'|) by {
        forall k | 0 <= k < |history[1..]|
          ensures |history[1..][k].tops| == |s'|
        {
          assert history[1..][k] == history[k + 1];
        }
      }
      RevealAllShown(s', history[1..], i);
      if exists k :: 0 <= k < |history[1..]| && PastThreshold(history[1..][k], i) {
        var k :| 0 <= k < |history[1..]| && PastThreshold(history[1..][k], i);
        assert history[1..][k] == history[k + 1];
      }
      if exists k :: 0 <= k < |history| && PastThreshold(history[k], i) {
        var k :| 0 <= k < |history| && PastThreshold(history[k], i);
        if k > 0 {
          assert history[1..][k - 1] == history[k];
        }
      }
    }
  }

  /** The elements that fade in, with their "shown" markers (opacity 1 and no
      vertical offset) held in place. */
  class Reveal {
    var shown: array<bool>

    /** Start-up hides every tracked element. */
    constructor (n: nat)
      ensures fresh(shown) && shown.Length == n
      ensures forall i :: 0 <= i < n ==> !shown[i]
    {
      shown := new bool[n](_ => false);
    }

    /** `animateOnScroll`, run once at load and on every scroll event. */
    method AnimateOnScroll(v: Viewport)
      requires |v.tops| == shown.Length
      modifies shown
      ensures shown[..] == RevealStep(old(shown[..]), v)
    {
      var i := 0;
      while i < shown.Length
        invariant 0 <= i <= shown.Length
        invariant forall j :: 0 <= j < i ==> shown[j] == (old(shown[j]) || PastThreshold(v, j))
        invariant forall j :: i <= j < shown.Length ==> shown[j] == old(shown[j])
      {
        if v.tops[i] < v.innerHeight - RevealMargin {
          shown[i] := true;
        }
        i := i + 1;
      }
    }
  }
}
