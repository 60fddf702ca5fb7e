/** The testimonial carousel: N cards of which one is shown, a row of N dots
    that mirror the cards, previous/next buttons, keyboard navigation inside
    the dot row, and an interval timer that advances the carousel every few
    seconds. The timer is cleared by every `mouseenter` and `focusin` on the
    slider and started afresh by every `mouseleave` and `focusout` (which
    also fire when the focus moves from one dot to another) and by every
    click on a dot or a button, whether or not the pointer is still inside. */
module Carousel {
  import opened Flags

  datatype Option<T> = None | Some(value: T)

  /** JavaScript's `%` on integers: the remainder takes the sign of the
      dividend (it truncates toward zero). On a non-negative dividend it
      agrees with Dafny's `%`. */
  function JsRem(a: int, b: int): (r: int)
    requires b > 0
    ensures -b < r < b
    ensures a >= 0 ==> r == a % b
    ensures a < 0 ==> r <= 0
  {
    if a >= 0 then a % b else -((-a) % b)
  }

  /** Multiplying by a positive factor does not shrink a positive number. */
  lemma MulAtLeast(q: int, n: int)
    requires q >= 1 && n > 0
    ensures q * n >= n
  {
  }

  /** The remainder is determined by any quotient-remainder split. */
  lemma ModUnique(x: int, n: int, q: int, r: int)
    requires n > 0 && 0 <= r < n && x == q * n + r
    ensures x % n == r
  {
    var q', r' := x / n, x % n;
    assert x == q' * n + r';
    if q > q' {
      MulAtLeast(q - q', n);
      assert false;
    } else if q < q' {
      MulAtLeast(q' - q, n);
      assert false;
    }
  }

  /** Adding the modulus does not change the remainder. */
  lemma ModShift(m: int, n: int)
    requires n > 0
    ensures (m + n) % n == m % n
  {
    var q, r := m / n, m % n;
    assert m == q * n + r;
    assert m + n == (q + 1) * n + r;
    ModUnique(m + n, n, q + 1, r);
  }

  /** One step either way from an index in `[0, n)`, reduced modulo `n`. */
  lemma WrapAround(cur: int, n: int)
    requires 0 <= cur < n
    ensures (cur + 1) % n == if cur == n - 1 then 0 else cur + 1
    ensures (cur - 1 + n) % n == if cur == 0 then n - 1 else cur - 1
  {
    if cur == n - 1 {
      ModUnique(cur + 1, n, 1, 0);
    } else {
      ModUnique(cur + 1, n, 0, cur + 1);
    }
    if cur == 0 {
      ModUnique(cur - 1 + n, n, 0, n - 1);
    } else {
      ModUnique(cur - 1 + n, n, 1, cur - 1);
    }
  }

  /** The index `goToNextTestimonial` moves to: one further, wrapping from
      the last card to the first. */
  function NextIndex(cur: int, n: int): (r: int)
    requires 0 <= cur < n
    ensures 0 <= r < n
    ensures r == if cur == n - 1 then 0 else cur + 1
  {
    WrapAround(cur, n);
    JsRem(cur + 1, n)
  }

  /** The index `goToPrevTestimonial` moves to: one back, wrapping from the
      first card to the last. */
  function PrevIndex(cur: int, n: int): (r: int)
    requires 0 <= cur < n
    ensures 0 <= r < n
    ensures r == if cur == 0 then n - 1 else cur - 1
  {
    WrapAround(cur, n);
    JsRem(cur - 1 + n, n)
  }

  /** Going back undoes going forward, and going forward undoes going back. */
  lemma PrevUndoesNext(cur: int, n: int)
    requires 0 <= cur < n
    ensures PrevIndex(NextIndex(cur, n), n) == cur
    ensures NextIndex(PrevIndex(cur, n), n) == cur
  {
  }

  /** The cursor after `k` successive advances. */
  function Advance(cur: int, n: int, k: nat): (r: int)
    requires 0 <= cur < n
    ensures 0 <= r < n
  {
    if k == 0 then cur else NextIndex(Advance(cur, n, k - 1), n)
  }

  /** The cursor after `k` successive steps back. */
  function Retreat(cur: int, n: int, k: nat): (r: int)
    requires 0 <= cur < n
    ensures 0 <= r < n
    decreases k
  {
    if k == 0 then cur else Retreat(PrevIndex(cur, n), n, k - 1)
  }

  /** Advancing `a` steps and then `b` more is advancing `a + b` steps. */
  lemma {:induction false} AdvanceAdd(cur: int, n: int, a: nat, b: nat)
    requires 0 <= cur < n
    ensures Advance(Advance(cur, n, a), n, b) == Advance(cur, n, a + b)
  {
    if b > 0 {
      AdvanceAdd(cur, n, a, b - 1);
    }
  }

  /** Before the wrap, `k` advances simply add `k`. */
  lemma {:induction false} AdvanceNoWrap(cur: int, n: int, k: nat)
    requires 0 <= cur < n && cur + k < n
    ensures Advance(cur, n, k) == cur + k
  {
    if k > 0 {
      AdvanceNoWrap(cur, n, k - 1);
    }
  }

  /** Once the last card is passed, the count starts again from the first. */
  lemma AdvanceWraps(cur: int, n: int, k: nat)
    requires 0 <= cur < n && cur + k >= n
    ensures Advance(cur, n, k) == Advance(0, n, cur + k - n)
  {
    var d := n - 1 - cur;
    AdvanceNoWrap(cur, n, d);
    AdvanceAdd(cur, n, d, 1);
    assert Advance(cur, n, d + 1) == 0;
    AdvanceAdd(cur, n, d + 1, k - d - 1);
  }

  /** `k` advances from `cur` land on `(cur + k) mod n`. */
  lemma {:induction false} AdvanceRotates(cur: int, n: int, k: nat)
    requires 0 <= cur < n
    ensures Advance(cur, n, k) == (cur + k) % n
    decreases k
  {
    if cur + k < n {
      AdvanceNoWrap(cur, n, k);
      ModUnique(cur + k, n, 0, cur + k);
    } else {
      var m := cur + k - n;
      AdvanceWraps(cur, n, k);
      AdvanceRotates(0, n, m);
      ModShift(m, n);
    }
  }

  /** N advances bring the carousel back to where it started. */
  lemma FullCycle(cur: int, n: int)
    requires 0 <= cur < n
    ensures Advance(cur, n, n) == cur
  {
    AdvanceRotates(cur, n, n);
    ModUnique(cur + n, n, 1, cur);
  }

  /** `k` steps back undo `k` steps forward. */
  lemma {:induction false} RetreatUndoesAdvance(cur: int, n: int, k: nat)
    requires 0 <= cur < n
    ensures Retreat(Advance(cur, n, k), n, k) == cur
  {
    if k > 0 {
      RetreatUndoesAdvance(cur, n, k - 1);
    }
  }

  /** The class and ARIA attribute of one card element. */
  datatype Card = Card(active: bool, ariaHidden: bool)

  /** The class and ARIA attributes of one dot element. */
  datatype Dot = Dot(active: bool, ariaSelected: bool, tabIndex: int)

  /** The cards as `showTestimonial(k)` leaves them. */
  function CardsShowing(n: nat, k: int): seq<Card> {
    seq(n, j => Card(j == k, j != k))
  }

  /** The dots as `showTestimonial(k)` leaves them: only dot `k` is in the
      tab order. */
  function DotsShowing(n: nat, k: int): seq<Dot> {
    seq(n, j => Dot(j == k, j == k, if j == k then 0 else -1))
  }

  function ActiveCards(cards: seq<Card>): seq<bool> {
    seq(|cards|, j requires 0 <= j < |cards| => cards[j].active)
  }

  function ActiveDots(dots: seq<Dot>): seq<bool> {
    seq(|dots|, j requires 0 <= j < |dots| => dots[j].active)
  }

  /** After `showTestimonial(k)` exactly one card and exactly one dot are
      active, both at `k`; each card is hidden from assistive technology
      exactly when it is inactive, and each dot is selected and reachable
      with the Tab key exactly when it is active. */
  lemma ShowingExactlyOne(n: nat, k: int)
    requires 0 <= k < n
    ensures ExactlyOne(ActiveCards(CardsShowing(n, k))) && CardsShowing(n, k)[k].active
    ensures ExactlyOne(ActiveDots(DotsShowing(n, k))) && DotsShowing(n, k)[k].active
    ensures forall j :: 0 <= j < n ==> CardsShowing(n, k)[j].ariaHidden == !CardsShowing(n, k)[j].active
    ensures forall j :: 0 <= j < n ==>
      var d := DotsShowing(n, k)[j];
      d.ariaSelected == d.active && (d.tabIndex == 0 <==> d.active) && (d.tabIndex == -1 <==> !d.active)
  {
    CountSingle(ActiveCards(CardsShowing(n, k)), k);
    CountSingle(ActiveDots(DotsShowing(n, k)), k);
  }

  /** Conversely, cards with exactly one active, at `k`, and `aria-hidden`
      the negation of the class, are exactly the cards `showTestimonial(k)`
      leaves; likewise for dots whose selection and tab index follow the
      class. So "exactly one active" pins down the whole display. */
  lemma ExactlyOneIsShowing(cards: seq<Card>, dots: seq<Dot>, k: int)
    requires 0 <= k < |cards| && 0 <= k < |dots|
    requires ExactlyOne(ActiveCards(cards)) && cards[k].active
    requires ExactlyOne(ActiveDots(dots)) && dots[k].active
    requires forall j :: 0 <= j < |cards| ==> cards[j].ariaHidden == !cards[j].active
    requires forall j :: 0 <= j < |dots| ==>
      dots[j].ariaSelected == dots[j].active && dots[j].tabIndex == (if dots[j].active then 0 else -1)
    ensures cards == CardsShowing(|cards|, k)
    ensures dots == DotsShowing(|dots|, k)
  {
    ExactlyOneAt(ActiveCards(cards), k);
    ExactlyOneAt(ActiveDots(dots), k);
    assert forall j :: 0 <= j < |cards| ==> cards[j].active == ActiveCards(cards)[j];
    assert forall j :: 0 <= j < |dots| ==> dots[j].active == ActiveDots(dots)[j];
  }

  /** Keys the carousel reacts to. */
  datatype Key = Enter | Space | ArrowRight | ArrowLeft | Home | End | OtherKey

  /** The card the document-level key handler shows when a key is pressed
      with the focus inside the dot row; other keys leave the cursor alone. */
  function KeyTarget(key: Key, cur: int, n: int): (r: int)
    requires 0 <= cur < n
    ensures 0 <= r < n
    ensures key == Home ==> r == 0
    ensures key == End ==> r == n - 1
    ensures key == ArrowRight ==> r == NextIndex(cur, n)
    ensures key == ArrowLeft ==> r == PrevIndex(cur, n)
    ensures key !in {ArrowRight, ArrowLeft, Home, End} ==> r == cur
  {
    match key
    case ArrowRight => NextIndex(cur, n)
    case ArrowLeft => PrevIndex(cur, n)
    case Home => 0
    case End => n - 1
    case _ => cur
  }

  /** The carousel's DOM markers, its cursor and its auto-rotate timer. */
  class Slider {
    var cards: array<Card>
    var dots: array<Dot>
    /** `currentTestimonial` */
    var current: int
    /** `autoRotateInterval`: the handle of the last interval started, kept
        after the interval is cleared; `None` while nothing was started. */
    var interval: Option<nat>
    /** The browser's side of the timer: handles of the intervals still
        running. */
    var live: set<nat>
    /** The handle the browser gives the next interval; handles are positive,
        so a stored handle always counts as set. */
    var nextHandle: nat

    /** The markup the script assumes: at least one card, and one dot per
        card. */
    ghost predicate Shape()
      reads this
    {
      cards.Length >= 1 && dots.Length == cards.Length
    }

    /** The cards and dots show card `current`. */
    ghost predicate Displayed()
      reads this, cards, dots
    {
      0 <= current < cards.Length &&
      cards[..] == CardsShowing(cards.Length, current) &&
      dots[..] == DotsShowing(dots.Length, current)
    }

    /** Only the interval whose handle the script holds can be running, and
        every handle handed out is below `nextHandle`. */
    ghost predicate TimerValid()
      reads this
    {
      nextHandle >= 1 &&
      (forall h :: h in live ==> interval == Some(h)) &&
      (interval.Some? ==> 1 <= interval.value < nextHandle)
    }

    /** What `setupAutoRotate` does to the timer between the old state and
        this one: the interval the script held is no longer running; with
        more than one card a fresh interval, and only it, is running and its
        handle is stored; otherwise nothing runs and the stored handle is
        kept. */
    twostate predicate TimerRestarted()
      reads this
    {
      (old(interval).Some? ==> old(interval).value !in live) &&
      (cards.Length > 1 ==>
        interval == Some(old(nextHandle)) && live == {old(nextHandle)} &&
        nextHandle == old(nextHandle) + 1) &&
      (cards.Length <= 1 ==>
        interval == old(interval) && live == {} && nextHandle == old(nextHandle))
    }

    ghost predicate Valid()
      reads this, cards, dots
    {
      Shape() && Displayed() && TimerValid()
    }

    /** The carousel advances on its own. */
    ghost predicate Armed()
      reads this
    {
      live != {}
    }

    /** At most one interval ever drives the carousel. */
    lemma AtMostOneTimer()
      requires TimerValid()
      ensures |live| <= 1
    {
      if interval.Some? && interval.value in live {
        assert live == {interval.value};
      } else {
        assert live == {};
      }
    }

    /** In a valid carousel exactly one card and one dot are active, and they
        sit at the cursor. */
    lemma ExactlyOneActive()
      requires Valid()
      ensures ExactlyOne(ActiveCards(cards[..])) && cards[current].active
      ensures ExactlyOne(ActiveDots(dots[..])) && dots[current].active
    {
      ShowingExactlyOne(cards.Length, current);
    }

    /** `initTestimonialSlider`: show the first card and start the timer. */
    constructor (n: nat)
      requires n >= 1
      ensures fresh(cards) && fresh(dots) && cards.Length == n
      ensures Valid() && current == 0
      ensures Armed() <==> n > 1
      ensures n > 1 ==> interval == Some(1) && live == {1} && nextHandle == 2
      ensures n <= 1 ==> interval == None && live == {} && nextHandle == 1
    {
      cards := new Card[n];
      dots := new Dot[n];
      current := 0;
      interval := None;
      live := {};
      nextHandle := 1;
      new;
      Show(0);
      SetupAutoRotate();
    }

    /** `showTestimonial(index)`: mark card and dot `index` active and every
        other one inactive, then move the cursor. The timer is untouched. */
    method Show(index: int)
      requires Shape() && 0 <= index < cards.Length
      modifies cards, dots, this`current
      ensures Displayed() && current == index
      ensures cards[..] == CardsShowing(cards.Length, index)
      ensures dots[..] == DotsShowing(dots.Length, index)
    {
      var i := 0;
      while i < cards.Length
        invariant 0 <= i <= cards.Length
        invariant forall j :: 0 <= j < i ==> cards[j] == Card(j == index, j != index)
      {
        var isActive := i == index;
        cards[i] := Card(isActive, !isActive);
        i := i + 1;
      }
      assert cards[..] == CardsShowing(cards.Length, index);
      i := 0;
      while i < dots.Length
        invariant 0 <= i <= dots.Length
        invariant cards[..] == CardsShowing(cards.Length, index)
        invariant forall j :: 0 <= j < i ==> dots[j] == Dot(j == index, j == index, if j == index then 0 else -1)
      {
        var isActive := i == index;
        dots[i] := Dot(isActive, isActive, if isActive then 0 else -1);
        i := i + 1;
      }
      assert dots[..] == DotsShowing(dots.Length, index);
      current := index;
    }

    /** `setupAutoRotate`: clear the interval the script holds, if any, then
        start a new one if there is more than one card. */
    method SetupAutoRotate()
      requires Shape() && TimerValid()
      modifies this`interval, this`live, this`nextHandle
      ensures TimerValid() && |live| <= 1
      ensures Armed() <==> cards.Length > 1
      ensures TimerRestarted()
    {
      if interval.Some? {
        live := live - {interval.value};  // clearInterval
      }
      if cards.Length > 1 {
        var h := nextHandle;  // setInterval(goToNextTestimonial, 5000)
        nextHandle := nextHandle + 1;
        live := live + {h};
        interval := Some(h);
      }
      AtMostOneTimer();
    }

    /** The `mouseenter` and `focusin` listeners: clear the interval the
        script holds, if any, leaving the handle in place. */
    method Pause()
      requires TimerValid()
      modifies this`live
      ensures TimerValid() && !Armed()
      ensures interval == old(interval)
    {
      if interval.Some? {
        live := live - {interval.value};
      }
    }

    /** `goToNextTestimonial`, also what the running interval calls. */
    method Next()
      requires Valid()
      modifies cards, dots, this`current
      ensures Valid() && current == NextIndex(old(current), cards.Length)
    {
      var nextIndex := JsRem(current + 1, cards.Length);
      Show(nextIndex);
    }

    /** `goToPrevTestimonial`. */
    method Prev()
      requires Valid()
      modifies cards, dots, this`current
      ensures Valid() && current == PrevIndex(old(current), cards.Length)
    {
      var prevIndex := JsRem(current - 1 + cards.Length, cards.Length);
      Show(prevIndex);
    }

    /** A click on dot `index` (or Enter or Space on it, `DotKey`): show that
        card and restart the timer. */
    method DotClick(index: int)
      requires Valid() && 0 <= index < dots.Length
      modifies cards, dots, this`current, this`interval, this`live, this`nextHandle
      ensures Valid() && current == index
      ensures Armed() <==> cards.Length > 1
      ensures TimerRestarted()
    {
      Show(index);
      SetupAutoRotate();
    }

    /** A key pressed on dot `index`: Enter and Space act as a click. */
    method DotKey(index: int, key: Key)
      requires Valid() && 0 <= index < dots.Length
      modifies cards, dots, this`current, this`interval, this`live, this`nextHandle
      ensures Valid()
      ensures key in {Enter, Space} ==> current == index && (Armed() <==> cards.Length > 1)
      ensures key in {Enter, Space} ==> TimerRestarted()
      ensures key !in {Enter, Space} ==>
        current == old(current) && cards[..] == old(cards[..]) && dots[..] == old(dots[..]) &&
        interval == old(interval) && live == old(live) && nextHandle == old(nextHandle)
    {
      if key == Enter || key == Space {
        DotClick(index);
      }
    }

    /** A click on the previous button. */
    method PrevClick()
      requires Valid()
      modifies cards, dots, this`current, this`interval, this`live, this`nextHandle
      ensures Valid() && current == PrevIndex(old(current), cards.Length)
      ensures Armed() <==> cards.Length > 1
      ensures TimerRestarted()
    {
      Prev();
      SetupAutoRotate();
    }

    /** A click on the next button. */
    method NextClick()
      requires Valid()
      modifies cards, dots, this`current, this`interval, this`live, this`nextHandle
      ensures Valid() && current == NextIndex(old(current), cards.Length)
      ensures Armed() <==> cards.Length > 1
      ensures TimerRestarted()
    {
      Next();
      SetupAutoRotate();
    }

    /** The document-level key handler's own statements; `inDots` says
        whether the key event comes from inside the dot row. They do not touch
        the timer; the whole key event, with the dot's own listener before it
        and the focus move after it, is `KeyPress`. */
    method KeyDown(key: Key, inDots: bool)
      requires Valid()
      modifies cards, dots, this`current
      ensures Valid()
      ensures current == if inDots then KeyTarget(key, old(current), cards.Length) else old(current)
    {
      if inDots {
        match key
        case ArrowRight => Next();
        case ArrowLeft => Prev();
        case Home => Show(0);
        case End => Show(cards.Length - 1);
        case _ =>
      }
    }

    /** After the key handlers, the focus lands on another dot than the one
        that held it: a navigation key inside the dot row whose target card
        is not the focused dot. */
    predicate FocusMoves(key: Key, focused: Option<int>)
      reads this
    {
      focused.Some? && key in {ArrowRight, ArrowLeft, Home, End} && current != focused.value
    }

    /** One whole key event with the focus on dot `focused` (`None`: the event
        comes from outside the dot row). The dot's own `keydown` listener runs
        first (`DotKey`): Enter and Space show its card and restart the timer.
        The event then reaches the document listener (`KeyDown`), which moves
        the cursor for the navigation keys and focuses the dot of the new
        card. If that is another dot, focus leaves dot `focused` and enters
        the new one, both inside the slider, so the slider's `focusout`
        listener runs `setupAutoRotate` and then its `focusin` listener clears
        the interval: a fresh handle is stored and nothing runs. */
    method KeyPress(key: Key, focused: Option<int>)
      requires Valid()
      requires focused.Some? ==> 0 <= focused.value < dots.Length
      modifies cards, dots, this`current, this`interval, this`live, this`nextHandle
      ensures Valid()
      ensures current ==
        if focused.None? then old(current)
        else if key in {Enter, Space} then focused.value
        else KeyTarget(key, old(current), cards.Length)
      ensures focused.Some? && key in {Enter, Space} ==>
        TimerRestarted() && (Armed() <==> cards.Length > 1)
      ensures FocusMoves(key, focused) ==>
        !Armed() &&
        interval == (if cards.Length > 1 then Some(old(nextHandle)) else old(interval)) &&
        nextHandle == (if cards.Length > 1 then old(nextHandle) + 1 else old(nextHandle))
      ensures !FocusMoves(key, focused) && !(focused.Some? && key in {Enter, Space}) ==>
        interval == old(interval) && live == old(live) && nextHandle == old(nextHandle)
    {
      if focused.Some? {
        DotKey(focused.value, key);
      }
      KeyDown(key, focused.Some?);
      if FocusMoves(key, focused) {
        // dots[current].focus()
        SetupAutoRotate();  // focusout on the slider
        Pause();            // focusin on the slider
      }
    }
  }

  /** Three cards, a click on the third dot: card 2 and dot 2 are active, the
      timer is restarted, and the next automatic advance lands on card 0. */
  method ThreeCardsDotClick()
  {
    var s := new Slider(3);
    assert s.interval == Some(1) && s.live == {1};
    s.DotClick(2);
    assert s.interval == Some(2) && s.live == {2};
    s.ExactlyOneActive();
    assert s.cards[2].active && s.dots[2].active;
    assert s.cards[..] == CardsShowing(3, 2);
    assert !s.cards[0].active && !s.cards[1].active;
    assert !s.dots[0].active && !s.dots[1].active;
    assert s.Armed();
    s.Next();
    assert s.current == 0;
  }

  /** The pointer is over the slider, so its timer is cleared; a click on the
      next button inside the slider starts a fresh interval all the same. */
  method ClickWhileHovered()
  {
    var s := new Slider(3);
    s.Pause();
    assert !s.Armed();
    s.NextClick();
    assert s.Armed() && s.current == 1;
  }

  /** Enter on dot 0 shows card 0 and re-arms the timer; ArrowRight then
      moves the focus to dot 1 inside the slider, and the focus events leave
      no interval running. */
  method ArrowKeyMovesFocus()
  {
    var s := new Slider(3);
    s.KeyPress(Enter, Some(0));
    assert s.current == 0 && s.Armed();
    s.KeyPress(ArrowRight, Some(0));
    assert s.current == 1 && !s.Armed();
  }

  /** With card 2 showing, Enter on dot 0 is seen by the dot's listener and
      then by the document listener: card 0 is shown and a fresh interval
      runs. */
  method EnterOnOtherDot()
  {
    var s := new Slider(3);
    s.DotClick(2);
    assert s.live == {2};
    s.KeyPress(Enter, Some(0));
    assert s.current == 0 && s.interval == Some(3) && s.live == {3};
  }
}
