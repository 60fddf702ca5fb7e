# Landing-page widgets, modelled in Dafny

This project models the state machines behind the interactive widgets of a
marketing landing page (`assets/js/script.js`). Each widget keeps its state in
CSS class flags and ARIA attributes on a fixed set of page elements. Here those
elements are array slots and each class or attribute is a field of the slot:

- **Mobile menu** (`Menu`). The menu button, the menu panel and the overlay
  each carry an `active` class, and the page body carries `menu-open`.
  `openMenu`, `closeMenu` and `toggleMenu` keep all four in agreement.
- **Scroll effects** (`ScrollEffects`). On every scroll event the header's
  `scrolled` class is recomputed: set exactly when the scroll offset is above
  50 px. It is not computed at load, only on scroll events. Each animated section is
  revealed once its top edge is more than 100 px above the bottom of the
  viewport, and it is never hidden again.
- **Testimonial carousel** (`Carousel`). A cursor runs over N cards, with one
  dot per card. `showTestimonial` marks one card and its dot active, keeps
  the ARIA attributes (`aria-hidden`, `aria-selected`, `tabindex`) in step,
  and moves the cursor. Next and previous wrap around modulo N. The keyboard
  handler inside the dot row maps ArrowRight, ArrowLeft, Home and End to
  cards. A repeating interval advances the carousel. It is cleared by every
  `mouseenter` and `focusin` on the slider, and started afresh by every
  `mouseleave` and `focusout`, and by every click on a dot or a button, with
  no check of hover or focus: a click inside a hovered slider re-arms it
  (`ClickWhileHovered`). `focusin` and `focusout` fire on every focus move
  inside the slider too, so when the keyboard handler moves the focus to
  another dot, the timer ends cleared with a fresh handle stored. A key
  event on a dot reaches the dot's own listener first (Enter and Space act
  as a click) and then the document's keyboard handler (`KeyPress`,
  `ArrowKeyMovesFocus`, `EnterOnOtherDot`).
- **FAQ accordion** (`Accordion`). A click on a question closes every other
  item and toggles its own, so at most one item is ever open.
- `Flags` holds the shared counting of set flags: "exactly one" and "at most
  one".

Each widget is a class whose methods update its fields or arrays in place, as
the script does. The in-place loops (`Show`, `AnimateOnScroll`,
`ClickQuestion`) and `ToggleMenu` are proved against specification functions,
and the properties are lemmas about those functions. The other methods (the
menu's open and close, the header, the timer and the click handlers) state
their whole new state directly in their `ensures`. The auto-rotate
timer is modelled by three things: the script's `autoRotateInterval` variable
(an optional handle that keeps its value after the interval is cleared), the
set of intervals the browser is still running, and the browser's next handle.
With this model, "at most one interval is live" is a proved invariant.

JavaScript's `%` truncates toward zero. `JsRem` models that operator, and the
next and previous index expressions are written with it. Their operands are
never negative, so it agrees with Dafny's `%` there.

## Model

| member | source | states |
|---|---|---|
| `Menu.Toggled` | assets/js/script.js:23-30 | toggle looks only at the panel; afterwards all four markers agree, whatever they were before, and the panel has flipped |
| `Menu.ToggleTwice` | assets/js/script.js:23-30 | from a consistent state, toggling twice restores the state |
| `Menu.MobileMenu.OpenMenu` | assets/js/script.js:9-14 | all four markers set, so they agree |
| `Menu.MobileMenu.CloseMenu` | assets/js/script.js:16-21 | all four markers cleared whatever the prior state, so a second call changes nothing |
| `Menu.MobileMenu.ToggleMenu` | assets/js/script.js:23-30 | new state is `Toggled` of the old one: markers agree and the panel is flipped |
| `ScrollEffects.Header.OnScroll` | assets/js/script.js:43-49 | header is `scrolled` iff the scroll offset exceeds 50, independent of its prior value |
| `ScrollEffects.RevealStep` | assets/js/script.js:191-200 | one reveal pass never hides a shown element, shows every element whose top is above `innerHeight - 100`, and shows nothing else |
| `ScrollEffects.RevealStepIdempotent` | assets/js/script.js:191-200 | a second pass on the same viewport changes nothing |
| `ScrollEffects.RevealAll` | assets/js/script.js:202-203 | repeated reveal passes, one per scroll event, keep one marker per element |
| `ScrollEffects.RevealAllShown` | assets/js/script.js:191-203 | after any history of scroll events an element is shown iff it was shown at the start or some event found it past the threshold |
| `ScrollEffects.Reveal.constructor` | assets/js/script.js:184-189 | start-up hides every tracked element |
| `ScrollEffects.Reveal.AnimateOnScroll` | assets/js/script.js:191-200 | the in-place loop leaves the markers equal to `RevealStep` of the old markers |
| `Accordion.Clicked` | assets/js/script.js:244-251 | after a click on item k, every other item is closed, item k is the negation of its prior value, and at most one item is open, whatever the prior state |
| `Accordion.OpenOtherCloses` | assets/js/script.js:244-251 | opening item b while item a is open closes a and opens b, leaving exactly one open |
| `Accordion.ClickOpenClosesAll` | assets/js/script.js:244-251 | a click on the open item leaves no item open |
| `Accordion.ClickTwice` | assets/js/script.js:244-251 | when only item k may be open, two clicks on k restore the markers |
| `Accordion.FaqList.ClickQuestion` | assets/js/script.js:242-251 | the in-place loop leaves the markers equal to `Clicked` of the old ones, so at most one is open |
| `Carousel.JsRem` | assets/js/script.js:115-123 | JavaScript remainder: magnitude below the divisor, sign of the dividend, equal to Dafny's `%` on a non-negative dividend |
| `Carousel.NextIndex` | assets/js/script.js:115-118 | the next index stays in `[0, N)` and is one further, wrapping from N-1 to 0 |
| `Carousel.PrevIndex` | assets/js/script.js:120-123 | the previous index stays in `[0, N)` and is one back, wrapping from 0 to N-1 |
| `Carousel.PrevUndoesNext` | assets/js/script.js:115-123 | previous undoes next, and next undoes previous |
| `Carousel.Advance` | assets/js/script.js:109-118 | k successive advances stay in `[0, N)` |
| `Carousel.Retreat` | assets/js/script.js:120-123 | k successive steps back stay in `[0, N)` |
| `Carousel.AdvanceRotates` | assets/js/script.js:115-118 | k advances from `cur` land on `(cur + k) mod N` |
| `Carousel.FullCycle` | assets/js/script.js:115-118 | N advances return the cursor to its starting card |
| `Carousel.RetreatUndoesAdvance` | assets/js/script.js:115-123 | k steps back undo k steps forward |
| `Carousel.ShowingExactlyOne` | assets/js/script.js:87-99 | after showing card k, exactly one card and one dot are active, both at k; a card is aria-hidden iff inactive; a dot is selected and has tabindex 0 iff active, and tabindex -1 otherwise |
| `Carousel.ExactlyOneIsShowing` | assets/js/script.js:87-99 | conversely, exactly one active card and dot at k, with the ARIA attributes following the class, is exactly the display `showTestimonial(k)` leaves |
| `Carousel.KeyTarget` | assets/js/script.js:149-169 | the key handler's target is in `[0, N)`: Home gives 0, End gives N-1, arrows give next and previous, other keys leave the cursor alone |
| `Carousel.Slider.AtMostOneTimer` | assets/js/script.js:104-113 | only the interval whose handle the script holds can run, so at most one runs |
| `Carousel.Slider.ExactlyOneActive` | assets/js/script.js:87-101 | in a valid carousel exactly one card and one dot are active, both at the cursor |
| `Carousel.Slider.constructor` | assets/js/script.js:75-85 | start-up shows card 0 and arms the timer iff there is more than one card, with the first handle stored and running |
| `Carousel.Slider.Show` | assets/js/script.js:87-102 | the two in-place loops leave cards and dots showing card `index`, and the cursor is `index` |
| `Carousel.Slider.SetupAutoRotate` | assets/js/script.js:104-113 | the held interval is cleared first; a fresh one is started iff N > 1; afterwards the timer is armed iff N > 1 and at most one interval runs |
| `Carousel.Slider.Pause` | assets/js/script.js:172-178 | mouseenter and focusin leave no interval running and keep the stored handle |
| `Carousel.Slider.Next` | assets/js/script.js:115-118 | cursor becomes `NextIndex` of the old one and the display follows it |
| `Carousel.Slider.Prev` | assets/js/script.js:120-123 | cursor becomes `PrevIndex` of the old one and the display follows it |
| `Carousel.Slider.DotClick` | assets/js/script.js:125-129 | shows the clicked dot's card and restarts the timer: the held interval no longer runs, and with N > 1 a fresh one, and only it, runs and is stored |
| `Carousel.Slider.DotKey` | assets/js/script.js:130-136 | Enter and Space on a dot act as a click, restarting the timer; other keys leave the cursor, cards, dots and every timer field unchanged |
| `Carousel.Slider.PrevClick` | assets/js/script.js:139-142 | steps back and restarts the timer: old interval stopped, a fresh one running iff N > 1 |
| `Carousel.Slider.NextClick` | assets/js/script.js:144-147 | steps forward and restarts the timer: old interval stopped, a fresh one running iff N > 1 |
| `Carousel.Slider.KeyDown` | assets/js/script.js:149-169 | the handler's own statements: inside the dot row the cursor moves to `KeyTarget` of the key; elsewhere nothing moves; the handler's own code does not touch the timer |
| `Carousel.Slider.KeyPress` | assets/js/script.js:130-179 | a whole key event on dot f: the dot's own listener runs first, so Enter and Space show card f and restart the timer; then the document listener moves the cursor to `KeyTarget` for the navigation keys; when focus then moves to another dot, the slider's `focusout` and `focusin` listeners leave no interval running and a fresh handle stored; for every other key and for events outside the dot row the timer is unchanged |

## Left out

- The statistic counters (assets/js/script.js:206-238) are left out. They step by fractional `target / (duration / 16)` increments with `Math.floor`, which is floating-point arithmetic, and they are started by `IntersectionObserver`, a browser API.
- Smooth anchor scrolling (assets/js/script.js:52-65) is left out. It is a thin wrapper over `window.scrollTo`.
- The `id`, `role` and `aria-labelledby` assignment in `initTestimonialSlider` (assets/js/script.js:76-82) is left out, as are the opacity, transform and transition style strings. These are presentation only. A revealed element is one boolean.
- Which element holds the browser's focus is not modelled as state. The effect of the keyboard handler's `focus()` calls (assets/js/script.js:154, 158, 162, 166) on the timer is modelled in `KeyPress`: the dot that held focus is a parameter. A key event on it runs the dot's own `keydown` listener (`DotKey`), then the document listener (`KeyDown`), and a move to another dot then runs the slider's `focusout` and then `focusin` listener, in the order the browser dispatches them. Focus moves the user makes are calls of `SetupAutoRotate` (`focusout`) and `Pause` (`focusin`), in the order the browser fires them.
- DOM queries, `addEventListener` registration and the `classList`/`setAttribute` string mechanics are left out. A class or attribute is a field of an array slot.
- `mouseleave` and `focusout` (assets/js/script.js:175, 179) call `setupAutoRotate` directly, so they are `SetupAutoRotate`. `closeBtn`, the overlay and every menu link call `closeMenu` (assets/js/script.js:33-39), so they are `CloseMenu`. Neither group has a member of its own.
- Timer periods (5000 ms) and real time are left out. The running interval is a live handle, and each firing is a call of `Next`.
- `scrollY`, `innerHeight` and `getBoundingClientRect().top` are fractional in a browser. They are integers here.
- The script does not guard an empty carousel: with N = 0, next and previous compute `% 0`, which is NaN. It also does not guard a dot count that differs from the card count, even though the keyboard handler indexes the dots by the card cursor. `Slider.Shape` therefore requires at least one card and one dot per card, which is the markup the script assumes.
- The keyboard handler's own code does not restart the auto-rotate timer, unlike the dot and button handlers. `KeyDown` follows that code, and its frame leaves the timer fields untouched. The focus move that follows it does change the timer, as `KeyPress` states.
