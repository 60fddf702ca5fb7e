/** The mobile navigation menu: a toggle button, a menu panel and an overlay,
    each with an `active` class, and a `menu-open` class on the page body. */
module Menu {

  /** The four markers, as one value. */
  datatype MenuState = MenuState(button: bool, panel: bool, overlay: bool, bodyOpen: bool)

  /** All four markers tell the same story: the menu is either open
      everywhere or closed everywhere. */
  predicate Agree(s: MenuState) {
    s.button == s.panel && s.panel == s.overlay && s.overlay == s.bodyOpen
  }

  /** The menu as `openMenu` leaves it. */
  const Opened := MenuState(true, true, true, true)

  /** The menu as `closeMenu` leaves it. */
  const Closed := MenuState(false, false, false, false)

  /** What `toggleMenu` does: it looks at the panel alone to decide whether to
      close or open. Whatever the markers were before, afterwards they agree,
      and the panel has flipped. */
  function Toggled(s: MenuState): (r: MenuState)
    ensures Agree(r)
    ensures r.panel == !s.panel
  {
    if s.panel then Closed else Opened
  }

  /** Toggling twice from a consistent state gives that state back. */
  lemma ToggleTwice(s: MenuState)
    requires Agree(s)
    ensures Toggled(Toggled(s)) == s
  {
  }

  /** The four DOM markers, updated in place by the three handlers. */
  class MobileMenu {
    var button: bool
    var panel: bool
    var overlay: bool
    var bodyOpen: bool

    function State(): MenuState
      reads this
    {
      MenuState(button, panel, overlay, bodyOpen)
    }

    /** Initially the page markup shows the menu closed. */
    constructor ()
      ensures State() == Closed
    {
      button, panel, overlay, bodyOpen := false, false, false, false;
    }

    /** `openMenu`: adds the markers to all four elements. */
    method OpenMenu()
      modifies this
      ensures State() == Opened && Agree(State())
    {
      button := true;
      panel := true;
      overlay := true;
      bodyOpen := true;
    }

    /** `closeMenu`, run by the close button, the overlay and every menu link:
        removes the markers from all four elements whatever they were before,
        so a second call changes nothing. */
    method CloseMenu()
      modifies this
      ensures State() == Closed && Agree(State())
    {
      button := false;
      panel := false;
      overlay := false;
      bodyOpen := false;
    }

    /** `toggleMenu`, run by the menu button. */
    method ToggleMenu()
      modifies this
      ensures State() == Toggled(old(State()))
      ensures Agree(State()) && panel == !old(panel)
    {
      var isOpen := panel;
      if isOpen {
        CloseMenu();
      } else {
        OpenMenu();
      }
    }
  }
}
