/** The mobile menu: the hamburger button flips the button's and the menu's
    active class and locks page scrolling (body overflow "hidden") while the
    menu is open; clicking any link in the menu closes it. */
module MobileMenu {

  datatype Menu = Menu(hamburgerActive: bool, menuActive: bool, overflow: string)

  /** The body overflow the handlers write for a menu state. */
  function OverflowFor(menuActive: bool): string {
    if menuActive then "hidden" else ""
  }

  /** Button and menu agree, and scrolling is locked exactly while the menu is open. */
  predicate Consistent(m: Menu) {
    m.hamburgerActive == m.menuActive && m.overflow == OverflowFor(m.menuActive)
  }

  /** A hamburger click. */
  function Toggle(m: Menu): (r: Menu)
    ensures r.hamburgerActive == !m.hamburgerActive && r.menuActive == !m.menuActive
    ensures r.overflow == OverflowFor(r.menuActive)
    ensures Consistent(m) ==> Consistent(r)
  {
    var menuActive := !m.menuActive;
    Menu(!m.hamburgerActive, menuActive, OverflowFor(menuActive))
  }

  /** A click on a link of the mobile menu. */
  function CloseFromLink(m: Menu): (r: Menu)
    ensures !r.hamburgerActive && !r.menuActive && r.overflow == ""
    ensures Consistent(r)
  {
    Menu(false, false, "")
  }

  /** Two hamburger clicks restore both flags, and the whole state when it
      was consistent. */
  lemma ToggleTwice(m: Menu)
    ensures Toggle(Toggle(m)).hamburgerActive == m.hamburgerActive
    ensures Toggle(Toggle(m)).menuActive == m.menuActive
    ensures Consistent(m) ==> Toggle(Toggle(m)) == m
  {
  }

  /** A click the page's menu reacts to. */
  datatype Click = HamburgerClick | MenuLinkClick

  /** The menu after a run of clicks. */
  function Clicks(m: Menu, clicks: seq<Click>): Menu
    decreases |clicks|
  {
    if clicks == [] then m
    else
      var next := if clicks[0] == HamburgerClick then Toggle(m) else CloseFromLink(m);
      Clicks(next, clicks[1..])
  }

  /** Any run of clicks keeps button, menu and scroll lock in agreement, and
      one that ends with a menu-link click leaves the menu closed and page
      scrolling unlocked. */
  lemma {:induction false} ClicksKeepConsistent(m: Menu, clicks: seq<Click>)
    requires Consistent(m)
    ensures Consistent(Clicks(m, clicks))
    ensures |clicks| > 0 && clicks[|clicks| - 1] == MenuLinkClick ==>
      Clicks(m, clicks) == Menu(false, false, "")
    decreases |clicks|
  {
    if clicks != [] {
      var next := if clicks[0] == HamburgerClick then Toggle(m) else CloseFromLink(m);
      ClicksKeepConsistent(next, clicks[1..]);
      if |clicks| == 1 {
        assert Clicks(next, clicks[1..]) == next;
      } else {
        assert clicks[1..][|clicks[1..]| - 1] == clicks[|clicks| - 1];
      }
    }
  }

  /** The class flags on the two elements and the body's overflow style. */
  class MenuController {
    var hamburgerActive: bool
    var menuActive: bool
    var overflow: string

    function State(): Menu
      reads this
    {
      Menu(hamburgerActive, menuActive, overflow)
    }

    /** The page loads with the menu closed and scrolling unlocked. */
    constructor ()
      ensures State() == Menu(false, false, "") && Consistent(State())
    {
      hamburgerActive := false;
      menuActive := false;
      overflow := "";
    }

    method OnHamburgerClick()
      modifies this
      ensures State() == Toggle(old(State()))
      ensures old(Consistent(State())) ==> Consistent(State())
    {
      hamburgerActive := !hamburgerActive;
      menuActive := !menuActive;
      overflow := if menuActive then "hidden" else "";
    }

    method OnMobileLinkClick()
      modifies this
      ensures State() == CloseFromLink(old(State()))
      ensures !menuActive && overflow == ""
    {
      hamburgerActive := false;
      menuActive := false;
      overflow := "";
    }
  }
}
