/**
 * The page's small pieces of shared UI state: the sidebar's `active` class, the mobile menu
 * toggle's visibility and the scroll-to-top button's visibility, with the listeners that change them.
 */
module PageControls {
  import opened Js

  /** The scroll-to-top button shows once the page is scrolled strictly past this offset. */
  const ScrollTopThreshold: real := 300.0

  /** Viewports at most this wide count as mobile and get the menu toggle. */
  const MobileMaxWidth: int := 768

  /**
   * `sidebarActive`: the sidebar carries the class `active`; `toggleShown`: the menu toggle
   * has `display: flex` rather than `none`; `scrollTopShown`: likewise for the scroll-to-top button.
   */
  datatype Controls = Controls(sidebarActive: bool, toggleShown: bool, scrollTopShown: bool)

  /** The scroll listener of the scroll-to-top button. */
  function AfterScroll(c: Controls, pageYOffset: real): Controls
  {
    c.(scrollTopShown := pageYOffset > ScrollTopThreshold)
  }

  /** `updateMenuToggle`, run on load and on every resize. */
  function AfterResize(c: Controls, innerWidth: int): Controls
  {
    if innerWidth <= MobileMaxWidth then c.(toggleShown := true)
    else c.(toggleShown := false, sidebarActive := false)
  }

  /** The toggle's click listener: `sidebar.classList.toggle('active')`. */
  function AfterToggleClick(c: Controls): Controls
  {
    c.(sidebarActive := !c.sidebarActive)
  }

  /**
   * `document.getElementById(id)` finds an element: some element carries that `id`. An empty
   * `id` attribute gives its element no ID, so the empty string is never found.
   */
  predicate ElementExists(documentIds: set<string>, id: string)
  {
    id != "" && id in documentIds
  }

  /** A navigation item's click listener: the sidebar closes only when the target section exists. */
  function AfterNavClick(c: Controls, href: string, documentIds: set<string>): Controls
  {
    if ElementExists(documentIds, Slice1(href)) then c.(sidebarActive := false) else c
  }

  /** The button is visible exactly above 300; the menu and sidebar are untouched. */
  lemma ScrollTopVisibleIff(c: Controls, pageYOffset: real)
    ensures AfterScroll(c, pageYOffset).scrollTopShown <==> pageYOffset > 300.0
    ensures AfterScroll(c, pageYOffset).(scrollTopShown := c.scrollTopShown) == c
  {
  }

  /** At exactly 300 the button is hidden, just past it the button is shown. */
  lemma ScrollTopBoundary(c: Controls)
    ensures !AfterScroll(c, 300.0).scrollTopShown
    ensures AfterScroll(c, 300.5).scrollTopShown
  {
  }

  /** Visibility depends only on the latest offset, not on earlier scrolls. */
  lemma ScrollTopForgetsHistory(c: Controls, first: real, second: real)
    ensures AfterScroll(AfterScroll(c, first), second) == AfterScroll(c, second)
  {
  }

  /** The toggle shows exactly on narrow viewports; a wide viewport also closes the sidebar, a narrow one leaves it. */
  lemma ResizeRules(c: Controls, innerWidth: int)
    ensures AfterResize(c, innerWidth).toggleShown <==> innerWidth <= 768
    ensures innerWidth > 768 ==> !AfterResize(c, innerWidth).sidebarActive
    ensures innerWidth <= 768 ==> AfterResize(c, innerWidth).sidebarActive == c.sidebarActive
    ensures AfterResize(c, innerWidth).scrollTopShown == c.scrollTopShown
  {
  }

  /** Resizing twice to the same width is the same as resizing once. */
  lemma ResizeIdempotent(c: Controls, innerWidth: int)
    ensures AfterResize(AfterResize(c, innerWidth), innerWidth) == AfterResize(c, innerWidth)
  {
  }

  /** Two clicks on the toggle restore the sidebar; one click flips it and nothing else. */
  lemma ToggleTwiceRestores(c: Controls)
    ensures AfterToggleClick(c).sidebarActive == !c.sidebarActive
    ensures AfterToggleClick(c).(sidebarActive := c.sidebarActive) == c
    ensures AfterToggleClick(AfterToggleClick(c)) == c
  {
  }

  /** A nav click closes the sidebar exactly when its target exists, and otherwise changes nothing. */
  lemma NavClickClosesOnlyForExistingTarget(c: Controls, href: string, documentIds: set<string>)
    ensures ElementExists(documentIds, Slice1(href)) ==> !AfterNavClick(c, href, documentIds).sidebarActive
    ensures !ElementExists(documentIds, Slice1(href)) ==> AfterNavClick(c, href, documentIds) == c
    ensures AfterNavClick(c, href, documentIds).(sidebarActive := c.sidebarActive) == c
  {
  }

  /** The scroll-to-top listener and the menu listeners touch disjoint state, so their order never matters. */
  lemma ScrollCommutesWithMenu(c: Controls, pageYOffset: real, innerWidth: int, href: string, documentIds: set<string>)
    ensures AfterScroll(AfterResize(c, innerWidth), pageYOffset) == AfterResize(AfterScroll(c, pageYOffset), innerWidth)
    ensures AfterScroll(AfterToggleClick(c), pageYOffset) == AfterToggleClick(AfterScroll(c, pageYOffset))
    ensures AfterScroll(AfterNavClick(c, href, documentIds), pageYOffset) == AfterNavClick(AfterScroll(c, pageYOffset), href, documentIds)
  {
  }

  /** The page's controls as mutable state shared by the listeners. */
  class Page {
    var sidebarActive: bool
    var toggleShown: bool
    var scrollTopShown: bool

    function State(): Controls
      reads this
    {
      Controls(sidebarActive, toggleShown, scrollTopShown)
    }

    /**
     * Loading the script: both buttons start with `display: none`, the sidebar keeps whatever
     * class the markup gave it, and `updateMenuToggle` runs once.
     */
    constructor (sidebarInitiallyActive: bool, innerWidth: int)
      ensures State() == AfterResize(Controls(sidebarInitiallyActive, false, false), innerWidth)
    {
      sidebarActive := sidebarInitiallyActive;
      toggleShown := false;
      scrollTopShown := false;
      new;
      UpdateMenuToggle(innerWidth);
    }

    method OnScroll(pageYOffset: real)
      modifies this
      ensures State() == AfterScroll(old(State()), pageYOffset)
    {
      if pageYOffset > ScrollTopThreshold {
        scrollTopShown := true;
      } else {
        scrollTopShown := false;
      }
    }

    method UpdateMenuToggle(innerWidth: int)
      modifies this
      ensures State() == AfterResize(old(State()), innerWidth)
    {
      if innerWidth <= MobileMaxWidth {
        toggleShown := true;
      } else {
        toggleShown := false;
        sidebarActive := false;
      }
    }

    method OnToggleClick()
      modifies this
      ensures State() == AfterToggleClick(old(State()))
    {
      sidebarActive := !sidebarActive;
    }

    method OnNavClick(href: string, documentIds: set<string>)
      modifies this
      ensures State() == AfterNavClick(old(State()), href, documentIds)
    {
      var targetId := Slice1(href);
      if ElementExists(documentIds, targetId) {
        sidebarActive := false;
      }
    }
  }

  /** Two clicks on the menu toggle leave the page as it was. */
  method ClickToggleTwice(page: Page)
    modifies page
    ensures page.State() == old(page.State())
  {
    page.OnToggleClick();
    page.OnToggleClick();
  }
}
