/** The MainNav bar: the scroll threshold flag, the desktop dropdown chosen by
    mouse enter/leave, the mobile menu flag, and the 300 ms reveal latch armed
    at mount. */
module MainNav {
  import opened Wrappers

  /** `window.scrollY` beyond which the bar is drawn compact. */
  const ScrollThreshold: real := 50.0
  /** Delay of the reveal timer set at mount. */
  const RevealDelayMs: int := 300

  datatype NavItem = NavItem(name: string, href: string, hasDropdown: bool)

  const NavItems: seq<NavItem> := [
    NavItem("Academics", "#", true),
    NavItem("Research", "#", true),
    NavItem("Admissions", "#", true),
    NavItem("SNU NOW", "#", false),
    NavItem("Campus Life", "#", true),
    NavItem("About SNU", "#", true)
  ]

  /** An item of the desktop or mobile list: both are rendered by mapping over `NavItems`. */
  type ItemIndex = k: int | 0 <= k < |NavItems|

  datatype Nav = Nav(
    elapsed: nat,                   // milliseconds since mount
    visible: bool,                  // `isVisible`
    scrolled: bool,                 // `isScrolled`
    mobileMenuOpen: bool,           // `isMobileMenuOpen`
    activeDropdown: Option<string>) // `activeDropdown`, None for null

  const Mount: Nav := Nav(0, false, false, false, None)

  /** `name` names an item that has a dropdown. */
  predicate NamesDropdown(name: string) {
    exists k: ItemIndex :: NavItems[k].hasDropdown && NavItems[k].name == name
  }

  /** The invariant of every reachable state. */
  predicate Inv(s: Nav) {
    && (s.activeDropdown.Some? ==> NamesDropdown(s.activeDropdown.value))
    // the reveal timer fires exactly at 300 ms
    && (s.visible <==> s.elapsed >= RevealDelayMs)
  }

  lemma MountInv()
    ensures Inv(Mount)
  {
  }

  /** The item names are pairwise distinct (they are the React keys). */
  lemma NamesDistinct()
    ensures forall j: ItemIndex, k: ItemIndex | j < k :: NavItems[j].name != NavItems[k].name
  {
  }

  /** `handleScroll`. */
  function Scroll(s: Nav, scrollY: real): (r: Nav)
    ensures r.scrolled <==> scrollY > ScrollThreshold
    ensures r.(scrolled := s.scrolled) == s
    ensures Inv(s) ==> Inv(r)
  {
    s.(scrolled := scrollY > ScrollThreshold)
  }

  /** `onMouseEnter`: `item.hasDropdown && setActiveDropdown(item.name)`. */
  function MouseEnter(s: Nav, k: ItemIndex): (r: Nav)
    ensures NavItems[k].hasDropdown ==> r == s.(activeDropdown := Some(NavItems[k].name))
    ensures !NavItems[k].hasDropdown ==> r == s
    ensures Inv(s) ==> Inv(r)
  {
    if NavItems[k].hasDropdown then s.(activeDropdown := Some(NavItems[k].name)) else s
  }

  /** `onMouseLeave`: `setActiveDropdown(null)`, whichever item is left. */
  function MouseLeave(s: Nav, k: ItemIndex): (r: Nav)
    ensures r.activeDropdown.None?
    ensures r.(activeDropdown := s.activeDropdown) == s
    ensures Inv(s) ==> Inv(r)
  {
    s.(activeDropdown := None)
  }

  /** The menu button: `setIsMobileMenuOpen(!isMobileMenuOpen)`. */
  function MenuButton(s: Nav): (r: Nav)
    ensures r.mobileMenuOpen != s.mobileMenuOpen
    ensures r.(mobileMenuOpen := s.mobileMenuOpen) == s
    ensures Inv(s) ==> Inv(r)
  {
    s.(mobileMenuOpen := !s.mobileMenuOpen)
  }

  /** A mobile menu link: `setIsMobileMenuOpen(false)`. */
  function MobileLink(s: Nav, k: ItemIndex): (r: Nav)
    ensures !r.mobileMenuOpen
    ensures r.(mobileMenuOpen := s.mobileMenuOpen) == s
    ensures Inv(s) ==> Inv(r)
  {
    s.(mobileMenuOpen := false)
  }

  /** `ms` milliseconds pass; the reveal timer fires once 300 ms have elapsed. */
  function Wait(s: Nav, ms: nat): (r: Nav)
    ensures r.elapsed == s.elapsed + ms
    ensures s.visible ==> r.visible
    ensures r.(elapsed := s.elapsed, visible := s.visible) == s
    ensures Inv(s) ==> Inv(r)
  {
    var e := s.elapsed + ms;
    s.(elapsed := e, visible := s.visible || e >= RevealDelayMs)
  }

  /** Two presses of the menu button restore the menu. */
  lemma MenuButtonTwice(s: Nav)
    ensures MenuButton(MenuButton(s)) == s
  {
  }

  /** The desktop items whose dropdown panel is rendered. */
  function OpenPanels(s: Nav): set<ItemIndex>
  {
    set k: ItemIndex | NavItems[k].hasDropdown && s.activeDropdown == Some(NavItems[k].name)
  }

  /** At most one dropdown panel is rendered, and while `activeDropdown` is set
      exactly one is: the panel of the item it names. */
  lemma AtMostOnePanel(s: Nav)
    requires Inv(s)
    ensures s.activeDropdown.None? ==> OpenPanels(s) == {}
    ensures s.activeDropdown.Some? ==> exists k: ItemIndex ::
              && OpenPanels(s) == {k}
              && NavItems[k].name == s.activeDropdown.value
  {
    NamesDistinct();
    if s.activeDropdown.Some? {
      var k: ItemIndex :| NavItems[k].hasDropdown && NavItems[k].name == s.activeDropdown.value;
      assert OpenPanels(s) == {k};
    }
  }

  datatype Event =
    | Elapsed(ms: nat)
    | ScrollTo(scrollY: real)
    | Enter(item: ItemIndex)
    | Leave(item: ItemIndex)
    | ToggleMenu
    | MobileLinkClick(item: ItemIndex)

  function Step(s: Nav, e: Event): (r: Nav)
    ensures Inv(s) ==> Inv(r)
    ensures s.visible ==> r.visible
  {
    match e
    case Elapsed(ms) => Wait(s, ms)
    case ScrollTo(y) => Scroll(s, y)
    case Enter(k) => MouseEnter(s, k)
    case Leave(k) => MouseLeave(s, k)
    case ToggleMenu => MenuButton(s)
    case MobileLinkClick(k) => MobileLink(s, k)
  }

  function Run(s: Nav, trace: seq<Event>): (r: Nav)
    ensures Inv(s) ==> Inv(r)
    ensures s.visible ==> r.visible
    decreases |trace|
  {
    if trace == [] then s else Run(Step(s, trace[0]), trace[1..])
  }

  /** The scroll position reported by the last scroll event of a trace. */
  function LastScroll(trace: seq<Event>): Option<real>
    decreases |trace|
  {
    if trace == [] then None
    else match LastScroll(trace[1..])
      case Some(y) => Some(y)
      case None => if trace[0].ScrollTo? then Some(trace[0].scrollY) else None
  }

  /** `isScrolled` is the threshold predicate of the last observed scroll
      position, and keeps its value while no scroll is observed. */
  lemma {:induction false} ScrolledTracksLastScroll(s: Nav, trace: seq<Event>)
    ensures Run(s, trace).scrolled == match LastScroll(trace)
      case Some(y) => y > ScrollThreshold
      case None => s.scrolled
    decreases |trace|
  {
    if trace != [] {
      ScrolledTracksLastScroll(Step(s, trace[0]), trace[1..]);
    }
  }

  /** From mount, whatever the user does, at most one dropdown panel is open. */
  lemma OnePanelAlongAnyTrace(trace: seq<Event>)
    ensures |OpenPanels(Run(Mount, trace))| <= 1
  {
    MountInv();
    var r := Run(Mount, trace);
    AtMostOnePanel(r);
    if r.activeDropdown.Some? {
      var k: ItemIndex :| OpenPanels(r) == {k};
    }
  }

}
