/** The navigation bar: the scroll-driven active-section tracker and the
    mobile-menu open/close state.

    The browser's geometry (`window.scrollY`, `document.body`,
    `getElementById`, `offsetTop`, `offsetHeight`) is passed in as a
    `Layout` value instead of being read from the DOM. */
module Navigation {
  import opened Common

  /** One entry of the navigation bar (the icon is presentational). */
  datatype NavItem = NavItem(id: string, caption: string, href: string)

  /** The bar's entries in declaration order; this is also the scan order.
      Each anchor is `#` followed by its section's id, except `home`, which
      is the top of the page. */
  function NavItems(): (items: seq<NavItem>)
    ensures |items| == 7
    ensures items[0].id == "home" && items[0].href == "#"
    ensures forall i :: 1 <= i < |items| ==> items[i].href == "#" + items[i].id
  {
    var items := [ NavItem("home", "Home", "#"),
      NavItem("about", "About", "#about"),
      NavItem("skills", "Skills", "#skills"),
      NavItem("projects", "Projects", "#projects"),
      NavItem("experience", "Experience", "#experience"),
      NavItem("awards", "Awards", "#awards"),
      NavItem("contact", "Contact", "#contact") ];
    assert items[1].href == "#" + "about" && items[2].href == "#" + "skills";
    assert items[3].href == "#" + "projects" && items[4].href == "#" + "experience";
    assert items[5].href == "#" + "awards" && items[6].href == "#" + "contact";
    items
  }

  /** `navItems.map(item => item.id)`: the section ids in the order the
      scroll handler examines them. They are React keys, so distinct. */
  function SectionIds(): (ids: seq<string>)
    ensures |ids| == |NavItems()|
    ensures forall i :: 0 <= i < |ids| ==> ids[i] == NavItems()[i].id
    ensures Distinct(ids)
  {
    ["home", "about", "skills", "projects", "experience", "awards", "contact"]
  }

  /** The id the tracker starts with. */
  const InitialSection: string := "home"

  /** The fixed look-ahead added to the scroll offset (the header's height). */
  const Lookahead: int := 100

  /** An element's `offsetTop` and `offsetHeight`. */
  datatype Box = Box(top: int, height: int)

  /** What the handler can observe of the page at one scroll event: the
      body's height and the boxes of the elements `getElementById` finds
      (an id absent from `elements` is a missing element). */
  datatype Layout = Layout(bodyHeight: int, elements: map<string, Box>)

  /** The probe position: the scroll offset plus the look-ahead. */
  function Probe(scrollY: int): (pos: int)
    ensures pos - scrollY == Lookahead
  {
    scrollY + Lookahead
  }

  /** The half-open pixel range `[top, bottom)` a section occupies, or
      `None` when its element is missing. `home` is the whole body from 0. */
  function Bounds(layout: Layout, section: string): (b: Option<(int, int)>)
    ensures section == "home" ==> b == Some((0, layout.bodyHeight))
    ensures section != "home" ==>
      (b.Some? <==> section in layout.elements)
    ensures section != "home" && section in layout.elements ==>
      b.value.0 == layout.elements[section].top &&
      b.value.1 - b.value.0 == layout.elements[section].height
  {
    if section == "home" then Some((0, layout.bodyHeight))
    else if section in layout.elements then
      var box := layout.elements[section];
      Some((box.top, box.top + box.height))
    else None
  }

  /** Whether the section's element exists and its range contains `pos`. */
  predicate Covers(layout: Layout, section: string, pos: int) {
    match Bounds(layout, section)
    case None => false
    case Some((top, bottom)) => top <= pos < bottom
  }

  /** The first section in `sections` covering `pos`; later ones are not
      examined. */
  function FirstCovering(layout: Layout, sections: seq<string>, pos: int): (r: Option<string>)
    ensures r.None? <==> forall i :: 0 <= i < |sections| ==> !Covers(layout, sections[i], pos)
    ensures r.Some? ==>
      exists i :: 0 <= i < |sections| && sections[i] == r.value &&
        Covers(layout, sections[i], pos) &&
        forall j :: 0 <= j < i ==> !Covers(layout, sections[j], pos)
    decreases |sections|
  {
    if |sections| == 0 then None
    else if Covers(layout, sections[0], pos) then Some(sections[0])
    else
      var rest := FirstCovering(layout, sections[1..], pos);
      assert forall i :: 1 <= i < |sections| ==> sections[i] == sections[1..][i - 1];
      rest
  }

  /** One run of the scroll handler: the new active section. */
  function HandleScroll(active: string, scrollY: int, layout: Layout): (r: string)
    ensures (forall i :: 0 <= i < |SectionIds()| ==> !Covers(layout, SectionIds()[i], Probe(scrollY)))
      ==> r == active
    ensures (exists i :: 0 <= i < |SectionIds()| && Covers(layout, SectionIds()[i], Probe(scrollY)))
      ==> exists i :: 0 <= i < |SectionIds()| && SectionIds()[i] == r &&
            Covers(layout, r, Probe(scrollY)) &&
            forall j :: 0 <= j < i ==> !Covers(layout, SectionIds()[j], Probe(scrollY))
    ensures 0 <= Probe(scrollY) < layout.bodyHeight ==> r == "home"
  {
    match FirstCovering(layout, SectionIds(), Probe(scrollY))
    case Some(s) => s
    case None => active
  }

  /** The handler as the source writes it: a loop over the ids that stops
      at the first section whose range holds the probe. */
  method OnScroll(active: string, scrollY: int, layout: Layout) returns (next: string)
    ensures next == HandleScroll(active, scrollY, layout)
  {
    var sections := SectionIds();
    var pos := scrollY + 100;
    assert pos == Probe(scrollY);
    next := active;
    var i := 0;
    while i < |sections|
      invariant 0 <= i <= |sections|
      invariant forall j :: 0 <= j < i ==> !Covers(layout, sections[j], pos)
    {
      var section := sections[i];
      var element: Option<Box> :=
        if section == "home" then Some(Box(0, layout.bodyHeight))
        else if section in layout.elements then Some(layout.elements[section])
        else None;
      if element.Some? {
        var offsetTop := if section == "home" then 0 else element.value.top;
        var offsetBottom := offsetTop + element.value.height;
        assert Bounds(layout, section) == Some((offsetTop, offsetBottom));
        if pos >= offsetTop && pos < offsetBottom {
          next := section;
          FirstCoveringIsSelected(layout, sections, pos, i);
          return;
        }
      }
      assert !Covers(layout, section, pos);
      i := i + 1;
    }
    assert FirstCovering(layout, sections, pos) == None;
  }

  /** If `sections[i]` covers `pos` and nothing before it does, the scan
      picks it. */
  lemma FirstCoveringIsSelected(layout: Layout, sections: seq<string>, pos: int, i: int)
    requires 0 <= i < |sections|
    requires Covers(layout, sections[i], pos)
    requires forall j :: 0 <= j < i ==> !Covers(layout, sections[j], pos)
    ensures FirstCovering(layout, sections, pos) == Some(sections[i])
  {
  }

  /** Tie-break: where two sections overlap at the probe, the one declared
      later never wins. */
  lemma EarlierSectionWins(active: string, scrollY: int, layout: Layout, i: int, j: int)
    requires 0 <= i < j < |SectionIds()|
    requires Covers(layout, SectionIds()[i], Probe(scrollY))
    requires Covers(layout, SectionIds()[j], Probe(scrollY))
    ensures HandleScroll(active, scrollY, layout) != SectionIds()[j]
  {
  }

  /** A probe that only one section covers selects exactly that section. */
  lemma SoleCoveringSectionIsActive(active: string, scrollY: int, layout: Layout, i: int)
    requires 0 <= i < |SectionIds()|
    requires Covers(layout, SectionIds()[i], Probe(scrollY))
    requires forall j :: 0 <= j < |SectionIds()| && j != i ==> !Covers(layout, SectionIds()[j], Probe(scrollY))
    ensures HandleScroll(active, scrollY, layout) == SectionIds()[i]
  {
  }

  /** The navigation component's state: the mobile menu flag and the
      highlighted section. */
  datatype NavState = NavState(isOpen: bool, active: string)

  /** The state on mount: the menu is closed and the first entry, `home`,
      is highlighted. */
  function InitialState(): (s: NavState)
    ensures !s.isOpen
    ensures s.active == "home" && s.active == SectionIds()[0]
  {
    NavState(false, InitialSection)
  }

  /** The scroll `scrollToSection` asks the browser for. */
  datatype ScrollRequest = ScrollToTop | ScrollIntoView(selector: string) | NoScroll

  /** `scrollToSection(href)`: `#` scrolls to the top, any other anchor
      scrolls its element into view when `found` says the selector matched,
      and the menu is closed in every case. */
  function ScrollToSection(s: NavState, href: string, found: bool): (r: (NavState, ScrollRequest))
    ensures !r.0.isOpen
    ensures r.0.active == s.active
    ensures href == "#" <==> r.1 == ScrollToTop
    ensures href != "#" ==> (r.1 == NoScroll <==> !found)
    ensures r.1.ScrollIntoView? ==> r.1.selector == href
  {
    var request :=
      if href == "#" then ScrollToTop
      else if found then ScrollIntoView(href)
      else NoScroll;
    (s.(isOpen := false), request)
  }

  /** The mobile menu button flips the menu. */
  function ToggleMenu(s: NavState): (r: NavState)
    ensures r.isOpen != s.isOpen
    ensures r.active == s.active
  {
    s.(isOpen := !s.isOpen)
  }

  /** The events the component reacts to. */
  datatype Event =
    | Scrolled(scrollY: int, layout: Layout)
    | MenuButton
    | NavClick(href: string, found: bool)

  function Step(s: NavState, e: Event): NavState {
    match e
    case Scrolled(y, layout) => s.(active := HandleScroll(s.active, y, layout))
    case MenuButton => ToggleMenu(s)
    case NavClick(href, found) => ScrollToSection(s, href, found).0
  }

  function Run(s: NavState, events: seq<Event>): NavState
    decreases |events|
  {
    if |events| == 0 then s else Run(Step(s, events[0]), events[1..])
  }

  /** Whatever happens, the highlighted section is one of the bar's ids. */
  lemma {:induction false} ActiveIsAlwaysASection(s: NavState, events: seq<Event>)
    requires s.active in SectionIds()
    ensures Run(s, events).active in SectionIds()
    decreases |events|
  {
    if |events| > 0 {
      var t := Step(s, events[0]);
      match events[0]
      case Scrolled(y, layout) =>
        var r := HandleScroll(s.active, y, layout);
        if !(exists i :: 0 <= i < |SectionIds()| && Covers(layout, SectionIds()[i], Probe(y))) {
          assert r == s.active;
        }
        assert t.active in SectionIds();
      case MenuButton =>
      case NavClick(_, _) =>
    }
    if |events| > 0 {
      ActiveIsAlwaysASection(Step(s, events[0]), events[1..]);
    }
  }

  /** Every reachable state has a nav id highlighted. */
  lemma ReachableActiveIsASection(events: seq<Event>)
    ensures Run(InitialState(), events).active in SectionIds()
  {
    ActiveIsAlwaysASection(InitialState(), events);
  }

  /** Pressing the menu button twice restores the menu. */
  lemma ToggleTwice(s: NavState)
    ensures ToggleMenu(ToggleMenu(s)) == s
  {
  }

  /** Whether a bar entry is drawn highlighted. */
  predicate Highlighted(s: NavState, item: NavItem) {
    s.active == item.id
  }

  /** At most one entry is highlighted. */
  lemma OneEntryHighlighted(s: NavState, i: int, j: int)
    requires 0 <= i < |NavItems()| && 0 <= j < |NavItems()|
    requires Highlighted(s, NavItems()[i]) && Highlighted(s, NavItems()[j])
    ensures i == j
  {
  }

  /** Once the active id is a nav id, as every reachable state's is,
      exactly one entry is highlighted. */
  lemma ExactlyOneEntryHighlighted(s: NavState)
    requires s.active in SectionIds()
    ensures exists i :: 0 <= i < |NavItems()| && Highlighted(s, NavItems()[i])
    ensures forall i, j ::
      (0 <= i < |NavItems()| && 0 <= j < |NavItems()| &&
       Highlighted(s, NavItems()[i]) && Highlighted(s, NavItems()[j])) ==> i == j
  {
    var k :| 0 <= k < |SectionIds()| && SectionIds()[k] == s.active;
    assert Highlighted(s, NavItems()[k]);
    forall i, j | 0 <= i < |NavItems()| && 0 <= j < |NavItems()| &&
      Highlighted(s, NavItems()[i]) && Highlighted(s, NavItems()[j])
      ensures i == j
    {
      DistinctIndex(SectionIds(), i, j);
    }
  }
}
