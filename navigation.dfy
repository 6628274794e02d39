/**
  The navigation bar: its `scrolled` look once the page has moved, the mobile
  menu (the `active` class on the link list and on the toggle button, kept
  together), and the highlighting of the link whose section is under the
  header as the page scrolls.

  Scroll offsets and section geometry (`scrollY`, `offsetTop`,
  `offsetHeight`) are parameters, read afresh on every event as the source
  reads them. Each listener is a method; the browser calls them in the order
  the events arrive and bubble.
*/
module Navigation {
  import opened ActiveFlags

  datatype Option<T> = None | Some(value: T)

  /** A `section[id]` element: its offset from the top of the page, its height and its id. */
  datatype Section = Section(top: int, height: int, id: string)

  /** The navbar turns `scrolled` once the page is more than this many pixels down. */
  const ScrolledThreshold := 50

  /** The point tested against the sections lies this many pixels below the top of the viewport. */
  const ProbeOffset := 100

  /** The section spans the position: `top <= position < top + height`. */
  predicate Contains(section: Section, position: int) {
    section.top <= position < section.top + section.height
  }

  /** The last section that spans the position, if any. */
  function LastSectionAt(sections: seq<Section>, position: int): (r: Option<nat>)
    ensures r.None? <==> forall j :: 0 <= j < |sections| ==> !Contains(sections[j], position)
    ensures r.Some? ==> r.value < |sections| && Contains(sections[r.value], position)
    ensures r.Some? ==> forall j :: r.value < j < |sections| ==> !Contains(sections[j], position)
  {
    if |sections| == 0 then None
    else if Contains(sections[|sections| - 1], position) then Some(|sections| - 1)
    else LastSectionAt(sections[..|sections| - 1], position)
  }

  /** The `href` that points at a section: `#` and its id. */
  function LinkTarget(id: string): string {
    "#" + id
  }

  /** Different section ids are pointed at by different `href`s. */
  lemma LinkTargetInjective(a: string, b: string)
    ensures LinkTarget(a) == LinkTarget(b) <==> a == b
  {
    if LinkTarget(a) == LinkTarget(b) {
      assert a == LinkTarget(a)[1..];
      assert b == LinkTarget(b)[1..];
    }
  }

  /** The link flags once every link is cleared and those whose `href` is the target are marked. */
  function LinksMatching(hrefs: seq<string>, target: string): (flags: seq<bool>)
    ensures |flags| == |hrefs|
  {
    seq(|hrefs|, i requires 0 <= i < |hrefs| => hrefs[i] == target)
  }

  /**
    `highlightNavOnScroll`: every section that spans the probe point rewrites
    all link flags, so the last one decides; with no such section the flags
    stay as they were.
  */
  function HighlightedLinks(links: seq<bool>, hrefs: seq<string>, sections: seq<Section>, scrollY: int): (r: seq<bool>)
    requires |hrefs| == |links|
    ensures |r| == |links|
    ensures (forall j :: 0 <= j < |sections| ==> !Contains(sections[j], scrollY + ProbeOffset)) ==> r == links
  {
    match LastSectionAt(sections, scrollY + ProbeOffset)
    case None => links
    case Some(k) => LinksMatching(hrefs, LinkTarget(sections[k].id))
  }

  /** Section k spans the position and no later section does. */
  predicate IsLastSpanning(sections: seq<Section>, position: int, k: nat) {
    && k < |sections|
    && Contains(sections[k], position)
    && forall j :: k < j < |sections| ==> !Contains(sections[j], position)
  }

  /**
    With some section spanning the probe point, exactly the links pointing at
    the last such section end up active; with none, no link changes.
  */
  lemma HighlightFollowsLastSpanningSection(links: seq<bool>, hrefs: seq<string>, sections: seq<Section>, scrollY: int)
    requires |hrefs| == |links|
    ensures (forall j :: 0 <= j < |sections| ==> !Contains(sections[j], scrollY + ProbeOffset)) ==>
      HighlightedLinks(links, hrefs, sections, scrollY) == links
    ensures forall k: nat, i :: IsLastSpanning(sections, scrollY + ProbeOffset, k) && 0 <= i < |links| ==>
      (HighlightedLinks(links, hrefs, sections, scrollY)[i] <==> hrefs[i] == LinkTarget(sections[k].id))
  {
    var p := scrollY + ProbeOffset;
    forall k: nat | IsLastSpanning(sections, p, k)
      ensures LastSectionAt(sections, p) == Some(k)
    {
      var r := LastSectionAt(sections, p);
      assert r.Some?;
    }
  }

  /** Highlighting twice at the same scroll position gives the flags of highlighting once. */
  lemma HighlightIdempotent(links: seq<bool>, hrefs: seq<string>, sections: seq<Section>, scrollY: int)
    requires |hrefs| == |links|
    ensures var once := HighlightedLinks(links, hrefs, sections, scrollY);
      HighlightedLinks(once, hrefs, sections, scrollY) == once
  {
  }

  /** Sections with different ids mark disjoint sets of links. */
  lemma DifferentIdsMarkDisjointLinks(hrefs: seq<string>, a: string, b: string)
    requires a != b
    ensures forall i :: 0 <= i < |hrefs| ==>
      !(LinksMatching(hrefs, LinkTarget(a))[i] && LinksMatching(hrefs, LinkTarget(b))[i])
  {
    LinkTargetInjective(a, b);
  }

  /** When no two links share an `href`, the rewrite on a hit leaves at most one link active. */
  lemma {:induction false} DistinctHrefsActivateAtMostOne(hrefs: seq<string>, target: string)
    requires forall i, j :: 0 <= i < j < |hrefs| ==> hrefs[i] != hrefs[j]
    ensures CountActive(LinksMatching(hrefs, target)) <= 1
  {
    var flags := LinksMatching(hrefs, target);
    if k :| 0 <= k < |hrefs| && hrefs[k] == target {
      assert flags == OnlyActive(|hrefs|, k);
      OnlyActiveCount(|hrefs|, k);
    } else {
      assert forall i :: 0 <= i < |flags| ==> !flags[i];
    }
  }

  /**
    When no two links share an `href` and at most one link is active before,
    at most one is active after a highlight, whether or not a section spans
    the probe point.
  */
  lemma HighlightKeepsAtMostOneActive(links: seq<bool>, hrefs: seq<string>, sections: seq<Section>, scrollY: int)
    requires |hrefs| == |links|
    requires forall i, j :: 0 <= i < j < |hrefs| ==> hrefs[i] != hrefs[j]
    requires CountActive(links) <= 1
    ensures CountActive(HighlightedLinks(links, hrefs, sections, scrollY)) <= 1
  {
    match LastSectionAt(sections, scrollY + ProbeOffset)
    case None =>
    case Some(k) => DistinctHrefsActivateAtMostOne(hrefs, LinkTarget(sections[k].id));
  }

  class NavBar {
    /** The navbar's `scrolled` class. */
    var scrolled: bool
    /** The `active` class of the link list (`#navLinks`): the mobile menu is open. */
    var menuOpen: bool
    /** The `active` class of the menu button (`#mobileMenuToggle`). */
    var toggleActive: bool
    /** The menu button exists; without it no toggle listener is registered. */
    const hasToggle: bool
    /** The `active` flags of the `.nav-links a` elements. */
    const links: array<bool>
    /** The `href` attribute of each of those links (a missing one reads as ""). */
    const hrefs: seq<string>

    /** The link list and its button are open or closed together; without a button the menu stays closed. */
    ghost predicate Valid()
      reads this
    {
      && |hrefs| == links.Length
      && (hasToggle ==> toggleActive == menuOpen)
      && (!hasToggle ==> !menuOpen && !toggleActive)
    }

    /** The navbar as the page is served: not scrolled, menu closed, links as given. */
    constructor (links: array<bool>, hrefs: seq<string>, hasToggle: bool)
      requires |hrefs| == links.Length
      ensures Valid()
      ensures this.links == links && this.hrefs == hrefs && this.hasToggle == hasToggle
      ensures !scrolled && !menuOpen
    {
      this.links := links;
      this.hrefs := hrefs;
      this.hasToggle := hasToggle;
      scrolled := false;
      menuOpen := false;
      toggleActive := false;
    }

    /** `handleNavbarScroll`: the navbar is `scrolled` exactly when the page is more than 50 pixels down. */
    method HandleNavbarScroll(scrollY: int)
      modifies this`scrolled
      ensures scrolled <==> scrollY > ScrolledThreshold
    {
      if scrollY > ScrolledThreshold {
        scrolled := true;
      } else {
        scrolled := false;
      }
    }

    /** The menu button's click listener: the link list and the button both flip. */
    method OnToggleClick()
      requires Valid()
      modifies this`menuOpen, this`toggleActive
      ensures Valid()
      ensures hasToggle ==> menuOpen == !old(menuOpen)
      ensures !hasToggle ==> menuOpen == old(menuOpen) && toggleActive == old(toggleActive)
    {
      if !hasToggle {
        return;
      }
      menuOpen := !menuOpen;
      toggleActive := !toggleActive;
    }

    /** The listener on each navigation link: the menu closes. */
    method OnLinkClick()
      requires Valid()
      modifies this`menuOpen, this`toggleActive
      ensures Valid()
      ensures !menuOpen && !toggleActive
    {
      menuOpen := false;
      if hasToggle {
        toggleActive := false;
      }
    }

    /** The document's click listener: a click outside the navbar closes an open menu. */
    method OnDocumentClick(targetInNavbar: bool)
      requires Valid()
      modifies this`menuOpen, this`toggleActive
      ensures Valid()
      ensures menuOpen == (old(menuOpen) && targetInNavbar)
    {
      if !targetInNavbar && menuOpen {
        CloseMenu();
      }
    }

    /** The document's keydown listener: Escape closes an open menu. */
    method OnKeyDown(key: string)
      requires Valid()
      modifies this`menuOpen, this`toggleActive
      ensures Valid()
      ensures menuOpen == (old(menuOpen) && key != "Escape")
    {
      if key == "Escape" && menuOpen {
        CloseMenu();
      }
    }

    /** Removes `active` from the link list and from the button. */
    method CloseMenu()
      requires Valid() && hasToggle
      modifies this`menuOpen, this`toggleActive
      ensures Valid() && !menuOpen
    {
      menuOpen := false;
      toggleActive := false;
    }

    /**
      `highlightNavOnScroll`: for every section spanning `scrollY + 100`, clear
      every link and mark those pointing at that section.
    */
    method HighlightNavOnScroll(scrollY: int, sections: seq<Section>)
      requires Valid()
      modifies links
      ensures links[..] == HighlightedLinks(old(links[..]), hrefs, sections, scrollY)
    {
      var scrollPosition := scrollY + ProbeOffset;
      for s := 0 to |sections|
        invariant links[..] == HighlightedLinks(old(links[..]), hrefs, sections[..s], scrollY)
      {
        assert sections[..s + 1][..s] == sections[..s];
        var section := sections[s];
        if scrollPosition >= section.top && scrollPosition < section.top + section.height {
          var target := LinkTarget(section.id);
          for i := 0 to links.Length
            invariant forall j :: 0 <= j < i ==> links[j] == (hrefs[j] == target)
          {
            links[i] := false;
            if hrefs[i] == target {
              links[i] := true;
            }
          }
        }
      }
      assert sections[..|sections|] == sections;
    }
  }

  /**
    A click on the menu button reaches the button's listener and then bubbles
    to the document's, with a target inside the navbar: the menu the first
    opened stays open.
  */
  method ClickOnToggle(nav: NavBar)
    requires nav.Valid() && nav.hasToggle
    modifies nav
    ensures nav.Valid()
    ensures nav.menuOpen == !old(nav.menuOpen)
  {
    nav.OnToggleClick();
    nav.OnDocumentClick(true);
  }
}
