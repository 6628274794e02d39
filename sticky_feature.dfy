/**
  The sticky-feature widget (`initStickyFeature` in script.js): the content and
  media items of the section, their `active` flags, and the handlers that keep
  those flags in step with the scroll position.

  The browser's side is explicit here. The top edges of the content items
  (`getBoundingClientRect().top`), `innerHeight` and `innerWidth` are
  parameters of every handler, read afresh as the source reads them. Registering
  the scroll and resize listeners is the flag `listening`; a frame requested
  with `requestAnimationFrame` is counted in `pendingFrames` and runs when the
  caller invokes `RunFrame`.
*/
module StickyFeature {
  import opened ActiveFlags
  import opened StickySelection

  /**
    The loop that picks the active index: every content item in order, the
    last one whose top edge is at or above the middle of the viewport wins.
  */
  method FindActiveIndex(tops: seq<int>, innerHeight: int) returns (activeIndex: nat)
    ensures activeIndex == SelectedIndex(tops, innerHeight)
    ensures |tops| > 0 ==> activeIndex < |tops|
  {
    activeIndex := 0;
    var index := 0;
    while index < |tops|
      invariant 0 <= index <= |tops|
      invariant activeIndex == SelectedIndex(tops[..index], innerHeight)
    {
      assert tops[..index + 1][..index] == tops[..index];
      if AtOrAboveMiddle(tops[index], innerHeight) {
        activeIndex := index;
      }
      index := index + 1;
    }
    assert tops[..index] == tops;
  }

  class Widget {
    /** The `.js-sticky-feature__content-item` elements' `active` flags. */
    const content: array<bool>
    /** The `.js-sticky-feature__media-item` elements' `active` flags. */
    const media: array<bool>
    /** The scroll and resize listeners are registered. */
    var listening: bool
    /** The closure flag `ticking`: a frame has been requested and has not run yet. */
    var ticking: bool
    /** The number of requested animation frames that have not run yet. */
    var pendingFrames: nat

    /** At most one frame is ever pending, and only while `ticking` says so. */
    ghost predicate Valid()
      reads this
    {
      && content != media
      && pendingFrames == (if ticking then 1 else 0)
      && (ticking ==> listening)
      && (listening ==> content.Length > 0 && media.Length > 0)
    }

    /** The current flags of both lists. */
    function State(): (f: Flags)
      reads this, content, media
      ensures |f.content| == content.Length && |f.media| == media.Length
    {
      Flags(content[..], media[..])
    }

    /** The two NodeLists the widget is built over, before anything runs. */
    constructor (content: array<bool>, media: array<bool>)
      requires content != media
      ensures Valid()
      ensures this.content == content && this.media == media
      ensures !listening && !ticking && pendingFrames == 0
    {
      this.content := content;
      this.media := media;
      listening := false;
      ticking := false;
      pendingFrames := 0;
    }

    /**
      `initStickyFeature` after the two queries. With no section or an empty
      list it does nothing. On the mobile layout it marks every content item,
      leaves the media items alone and registers no listener. Otherwise it marks
      the first pair, registers the listeners and evaluates once, so the first
      pair is immediately replaced by the evaluated one.
    */
    method Init(sectionPresent: bool, tops: seq<int>, innerHeight: int, innerWidth: int)
      requires Valid() && !listening
      requires |tops| == content.Length
      modifies this, content, media
      ensures Valid() && !ticking
      ensures !sectionPresent || content.Length == 0 || media.Length == 0 ==>
        !listening && State() == old(State())
      ensures sectionPresent && content.Length > 0 && media.Length > 0 && innerWidth <= MobileMaxWidth ==>
        !listening && State() == Flags(AllActive(content.Length), old(media[..]))
      ensures sectionPresent && content.Length > 0 && media.Length > 0 && innerWidth > MobileMaxWidth ==>
        listening && State() == StickyScroll(old(State()), tops, innerHeight, innerWidth)
    {
      if !sectionPresent {
        return;
      }
      if content.Length == 0 || media.Length == 0 {
        return;
      }
      if innerWidth <= MobileMaxWidth {
        MarkAllActive(content);
        return;
      }
      content[0] := true;
      media[0] := true;
      listening := true;
      HandleStickyScroll(tops, innerHeight, innerWidth);
      StickyScrollForgetsPriorState(State(), old(State()), tops, innerHeight, innerWidth);
    }

    /**
      `handleStickyScroll`: on the desktop layout, mark the selected content
      item and the media item at the same index, and clear every other one.
    */
    method HandleStickyScroll(tops: seq<int>, innerHeight: int, innerWidth: int)
      requires Valid()
      requires |tops| == content.Length
      modifies content, media
      ensures State() == StickyScroll(old(State()), tops, innerHeight, innerWidth)
    {
      if innerWidth <= MobileMaxWidth {
        return;
      }
      var activeIndex := FindActiveIndex(tops, innerHeight);
      MarkOnlyActive(content, activeIndex);
      MarkOnlyActive(media, activeIndex);
    }

    /** The scroll listener: request a frame unless one is already pending. */
    method OnScroll()
      requires Valid()
      modifies this`ticking, this`pendingFrames
      ensures Valid()
      ensures ticking == (old(ticking) || listening)
      ensures pendingFrames == if listening && !old(ticking) then old(pendingFrames) + 1 else old(pendingFrames)
      ensures pendingFrames <= 1
    {
      if !listening {
        return;
      }
      if !ticking {
        pendingFrames := pendingFrames + 1;
        ticking := true;
      }
    }

    /** The requested frame runs: one evaluation, then `ticking` is cleared. */
    method RunFrame(tops: seq<int>, innerHeight: int, innerWidth: int)
      requires Valid() && pendingFrames > 0
      requires |tops| == content.Length
      modifies this`ticking, this`pendingFrames, content, media
      ensures Valid()
      ensures !ticking && pendingFrames == old(pendingFrames) - 1
      ensures State() == StickyScroll(old(State()), tops, innerHeight, innerWidth)
    {
      HandleStickyScroll(tops, innerHeight, innerWidth);
      ticking := false;
      pendingFrames := pendingFrames - 1;
    }

    /**
      The resize listener: on the mobile layout every content item becomes
      active and the media items keep their flags; otherwise a fresh evaluation.
    */
    method OnResize(tops: seq<int>, innerHeight: int, innerWidth: int)
      requires Valid()
      requires |tops| == content.Length
      modifies content, media
      ensures !listening ==> State() == old(State())
      ensures listening ==> State() == Resize(old(State()), tops, innerHeight, innerWidth)
    {
      if !listening {
        return;
      }
      if innerWidth <= MobileMaxWidth {
        MarkAllActive(content);
      } else {
        HandleStickyScroll(tops, innerHeight, innerWidth);
      }
    }
  }

  /**
    A burst of scroll events before the next frame: however many arrive, the
    flags are untouched and exactly one frame is pending afterwards.
  */
  method ScrollBurst(w: Widget, scrolls: nat)
    requires w.Valid() && w.listening
    requires scrolls > 0
    modifies w
    ensures w.Valid() && w.listening && w.ticking && w.pendingFrames == 1
    ensures w.State() == old(w.State())
  {
    var fired := 0;
    while fired < scrolls
      invariant 0 <= fired <= scrolls
      invariant w.Valid() && w.listening
      invariant w.State() == old(w.State())
      invariant fired > 0 ==> w.ticking
    {
      w.OnScroll();
      fired := fired + 1;
    }
  }

  /** A burst of scroll events, then its one frame: one evaluation, and the widget is ready to request the next frame. */
  method ScrollBurstThenFrame(w: Widget, scrolls: nat, tops: seq<int>, innerHeight: int, innerWidth: int)
    requires w.Valid() && w.listening
    requires |tops| == w.content.Length
    requires scrolls > 0
    modifies w, w.content, w.media
    ensures w.Valid() && !w.ticking && w.pendingFrames == 0
    ensures w.State() == StickyScroll(old(w.State()), tops, innerHeight, innerWidth)
  {
    ScrollBurst(w, scrolls);
    w.RunFrame(tops, innerHeight, innerWidth);
  }

  /** The page of the worked example: three items, a 600-pixel-high desktop viewport. */
  method ExampleSection()
  {
    var content := new bool[3];
    var media := new bool[3];
    var w := new Widget(content, media);
    w.Init(true, [-50, 300, 800], 600, 1280);
    assert w.listening;
    assert content[..] == [false, true, false] && media[..] == [false, true, false];
    w.OnResize([-50, 300, 800], 600, 500);
    assert content[..] == [true, true, true] && media[..] == [false, true, false];
    w.OnScroll();
    w.OnScroll();
    assert w.pendingFrames == 1;
    w.RunFrame([50, 400, 900], 600, 1280);
    assert content[..] == [true, false, false] && media[..] == [true, false, false];
  }
}
