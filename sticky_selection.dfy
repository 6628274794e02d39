/**
  The pure rules of the sticky-feature section ("Our Approach"): which content
  item is active for a given layout of the page, and what the `active` flags of
  the content and media lists become when the section is evaluated or the
  window is resized.

  A top edge is compared with the middle of the viewport, `innerHeight / 2`;
  the comparison `top <= innerHeight / 2` is stated here as
  `2 * top <= innerHeight`, which is the same test without a division.
*/
module StickySelection {
  import opened ActiveFlags

  /** Widths at or below this many pixels are the mobile layout. */
  const MobileMaxWidth := 767

  /** An item whose top edge is at or above the middle of the viewport. */
  predicate AtOrAboveMiddle(top: int, innerHeight: int) {
    2 * top <= innerHeight
  }

  /**
    The active index: the last index whose top edge is at or above the middle
    of the viewport, or 0 when no item has reached it.
  */
  function SelectedIndex(tops: seq<int>, innerHeight: int): (k: nat)
    ensures |tops| == 0 ==> k == 0
    ensures |tops| > 0 ==> k < |tops|
    ensures k == 0 || AtOrAboveMiddle(tops[k], innerHeight)
    ensures forall j :: k < j < |tops| ==> !AtOrAboveMiddle(tops[j], innerHeight)
  {
    if |tops| == 0 then 0
    else if AtOrAboveMiddle(tops[|tops| - 1], innerHeight) then |tops| - 1
    else SelectedIndex(tops[..|tops| - 1], innerHeight)
  }

  /** The indices of the items that have reached the middle of the viewport. */
  function QualifyingIndices(tops: seq<int>, innerHeight: int): (q: set<nat>)
    ensures forall i :: i in q ==> i < |tops|
  {
    set i: nat | i < |tops| && AtOrAboveMiddle(tops[i], innerHeight)
  }

  /** The selected index is the largest qualifying index, or 0 when none qualifies. */
  lemma SelectedIndexIsLargestQualifying(tops: seq<int>, innerHeight: int)
    ensures QualifyingIndices(tops, innerHeight) == {} ==> SelectedIndex(tops, innerHeight) == 0
    ensures QualifyingIndices(tops, innerHeight) != {} ==>
      SelectedIndex(tops, innerHeight) in QualifyingIndices(tops, innerHeight)
    ensures forall i :: i in QualifyingIndices(tops, innerHeight) ==> i <= SelectedIndex(tops, innerHeight)
  {
    var k := SelectedIndex(tops, innerHeight);
    var q := QualifyingIndices(tops, innerHeight);
    if k != 0 {
      assert k in q;
    }
    if q != {} {
      var i :| i in q;
      assert i <= k;
    }
  }

  /** The rule's postconditions pin the index down: any index that meets them is the selected one. */
  lemma SelectedIndexUnique(tops: seq<int>, innerHeight: int, k: nat)
    requires k < |tops|
    requires k == 0 || AtOrAboveMiddle(tops[k], innerHeight)
    requires forall j :: k < j < |tops| ==> !AtOrAboveMiddle(tops[j], innerHeight)
    ensures k == SelectedIndex(tops, innerHeight)
  {
  }

  /** Tops that are nowhere lower (further down the viewport) never select an earlier item. */
  lemma SelectedIndexMonotone(tops: seq<int>, higher: seq<int>, innerHeight: int)
    requires |higher| == |tops|
    requires forall i :: 0 <= i < |tops| ==> higher[i] <= tops[i]
    ensures QualifyingIndices(tops, innerHeight) <= QualifyingIndices(higher, innerHeight)
    ensures SelectedIndex(tops, innerHeight) <= SelectedIndex(higher, innerHeight)
  {
    var k := SelectedIndex(tops, innerHeight);
    if k != 0 {
      assert AtOrAboveMiddle(higher[k], innerHeight);
    }
  }

  /** Every top edge after the page scrolls down by d pixels. */
  function ScrolledBy(tops: seq<int>, d: int): (moved: seq<int>)
    ensures |moved| == |tops|
  {
    seq(|tops|, i requires 0 <= i < |tops| => tops[i] - d)
  }

  /** Scrolling down never moves the active item back, whatever the order of the tops. */
  lemma ScrollingDownNeverMovesBack(tops: seq<int>, d: nat, innerHeight: int)
    ensures QualifyingIndices(tops, innerHeight) <= QualifyingIndices(ScrolledBy(tops, d), innerHeight)
    ensures SelectedIndex(tops, innerHeight) <= SelectedIndex(ScrolledBy(tops, d), innerHeight)
  {
    SelectedIndexMonotone(tops, ScrolledBy(tops, d), innerHeight);
  }

  /** Three items at tops -50, 300, 800 in a 600-pixel viewport: item 1 is the last to reach 300. */
  lemma ScenarioLastCrossedWins()
    ensures SelectedIndex([-50, 300, 800], 600) == 1
  {
  }

  /** Three items all below the middle of a 600-pixel viewport: the default index 0. */
  lemma ScenarioNoneCrossed()
    ensures SelectedIndex([50, 400, 900], 600) == 0
  {
  }

  /** The `active` flags of the content list and of the media list. */
  datatype Flags = Flags(content: seq<bool>, media: seq<bool>)

  /**
    One evaluation of the section (`handleStickyScroll`): nothing on the mobile
    layout; otherwise the selected index is marked in both lists.
  */
  function StickyScroll(f: Flags, tops: seq<int>, innerHeight: int, innerWidth: int): (r: Flags)
    ensures |r.content| == |f.content| && |r.media| == |f.media|
    ensures innerWidth <= MobileMaxWidth ==> r == f
  {
    if innerWidth <= MobileMaxWidth then f
    else
      var k := SelectedIndex(tops, innerHeight);
      Flags(OnlyActive(|f.content|, k), OnlyActive(|f.media|, k))
  }

  /** The resize handler: every content item on the mobile layout, otherwise a fresh evaluation. */
  function Resize(f: Flags, tops: seq<int>, innerHeight: int, innerWidth: int): (r: Flags)
    ensures |r.content| == |f.content| && |r.media| == |f.media|
    ensures innerWidth > MobileMaxWidth ==> r == StickyScroll(f, tops, innerHeight, innerWidth)
  {
    if innerWidth <= MobileMaxWidth then Flags(AllActive(|f.content|), f.media)
    else StickyScroll(f, tops, innerHeight, innerWidth)
  }

  /**
    On the desktop layout an evaluation leaves exactly one content item active,
    the selected one, and in the media list the item at the same index if there
    is one and no other.
  */
  lemma StickyScrollActivatesOnePair(f: Flags, tops: seq<int>, innerHeight: int, innerWidth: int)
    requires innerWidth > MobileMaxWidth
    requires |tops| == |f.content| > 0
    ensures var r := StickyScroll(f, tops, innerHeight, innerWidth);
      var k := SelectedIndex(tops, innerHeight);
      && CountActive(r.content) == 1 && r.content[k]
      && CountActive(r.media) == (if k < |f.media| then 1 else 0)
      && (k < |f.media| ==> r.media[k])
  {
    var k := SelectedIndex(tops, innerHeight);
    OnlyActiveCount(|f.content|, k);
    OnlyActiveCount(|f.media|, k);
  }

  /** Evaluating twice at the same scroll position gives the same flags as evaluating once. */
  lemma StickyScrollIdempotent(f: Flags, tops: seq<int>, innerHeight: int, innerWidth: int)
    ensures var once := StickyScroll(f, tops, innerHeight, innerWidth);
      StickyScroll(once, tops, innerHeight, innerWidth) == once
  {
  }

  /** The result of an evaluation does not depend on the flags it starts from, only on their counts. */
  lemma StickyScrollForgetsPriorState(f: Flags, g: Flags, tops: seq<int>, innerHeight: int, innerWidth: int)
    requires innerWidth > MobileMaxWidth
    requires |f.content| == |g.content| && |f.media| == |g.media|
    ensures StickyScroll(f, tops, innerHeight, innerWidth) == StickyScroll(g, tops, innerHeight, innerWidth)
  {
  }

  /** A resize onto the mobile layout marks every content item and leaves the media flags as they were. */
  lemma ResizeToMobileShowsAllContent(f: Flags, tops: seq<int>, innerHeight: int, innerWidth: int)
    requires innerWidth <= MobileMaxWidth
    ensures var r := Resize(f, tops, innerHeight, innerWidth);
      && r.media == f.media
      && CountActive(r.content) == |f.content|
  {
    AllActiveCount(|f.content|);
  }
}
