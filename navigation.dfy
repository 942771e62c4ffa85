/**
 * The scroll listener that decides which page section is current and highlights the
 * navigation item pointing at it.
 */
module Navigation {
  import opened Js

  /** A section counts as reached this many pixels before its top edge scrolls into place. */
  const Lookahead: int := 200

  /**
   * A `<section>` as the listener reads it: its `id` attribute (absent when the markup gives
   * none, in which case `getAttribute` returns null), its `offsetTop` and its `clientHeight`.
   */
  datatype Section = Section(id: Option<string>, top: int, height: int)

  /** `window.pageYOffset >= section.offsetTop - 200`. */
  predicate Reached(s: Section, scroll: real)
  {
    scroll >= (s.top - Lookahead) as real
  }

  /** The index of the last reached section in document order, or -1 when none is reached. */
  function LastReached(sections: seq<Section>, scroll: real): (k: int)
    ensures -1 <= k < |sections|
    ensures k >= 0 ==> Reached(sections[k], scroll)
    ensures forall j | k < j < |sections| :: !Reached(sections[j], scroll)
    decreases |sections|
  {
    if sections == [] then -1
    else if Reached(sections[|sections| - 1], scroll) then |sections| - 1
    else LastReached(sections[..|sections| - 1], scroll)
  }

  /** The value `current` holds once the listener's first loop is done. It starts as `''`. */
  function Current(sections: seq<Section>, scroll: real): Option<string>
  {
    var k := LastReached(sections, scroll);
    if k < 0 then Some("") else sections[k].id
  }

  /** The first loop of the scroll listener: every reached section overwrites `current`. */
  method ResolveCurrent(sections: seq<Section>, scroll: real) returns (current: Option<string>)
    ensures current == Current(sections, scroll)
    ensures (forall j | 0 <= j < |sections| :: !Reached(sections[j], scroll)) ==> current == Some("")
    ensures forall k | 0 <= k < |sections| && Reached(sections[k], scroll) &&
                       (forall j | k < j < |sections| :: !Reached(sections[j], scroll)) ::
              current == sections[k].id
  {
    current := Some("");
    var i := 0;
    while i < |sections|
      invariant 0 <= i <= |sections|
      invariant current == Current(sections[..i], scroll)
    {
      assert sections[..i + 1][..i] == sections[..i];
      if Reached(sections[i], scroll) {
        current := sections[i].id;
      }
      i := i + 1;
    }
    assert sections[..i] == sections;
    CurrentIsLastReachedId(sections, scroll);
  }

  /** `current` stays `''` when no section is reached, and is otherwise the id of the last reached section. */
  lemma CurrentIsLastReachedId(sections: seq<Section>, scroll: real)
    ensures (forall j | 0 <= j < |sections| :: !Reached(sections[j], scroll)) ==> Current(sections, scroll) == Some("")
    ensures forall k | 0 <= k < |sections| && Reached(sections[k], scroll) &&
                       (forall j | k < j < |sections| :: !Reached(sections[j], scroll)) ::
              Current(sections, scroll) == sections[k].id
  {
    var m := LastReached(sections, scroll);
    forall k | 0 <= k < |sections| && Reached(sections[k], scroll) &&
               (forall j | k < j < |sections| :: !Reached(sections[j], scroll))
      ensures Current(sections, scroll) == sections[k].id
    {
      assert k == m;
    }
  }

  /** The resolved section is the last reached one: no reached section follows it. */
  lemma CurrentIsLastReached(sections: seq<Section>, scroll: real, k: nat)
    requires k < |sections| && Reached(sections[k], scroll)
    ensures exists m | k <= m < |sections| :: Reached(sections[m], scroll) && Current(sections, scroll) == sections[m].id
  {
    var m := LastReached(sections, scroll);
    assert k <= m;
  }

  /** Among sections sharing a top offset, the later one in document order wins. */
  lemma TieGoesToLater(sections: seq<Section>, scroll: real, i: nat, j: nat)
    requires i < j < |sections| && sections[i].top == sections[j].top
    requires Reached(sections[i], scroll)
    ensures LastReached(sections, scroll) >= j
  {
    assert Reached(sections[j], scroll);
  }

  /** Section height never affects the result: only ids and tops are consulted. */
  lemma {:induction false} HeightIrrelevant(sections: seq<Section>, others: seq<Section>, scroll: real)
    requires |sections| == |others|
    requires forall j | 0 <= j < |sections| :: sections[j].id == others[j].id && sections[j].top == others[j].top
    ensures Current(sections, scroll) == Current(others, scroll)
  {
    assert forall j | 0 <= j < |sections| :: Reached(sections[j], scroll) == Reached(others[j], scroll);
  }

  /** Scrolling further down never moves the current section back up the document. */
  lemma ScrollingDownNeverGoesBack(sections: seq<Section>, scroll: real, further: real)
    requires scroll <= further
    ensures LastReached(sections, scroll) <= LastReached(sections, further)
  {
    var k := LastReached(sections, scroll);
    if k >= 0 {
      assert Reached(sections[k], further);
    }
  }

  predicate StrictlyIncreasingTops(sections: seq<Section>)
  {
    forall i, j | 0 <= i < j < |sections| :: sections[i].top < sections[j].top
  }

  /**
   * With sections laid out top to bottom, the resolved section is the one with the greatest
   * top whose top minus 200 is at or above the scroll offset; none is current above them all.
   */
  lemma SortedSectionsResolveToDeepestReached(sections: seq<Section>, scroll: real)
    requires StrictlyIncreasingTops(sections)
    ensures var k := LastReached(sections, scroll);
            && (forall j | 0 <= j <= k :: Reached(sections[j], scroll))
            && (forall j | k < j < |sections| :: (sections[j].top - Lookahead) as real > scroll)
  {
    var k := LastReached(sections, scroll);
    forall j | 0 <= j <= k ensures Reached(sections[j], scroll) {
      if j < k {
        assert sections[j].top < sections[k].top;
      }
    }
  }

  /** A navigation item: its `href` attribute and whether it carries the class `active`. */
  datatype NavItem = NavItem(href: string, active: bool)

  /** `item.getAttribute('href').slice(1) === current`, where `null` equals no string. */
  predicate Targets(href: string, current: Option<string>)
  {
    current == Some(Slice1(href))
  }

  /** Every item is active exactly when it targets `current`. */
  predicate HighlightedFor(items: seq<NavItem>, current: Option<string>)
  {
    forall i | 0 <= i < |items| :: items[i].active <==> Targets(items[i].href, current)
  }

  /** Only the `active` flags differ between the two lists of items. */
  predicate SameHrefs(items: seq<NavItem>, before: seq<NavItem>)
  {
    |items| == |before| && forall i | 0 <= i < |items| :: items[i].href == before[i].href
  }

  /** The second loop of the scroll listener: clear `active` on each item, then set it on the items targeting `current`. */
  method Highlight(items: array<NavItem>, current: Option<string>)
    modifies items
    ensures HighlightedFor(items[..], current)
    ensures SameHrefs(items[..], old(items[..]))
  {
    for i := 0 to items.Length
      invariant HighlightedFor(items[..i], current)
      invariant SameHrefs(items[..], old(items[..]))
    {
      items[i] := items[i].(active := false);
      if Targets(items[i].href, current) {
        items[i] := items[i].(active := true);
      }
      assert items[..i + 1][i] == items[i];
    }
    assert items[..] == items[..items.Length];
  }

  /** The whole scroll listener: resolve the current section, then highlight its navigation items. */
  method OnScroll(sections: seq<Section>, scroll: real, items: array<NavItem>)
    modifies items
    ensures HighlightedFor(items[..], Current(sections, scroll))
    ensures SameHrefs(items[..], old(items[..]))
  {
    var current := ResolveCurrent(sections, scroll);
    Highlight(items, current);
  }

  /** No two items point at the same section. */
  predicate DistinctTargets(items: seq<NavItem>)
  {
    forall i, j | 0 <= i < j < |items| :: Slice1(items[i].href) != Slice1(items[j].href)
  }

  /** When no two items point at the same section, at most one item is active after a scroll. */
  lemma AtMostOneActive(items: seq<NavItem>, current: Option<string>, i: nat, j: nat)
    requires HighlightedFor(items, current) && DistinctTargets(items)
    requires i < |items| && j < |items| && items[i].active && items[j].active
    ensures i == j
  {
  }

  /**
   * Above every section `current` stays `''`, so the items left active are exactly those whose
   * `href` is at most one character long (such as `#`); a reached section without an `id`
   * leaves no item active.
   */
  lemma NothingReachedHighlightsBareHrefs(sections: seq<Section>, scroll: real, items: seq<NavItem>)
    requires HighlightedFor(items, Current(sections, scroll))
    ensures (forall j | 0 <= j < |sections| :: !Reached(sections[j], scroll)) ==>
              forall i | 0 <= i < |items| :: items[i].active <==> |items[i].href| <= 1
    ensures Current(sections, scroll) == None ==> forall i | 0 <= i < |items| :: !items[i].active
  {
    if forall j | 0 <= j < |sections| :: !Reached(sections[j], scroll) {
      assert LastReached(sections, scroll) == -1;
      forall i | 0 <= i < |items| ensures items[i].active <==> |items[i].href| <= 1 {
        var h := items[i].href;
        if |h| > 1 {
          assert Slice1(h)[0] == h[1];
        } else {
          assert Slice1(h) == "";
        }
      }
    }
  }
}
