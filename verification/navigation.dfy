/**
 * Page navigation: highlighting the navigation link of the section under the
 * scroll position, and the project filter buttons that show and hide project
 * cards by category.
 */
module Navigation {
  import opened Wrappers
  import opened JsText

  // ---------------------------------------------------------------------
  // Active navigation link

  /** A `.section` element: its `id` attribute and its offset box. */
  datatype Section = Section(id: Option<string>, top: int, height: int)

  /** A `.nav__link` element: its `href` attribute and whether it has class `active`. */
  datatype NavLink = NavLink(href: Option<string>, active: bool)

  /** The probe point sits 100 pixels below the top of the viewport. */
  const ProbeOffset: int := 100

  predicate Covers(s: Section, position: int) {
    s.top <= position < s.top + s.height
  }

  /** Index of the last section, in document order, that covers `position`. */
  function LastCovering(sections: seq<Section>, position: int): (r: Option<nat>)
    ensures r.Some? ==> r.value < |sections| && Covers(sections[r.value], position)
    ensures r.Some? ==> forall k | r.value < k < |sections| :: !Covers(sections[k], position)
    ensures r.None? ==> forall k | 0 <= k < |sections| :: !Covers(sections[k], position)
  {
    if sections == [] then None
    else if Covers(sections[|sections| - 1], position) then Some(|sections| - 1)
    else LastCovering(sections[..|sections| - 1], position)
  }

  /** The `href` the selector `.nav__link[href="#<id>"]` asks for; a missing
      id is interpolated as the text `null`. */
  function AnchorFor(id: Option<string>): string {
    "#" + id.GetOr("null")
  }

  /** `document.querySelector`: the first link whose `href` is exactly `href`. */
  function FirstLinkTo(links: seq<NavLink>, href: string): (r: Option<nat>)
    ensures r.Some? ==> r.value < |links| && links[r.value].href == Some(href)
    ensures r.Some? ==> forall k | 0 <= k < r.value :: links[k].href != Some(href)
    ensures r.None? ==> forall k | 0 <= k < |links| :: links[k].href != Some(href)
  {
    if links == [] then None
    else if links[0].href == Some(href) then Some(0)
    else match FirstLinkTo(links[1..], href)
      case None => None
      case Some(k) => Some(k + 1)
  }

  /** The links after highlighting the section `id`: every link loses `active`
      and the first link to `#id`, if there is one, gains it. */
  function Highlighted(links: seq<NavLink>, id: Option<string>): (r: seq<NavLink>)
    ensures |r| == |links|
    ensures forall k | 0 <= k < |r| :: r[k].href == links[k].href
    ensures forall k | 0 <= k < |r| :: r[k].active <==> FirstLinkTo(links, AnchorFor(id)) == Some(k)
  {
    var target := FirstLinkTo(links, AnchorFor(id));
    seq(|links|, k requires 0 <= k < |links| => links[k].(active := target == Some(k)))
  }

  /** The links after `updateActiveNav` at scroll offset `scrollY`. */
  function ActiveNav(sections: seq<Section>, links: seq<NavLink>, scrollY: int): seq<NavLink> {
    match LastCovering(sections, scrollY + ProbeOffset)
    case None => links
    case Some(k) => Highlighted(links, sections[k].id)
  }

  /** When no section covers the probe point the links keep their classes;
      otherwise exactly one link is active at most, the first one that points
      at the last covering section. */
  lemma ActiveNavOutcome(sections: seq<Section>, links: seq<NavLink>, scrollY: int)
    ensures var r := ActiveNav(sections, links, scrollY);
            var k := LastCovering(sections, scrollY + ProbeOffset);
            && (k.None? ==> r == links)
            && (k.Some? ==> forall j, j' | 0 <= j < j' < |r| :: !(r[j].active && r[j'].active))
            && (k.Some? ==> forall j | 0 <= j < |r| ::
                  r[j].active <==> FirstLinkTo(links, AnchorFor(sections[k.value].id)) == Some(j))
  {
  }

  lemma {:induction false} FirstLinkSameHrefs(a: seq<NavLink>, b: seq<NavLink>, href: string)
    requires |a| == |b| && forall k | 0 <= k < |a| :: a[k].href == b[k].href
    ensures FirstLinkTo(a, href) == FirstLinkTo(b, href)
  {
    if a != [] {
      FirstLinkSameHrefs(a[1..], b[1..], href);
    }
  }

  /** `updateActiveNav`: walk the sections in document order; at every section
      covering the probe point, clear all links and activate the one for it. */
  method UpdateActiveNav(sections: seq<Section>, links: array<NavLink>, scrollY: int)
    modifies links
    ensures links[..] == ActiveNav(sections, old(links[..]), scrollY)
  {
    ghost var orig := links[..];
    var position := scrollY + ProbeOffset;
    var i := 0;
    while i < |sections|
      invariant 0 <= i <= |sections|
      invariant links[..] == ActiveNav(sections[..i], orig, scrollY)
    {
      assert sections[..i + 1][..i] == sections[..i];
      var s := sections[i];
      if position >= s.top && position < s.top + s.height {
        var j := 0;
        while j < links.Length
          invariant 0 <= j <= links.Length
          invariant forall k | 0 <= k < j :: links[k] == orig[k].(active := false)
          invariant forall k | j <= k < links.Length :: links[k].href == orig[k].href
        {
          links[j] := links[j].(active := false);
          j := j + 1;
        }
        var href := AnchorFor(s.id);
        j := 0;
        while j < links.Length && links[j].href != Some(href)
          invariant 0 <= j <= links.Length
          invariant forall k | 0 <= k < j :: links[k].href != Some(href)
        {
          j := j + 1;
        }
        FirstLinkSameHrefs(links[..], orig, href);
        if j < links.Length {
          links[j] := links[j].(active := true);
        }
        assert links[..] == Highlighted(orig, s.id);
      }
      i := i + 1;
    }
    assert sections[..i] == sections;
  }

  // ---------------------------------------------------------------------
  // Project filter

  /** A `.filter-btn`: its `data-filter` attribute and whether it is `active`. */
  datatype FilterButton = FilterButton(filter: Option<string>, active: bool)

  /** How a project card is displayed once its transition timers have run. */
  datatype Visibility = Untouched | Shown | Hidden

  /** A `.project-card`: its `data-category` attribute and its visibility. */
  datatype Card = Card(category: Option<string>, visibility: Visibility)

  /** The filter rule: `all` shows every card, any other filter shows the
      cards whose category contains it (a missing filter is the text `null`). */
  predicate Matches(filter: Option<string>, category: string) {
    filter == Some("all") || Includes(category, filter.GetOr("null"))
  }

  /** A card the click handler cannot classify: its category is missing and
      the filter is not `all`, so `category.includes` throws. */
  predicate Faulty(filter: Option<string>, c: Card) {
    filter != Some("all") && c.category.None?
  }

  /** Index of the first card the handler throws on, or the card count. */
  function FirstFault(filter: Option<string>, cards: seq<Card>): (n: nat)
    ensures n <= |cards|
    ensures forall k | 0 <= k < n :: !Faulty(filter, cards[k])
    ensures n < |cards| ==> Faulty(filter, cards[n])
  {
    if cards == [] then 0
    else if Faulty(filter, cards[0]) then 0
    else 1 + FirstFault(filter, cards[1..])
  }

  function Classified(filter: Option<string>, c: Card): Card
    requires !Faulty(filter, c)
  {
    c.(visibility := if Matches(filter, c.category.GetOr("")) then Shown else Hidden)
  }

  /** The click handler of button `clicked`: exactly the clicked button
      becomes active; then each card, in order, is shown if it matches the
      button's filter and hidden otherwise, until a card without a category
      makes the handler throw. `completed` tells whether every card was reached. */
  method FilterClick(buttons: array<FilterButton>, cards: array<Card>, clicked: nat) returns (completed: bool)
    requires clicked < buttons.Length
    modifies buttons, cards
    ensures forall k | 0 <= k < buttons.Length ::
              buttons[k] == old(buttons[k]).(active := k == clicked)
    ensures var filter := old(buttons[clicked].filter);
            var stop := FirstFault(filter, old(cards[..]));
            && completed == (stop == cards.Length)
            && (forall k | 0 <= k < stop :: cards[k] == Classified(filter, old(cards[k])))
            && (forall k | stop <= k < cards.Length :: cards[k] == old(cards[k]))
  {
    var j := 0;
    while j < buttons.Length
      modifies buttons
      invariant 0 <= j <= buttons.Length
      invariant forall k | 0 <= k < j :: buttons[k] == old(buttons[k]).(active := false)
      invariant forall k | j <= k < buttons.Length :: buttons[k] == old(buttons[k])
    {
      buttons[j] := buttons[j].(active := false);
      j := j + 1;
    }
    buttons[clicked] := buttons[clicked].(active := true);
    var filter := buttons[clicked].filter;
    ghost var stop := FirstFault(filter, old(cards[..]));
    var i := 0;
    while i < cards.Length
      modifies cards
      invariant 0 <= i <= stop
      invariant forall k | 0 <= k < i :: cards[k] == Classified(filter, old(cards[k]))
      invariant forall k | i <= k < cards.Length :: cards[k] == old(cards[k])
    {
      var card := cards[i];
      if filter == Some("all") {
        cards[i] := card.(visibility := Shown);
      } else if card.category.None? {
        return false;
      } else if Includes(card.category.value, filter.GetOr("null")) {
        cards[i] := card.(visibility := Shown);
      } else {
        cards[i] := card.(visibility := Hidden);
      }
      i := i + 1;
    }
    completed := true;
  }

  /** With the filter `all` every card is shown and the handler never throws. */
  lemma AllShowsEverything(cards: seq<Card>)
    ensures FirstFault(Some("all"), cards) == |cards|
    ensures forall k | 0 <= k < |cards| :: Classified(Some("all"), cards[k]).visibility == Shown
  {
  }

  /** A card is shown exactly when its category contains the filter text at some position. */
  lemma ShownIffSubstring(filter: string, c: Card)
    requires filter != "all" && c.category.Some?
    ensures Classified(Some(filter), c).visibility == Shown <==>
            exists i: nat :: OccursAt(c.category.value, filter, i)
  {
    var cat := c.category.value;
    if Includes(cat, filter) {
      var i := IncludesWitness(cat, filter);
      assert OccursAt(cat, filter, i);
    }
    if exists i: nat :: OccursAt(cat, filter, i) {
      var i: nat :| OccursAt(cat, filter, i);
      IncludesAt(cat, filter, i);
    }
  }
}
