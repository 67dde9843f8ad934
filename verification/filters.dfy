/**
 * The click handlers of the carousel's filter buttons (setupFilterHandlers
 * and setupComeetFilters in assets/comeet-slider.js).  A click takes the
 * `active` class off every button, puts it on the clicked one, and shows
 * exactly the slides its filter selects, hiding the rest.
 */
module Filters {
  import opened Wrappers
  import Slider

  /**
   * A button whose filter is `f` shows a slide whose category is `c`:
   * `f === 'all' || c === f`.  A missing attribute is None on both sides
   * (getAttribute's null, or dataset's undefined, equals itself).
   */
  predicate Shows(f: Option<string>, c: Option<string>) {
    f == Some("all") || c == f
  }

  /** How many of the slides with categories `cats` the filter `f` shows. */
  function CountShown(f: Option<string>, cats: seq<Option<string>>): nat {
    if cats == [] then 0
    else CountShown(f, cats[..|cats| - 1]) + (if Shows(f, cats[|cats| - 1]) then 1 else 0)
  }

  /** The count is at most the number of slides, all of them for "all", and zero only when no slide is shown. */
  lemma {:induction false} CountShownSpec(f: Option<string>, cats: seq<Option<string>>)
    ensures CountShown(f, cats) <= |cats|
    ensures f == Some("all") ==> CountShown(f, cats) == |cats|
    ensures CountShown(f, cats) == 0 <==> forall s :: 0 <= s < |cats| ==> !Shows(f, cats[s])
  {
    if cats != [] {
      var init := cats[..|cats| - 1];
      CountShownSpec(f, init);
      assert forall s :: 0 <= s < |init| ==> init[s] == cats[s];
    }
  }

  /** The buttons and slides of one carousel, with the button classes and slide visibility the handlers change. */
  class FilterBar {
    /** The filter attribute of each button, in document order. */
    const filters: seq<Option<string>>
    /** The category attribute of each slide, in document order. */
    const categories: seq<Option<string>>
    /** Whether each button has the `active` class. */
    const active: array<bool>
    /** Whether each slide is displayed. */
    const shown: array<bool>

    ghost predicate Valid() {
      active.Length == |filters| && shown.Length == |categories| && active != shown
    }

    /** The state as built: the first button ("all") active and every slide displayed. */
    constructor (filters: seq<Option<string>>, categories: seq<Option<string>>)
      ensures Valid() && this.filters == filters && this.categories == categories
      ensures fresh(active) && fresh(shown)
      ensures forall i :: 0 <= i < active.Length ==> (active[i] <==> i == 0)
      ensures forall s :: 0 <= s < shown.Length ==> shown[s]
    {
      this.filters := filters;
      this.categories := categories;
      active := new bool[|filters|](i => i == 0);
      shown := new bool[|categories|](s => true);
    }

    /**
     * A click on button `b`: afterwards exactly that button is active and
     * a slide is displayed exactly when the button's filter shows it.  The
     * result is the number of slides displayed (setupComeetFilters counts
     * them for its log line).
     */
    method Click(b: nat) returns (visible: nat)
      requires Valid() && b < |filters|
      modifies active, shown
      ensures Valid()
      ensures forall i :: 0 <= i < active.Length ==> (active[i] <==> i == b)
      ensures forall s :: 0 <= s < shown.Length ==> (shown[s] <==> Shows(filters[b], categories[s]))
      ensures visible == CountShown(filters[b], categories)
    {
      for i := 0 to active.Length
        invariant forall k :: 0 <= k < i ==> !active[k]
      {
        active[i] := false;
      }
      active[b] := true;
      visible := 0;
      for s := 0 to shown.Length
        invariant forall k :: 0 <= k < active.Length ==> (active[k] <==> k == b)
        invariant forall k :: 0 <= k < s ==> (shown[k] <==> Shows(filters[b], categories[k]))
        invariant visible == CountShown(filters[b], categories[..s])
      {
        assert categories[..s + 1][..s] == categories[..s];
        if Shows(filters[b], categories[s]) {
          shown[s] := true;
          visible := visible + 1;
        } else {
          shown[s] := false;
        }
      }
      assert categories[..shown.Length] == categories;
    }
  }

  /** The filter attributes of the buttons createFilterButtons makes: "all", then one per category. */
  function ButtonFilters(cats: seq<string>): seq<Option<string>> {
    [Some("all")] + seq(|cats|, i requires 0 <= i < |cats| => Some(cats[i]))
  }

  /** The category attributes of the built slides. */
  function SlideCategories(slides: seq<Slider.Slide>): seq<Option<string>> {
    seq(|slides|, i requires 0 <= i < |slides| => Some(slides[i].category))
  }

  /**
   * On a carousel built from `items`, no filter button leaves it empty:
   * "all" shows every slide, and each category button shows at least the
   * slide its category came from.
   */
  lemma ButtonNeverEmpties(items: seq<Slider.Item>, slides: seq<Slider.Slide>, b: nat)
    requires items != [] && |slides| == |items|
    requires forall i :: 0 <= i < |items| ==> slides[i] == Slider.SlideOf(items[i])
    requires b < |ButtonFilters(Slider.FilterCategories(items))|
    ensures CountShown(ButtonFilters(Slider.FilterCategories(items))[b], SlideCategories(slides)) > 0
  {
    Slider.FiltersMatchSlides(items, slides);
    EveryButtonShowsSome(Slider.FilterCategories(items), slides, b);
  }

  /** Buttons whose categories all occur among the slides each show at least one slide. */
  lemma EveryButtonShowsSome(cats: seq<string>, slides: seq<Slider.Slide>, b: nat)
    requires slides != [] && b < |ButtonFilters(cats)|
    requires forall c :: c in cats ==> exists i :: 0 <= i < |slides| && slides[i].category == c
    ensures CountShown(ButtonFilters(cats)[b], SlideCategories(slides)) > 0
  {
    var f := ButtonFilters(cats)[b];
    var sc := SlideCategories(slides);
    CountShownSpec(f, sc);
    if b == 0 {
      assert Shows(f, sc[0]);
    } else {
      assert cats[b - 1] in cats;
      var s :| 0 <= s < |slides| && slides[s].category == cats[b - 1];
      assert Shows(f, sc[s]);
    }
  }
}
