/**
 * The carousel script (assets/comeet-slider.js): which anchors count as
 * real links, how a slide's title is tidied, how a posting is classified
 * from its text, and what initSliderFromRoots builds from the collected
 * postings: at most 18 slides, the filter categories, and the filter
 * buttons only when there are at least two categories.
 */
module Slider {
  import opened Wrappers
  import opened Text
  import opened Seqs

  // ------------------------------------------------------------------
  // hasGoodHref
  // ------------------------------------------------------------------

  /** The link attributes of an anchor as getAttribute returns them: None for a missing attribute. */
  datatype Anchor = Anchor(href: Option<string>, dataUrl: Option<string>, dataHref: Option<string>)

  /** The attributes in the order the `||` chain tries them. */
  function Attributes(a: Anchor): seq<Option<string>> {
    [a.href, a.dataUrl, a.dataHref]
  }

  /** JavaScript truthiness of an attribute value: present and not the empty string. */
  predicate Truthy(v: Option<string>) {
    v.Some? && v.value != ""
  }

  /** `v0 || v1 || ... || ''`: the first truthy value, or the empty string. */
  function FirstTruthy(vs: seq<Option<string>>): string {
    if vs == [] then ""
    else if Truthy(vs[0]) then vs[0].value
    else FirstTruthy(vs[1..])
  }

  /** The link of an anchor before trimming. */
  function RawLink(a: Anchor): string {
    FirstTruthy(Attributes(a))
  }

  /** The chain yields the empty string only when no value is truthy, and otherwise the first truthy value. */
  lemma {:induction false} FirstTruthySpec(vs: seq<Option<string>>)
    ensures FirstTruthy(vs) == "" <==> forall k :: 0 <= k < |vs| ==> !Truthy(vs[k])
    ensures FirstTruthy(vs) != "" ==>
      exists k :: 0 <= k < |vs| && Truthy(vs[k]) && vs[k].value == FirstTruthy(vs)
        && forall m :: 0 <= m < k ==> !Truthy(vs[m])
  {
    if vs != [] && !Truthy(vs[0]) {
      FirstTruthySpec(vs[1..]);
      if FirstTruthy(vs) != "" {
        var k :| 0 <= k < |vs[1..]| && Truthy(vs[1..][k]) && vs[1..][k].value == FirstTruthy(vs[1..])
          && forall m :: 0 <= m < k ==> !Truthy(vs[1..][m]);
        assert vs[k + 1] == vs[1..][k];
        forall m | 0 <= m < k + 1
          ensures !Truthy(vs[m])
        {
          if m > 0 {
            assert vs[m] == vs[1..][m - 1];
          }
        }
      }
      forall k | 1 <= k < |vs|
        ensures vs[k] == vs[1..][k - 1]
      {
      }
    }
  }

  /** hasGoodHref: an anchor whose trimmed link is not empty, not "#", and does not start with "javascript". */
  predicate HasGoodHref(a: Option<Anchor>) {
    a.Some? &&
    var href := JsTrim(RawLink(a.value));
    !(href == "" || href == "#" || StartsWith(href, "javascript"))
  }

  /** No anchor, or an anchor with no usable attribute, or one whose link is only whitespace, is not a link. */
  lemma HasGoodHrefRejects(a: Option<Anchor>)
    ensures a.None? ==> !HasGoodHref(a)
    ensures a.Some? && (forall k :: 0 <= k < 3 ==> !Truthy(Attributes(a.value)[k])) ==> !HasGoodHref(a)
    ensures a.Some? && (forall i :: 0 <= i < |RawLink(a.value)| ==> IsJsSpace(RawLink(a.value)[i])) ==> !HasGoodHref(a)
  {
    if a.Some? {
      var s := RawLink(a.value);
      FirstTruthySpec(Attributes(a.value));
      var start := TrimSpec(s, IsJsSpace);
      var t := JsTrim(s);
    }
  }

  /** A link like "/careers/1" in href is good; an empty href falls through to data-url, and "#" there is not good. */
  lemma HasGoodHrefExamples()
    ensures HasGoodHref(Some(Anchor(Some("/careers/1"), None, None)))
    ensures !HasGoodHref(Some(Anchor(Some(""), Some("#"), Some("/careers/1"))))
  {
    TrimOfTrimmed("/careers/1", IsJsSpace);
    TrimOfTrimmed("#", IsJsSpace);
    assert RawLink(Anchor(Some(""), Some("#"), Some("/careers/1"))) == "#";
  }

  // ------------------------------------------------------------------
  // The slide title: .replace(/\s{2,}/g, ' ').trim()
  // ------------------------------------------------------------------

  function SlideTitle(text: string): string {
    JsTrim(CollapseRuns(text))
  }

  /**
   * The title has no two whitespace characters side by side and neither
   * starts nor ends with whitespace, and it keeps every other character of
   * the text, in order.
   */
  lemma SlideTitleSpec(text: string)
    ensures NoSpaceRuns(SlideTitle(text))
    ensures SlideTitle(text) == [] || (!IsJsSpace(SlideTitle(text)[0]) && !IsJsSpace(SlideTitle(text)[|SlideTitle(text)| - 1]))
    ensures Visible(SlideTitle(text), IsJsSpace) == Visible(text, IsJsSpace)
  {
    var c := CollapseRuns(text);
    CollapseRunsSpec(text);
    TrimKeeps(c);
  }

  /** Trimming a string keeps its runs-free shape and its other characters. */
  lemma TrimKeeps(c: string)
    ensures NoSpaceRuns(c) ==> NoSpaceRuns(JsTrim(c))
    ensures JsTrim(c) == [] || (!IsJsSpace(JsTrim(c)[0]) && !IsJsSpace(JsTrim(c)[|JsTrim(c)| - 1]))
    ensures Visible(JsTrim(c), IsJsSpace) == Visible(c, IsJsSpace)
  {
    var a := TrimSpec(c, IsJsSpace);
    var t := JsTrim(c);
    if NoSpaceRuns(c) {
      NoRunsSlice(c, a, a + |t|);
    }
    VisibleSkipsSpaces(c, a);
    assert c[a..] == t + c[a + |t|..];
    VisibleAppend(t, c[a + |t|..]);
    VisibleOfSpaces(c[a + |t|..]);
  }

  /** A slice of a string without whitespace runs has none either. */
  lemma NoRunsSlice(s: string, i: nat, j: nat)
    requires i <= j <= |s| && NoSpaceRuns(s)
    ensures NoSpaceRuns(s[i..j])
  {
    var t := s[i..j];
    forall p, q | 0 <= p < q < |t| && q == p + 1
      ensures !(IsJsSpace(t[p]) && IsJsSpace(t[q]))
    {
      assert t[p] == s[i + p] && t[q] == s[i + q];
    }
  }

  lemma {:induction false} VisibleAppend(s: string, t: string)
    ensures Visible(s + t, IsJsSpace) == Visible(s, IsJsSpace) + Visible(t, IsJsSpace)
  {
    if s != [] {
      assert (s + t)[1..] == s[1..] + t;
      VisibleAppend(s[1..], t);
    } else {
      assert s + t == t;
    }
  }

  lemma {:induction false} VisibleOfSpaces(s: string)
    requires forall i :: 0 <= i < |s| ==> IsJsSpace(s[i])
    ensures Visible(s, IsJsSpace) == []
  {
    if s != [] {
      VisibleOfSpaces(s[1..]);
    }
  }

  /**
   * What the tidy-up does at each whitespace run inside the title: a run of
   * two or more characters becomes one space, a lone whitespace character
   * (a tab, a newline) stays as it is, and the text on either side of the
   * run is tidied on its own.
   */
  lemma SlideTitleSplit(a: string, r: string, b: string)
    requires a != [] && !IsJsSpace(a[|a| - 1])
    requires r != [] && forall i :: 0 <= i < |r| ==> IsJsSpace(r[i])
    requires b != [] && !IsJsSpace(b[0])
    ensures SlideTitle(a + r + b) == SlideTitle(a) + (if |r| >= 2 then " " else r) + SlideTitle(b)
  {
    var m := if |r| >= 2 then " " else r;
    var x := CollapseRuns(a);
    var y := CollapseRuns(b);
    CollapseRunsSplit(a, r, b);
    CollapseRunsAppend(a, []);
    assert y == [b[0]] + CollapseRuns(b[1..]);
    TrimLeftStops(x, m + y, IsJsSpace);
    var l := TrimLeft(x, IsJsSpace);
    TrimRightStops(l + m, y, IsJsSpace);
    SeqAssoc(x, m, y);
    SeqAssoc(l, m, y);
  }

  /** Whitespace before the first visible character is dropped, whatever its length. */
  lemma SlideTitleLeading(r: string, b: string)
    requires r != [] && forall i :: 0 <= i < |r| ==> IsJsSpace(r[i])
    requires b == [] || !IsJsSpace(b[0])
    ensures SlideTitle(r + b) == SlideTitle(b)
  {
    CollapseRunsRun(r, b);
    TrimLeftSkips(if |r| >= 2 then " " else r, CollapseRuns(b), IsJsSpace);
  }

  /** Whitespace after the last visible character is dropped, whatever its length. */
  lemma SlideTitleTrailing(a: string, r: string)
    requires a == [] || !IsJsSpace(a[|a| - 1])
    requires r != [] && forall i :: 0 <= i < |r| ==> IsJsSpace(r[i])
    ensures SlideTitle(a + r) == SlideTitle(a)
  {
    var m := if |r| >= 2 then " " else r;
    CollapseRunsSplit(a, r, []);
    assert a + r + [] == a + r;
    var x := CollapseRuns(a);
    assert CollapseRuns(a + r) == x + m;
    if a == [] {
      TrimLeftSkips(m, [], IsJsSpace);
      assert x + m == m + [];
    } else {
      CollapseRunsAppend(a, []);
      TrimLeftStops(x, m, IsJsSpace);
      TrimRightSkips(TrimLeft(x, IsJsSpace), m, IsJsSpace);
    }
  }

  /**
   * Text without whitespace is kept as it is.  With SlideTitleSplit,
   * SlideTitleLeading and SlideTitleTrailing this fixes the title of every
   * text, one whitespace run at a time.
   */
  lemma SlideTitleOfWord(w: string)
    requires forall i :: 0 <= i < |w| ==> !IsJsSpace(w[i])
    ensures SlideTitle(w) == w
  {
    assert NoSpaceRuns(w);
    CollapseRunsOfNoRuns(w);
    TrimOfTrimmed(w, IsJsSpace);
  }

  /** Tidying a tidied title changes nothing. */
  lemma SlideTitleIdempotent(text: string)
    ensures SlideTitle(SlideTitle(text)) == SlideTitle(text)
  {
    var t := SlideTitle(text);
    SlideTitleSpec(text);
    CollapseRunsOfNoRuns(t);
    TrimOfTrimmed(t, IsJsSpace);
  }

  /** A lone tab between words survives; only runs of two or more whitespace characters become a space. */
  lemma LoneTabKept()
    ensures SlideTitle("QA\tLead") == "QA\tLead"
  {
    var s := "QA\tLead";
    assert NoSpaceRuns(s);
    CollapseRunsOfNoRuns(s);
    TrimOfTrimmed(s, IsJsSpace);
  }

  // ------------------------------------------------------------------
  // Classification
  // ------------------------------------------------------------------

  /** One test of the chain: any of the keywords (case-sensitive substrings) gives the label. */
  datatype Rule = Rule(keywords: seq<string>, category: string)

  const Rules: seq<Rule> := [
    Rule(["Engineer", "Back-End", "Front-End"], "Engineering"),
    Rule(["Analyst"], "Analysis"),
    Rule(["Senior"], "Senior"),
    Rule(["Mid-Level"], "Mid-Level")
  ]

  const Other: string := "Other"

  predicate Fires(r: Rule, text: string) {
    exists w :: w in r.keywords && Contains(text, w)
  }

  /** The category of a posting from its text: the `map` callback that collects the filter categories. */
  function Classify(text: string): string {
    if Contains(text, "Engineer") || Contains(text, "Back-End") || Contains(text, "Front-End") then "Engineering"
    else if Contains(text, "Analyst") then "Analysis"
    else if Contains(text, "Senior") then "Senior"
    else if Contains(text, "Mid-Level") then "Mid-Level"
    else Other
  }

  /** The first rule that fires gives the category; when none fires it is `Other`. */
  lemma ClassifyFirstRule(text: string)
    ensures forall k :: (0 <= k < |Rules| && Fires(Rules[k], text) && (forall m :: 0 <= m < k ==> !Fires(Rules[m], text))
      ==> Classify(text) == Rules[k].category)
    ensures (forall k :: 0 <= k < |Rules| ==> !Fires(Rules[k], text)) ==> Classify(text) == Other
  {
    assert Rules[0].keywords == ["Engineer", "Back-End", "Front-End"];
    assert Fires(Rules[0], text) <==> Contains(text, "Engineer") || Contains(text, "Back-End") || Contains(text, "Front-End");
    assert Fires(Rules[1], text) <==> Contains(text, "Analyst");
    assert Fires(Rules[2], text) <==> Contains(text, "Senior");
    assert Fires(Rules[3], text) <==> Contains(text, "Mid-Level");
  }

  /** Every category is one of the five labels, and `Other` exactly when no rule fires. */
  lemma ClassifyLabels(text: string)
    ensures Classify(text) in {"Engineering", "Analysis", "Senior", "Mid-Level", Other}
    ensures Classify(text) == Other <==> forall k :: 0 <= k < |Rules| ==> !Fires(Rules[k], text)
  {
    ClassifyFirstRule(text);
    if Classify(text) == Other {
      assert Fires(Rules[0], text) <==> Contains(text, "Engineer") || Contains(text, "Back-End") || Contains(text, "Front-End");
      assert Fires(Rules[1], text) <==> Contains(text, "Analyst");
      assert Fires(Rules[2], text) <==> Contains(text, "Senior");
      assert Fires(Rules[3], text) <==> Contains(text, "Mid-Level");
    }
  }

  /**
   * The same chain written a second time, as assignments, where each
   * slide's data-category is set.  It gives the same category as the
   * callback, so the buttons and the slides agree.
   */
  method SlideCategory(text: string) returns (category: string)
    ensures category == Classify(text)
  {
    category := Other;
    if Contains(text, "Engineer") || Contains(text, "Back-End") || Contains(text, "Front-End") {
      category := "Engineering";
    } else if Contains(text, "Analyst") {
      category := "Analysis";
    } else if Contains(text, "Senior") {
      category := "Senior";
    } else if Contains(text, "Mid-Level") {
      category := "Mid-Level";
    }
  }

  // ------------------------------------------------------------------
  // initSliderFromRoots
  // ------------------------------------------------------------------

  /** A collected posting: its whole text, the text of its title element, and its link anchor if any. */
  datatype Item = Item(text: string, titleText: string, anchor: Option<Anchor>)

  /** A built slide: its title, its link (the raw link, only when the anchor is good), and its category. */
  datatype Slide = Slide(title: string, link: Option<string>, category: string)

  /** What initSliderFromRoots puts on the page: the filter buttons (empty when none are inserted), the slides, and whether click handlers are wired. */
  datatype Carousel = Carousel(filters: seq<string>, slides: seq<Slide>, handlersWired: bool)

  const MaxJobs: nat := 18

  function SlideOf(it: Item): Slide {
    Slide(SlideTitle(it.titleText), if HasGoodHref(it.anchor) then Some(RawLink(it.anchor.value)) else None, Classify(it.text))
  }

  /** The category of each posting, in order. */
  function Classes(items: seq<Item>): seq<string> {
    seq(|items|, i requires 0 <= i < |items| => Classify(items[i].text))
  }

  /** `[...new Set(items.map(classify))].filter(c => c !== 'Other')`. */
  function FilterCategories(items: seq<Item>): seq<string> {
    Filter(Distinct(Classes(items)), (c: string) => c != Other)
  }

  /**
   * The filter categories are the categories of the postings other than
   * `Other`, each once.
   */
  lemma FilterCategoriesSpec(items: seq<Item>)
    ensures NoDuplicates(FilterCategories(items))
    ensures Other !in FilterCategories(items)
    ensures forall c :: c in FilterCategories(items) <==> c != Other && c in Classes(items)
  {
    FilterNoDuplicates(Distinct(Classes(items)), (c: string) => c != Other);
    FilterSpec(Distinct(Classes(items)), (c: string) => c != Other);
  }

  /** ... in the order in which they first appear among the postings. */
  lemma FilterCategoriesOrder(items: seq<Item>, i: nat, j: nat)
    requires i < j < |FilterCategories(items)|
    ensures var cats := FilterCategories(items);
      cats[i] in Classes(items) && cats[j] in Classes(items)
      && FirstIndex(Classes(items), cats[i]) < FirstIndex(Classes(items), cats[j])
  {
    var d := Distinct(Classes(items));
    var f := FilterCategories(items);
    FilterOrder(d, (c: string) => c != Other, i, j);
    var a, b :| 0 <= a < b < |d| && d[a] == f[i] && d[b] == f[j];
    DistinctOrder(Classes(items), a, b);
  }

  /**
   * initSliderFromRoots once the postings are collected: nothing when there
   * are none; otherwise one slide per posting for the first 18, and the
   * "all" button and one button per filter category only when there are at
   * least two categories.  `swiperLoaded` says whether the Swiper library
   * is defined: without it the function returns after inserting the
   * buttons, before wiring their handlers.
   */
  method InitSlider(items: seq<Item>, swiperLoaded: bool) returns (r: Option<Carousel>)
    ensures r.None? <==> items == []
    ensures r.Some? ==>
      var limited := Take(items, MaxJobs);
      var cats := FilterCategories(limited);
      && |r.value.slides| == |limited|
      && (forall i :: 0 <= i < |limited| ==> r.value.slides[i] == SlideOf(limited[i]))
      && r.value.filters == (if |cats| > 1 then ["all"] + cats else [])
      && r.value.handlersWired == (swiperLoaded && |cats| > 1)
  {
    if items == [] {
      return None;
    }
    var limited := Take(items, MaxJobs);
    var cats := FilterCategories(limited);
    var slides := BuildSlides(limited);
    var filters := [];
    if |cats| > 1 {
      filters := ["all"] + cats;
    }
    r := Some(Carousel(filters, slides, swiperLoaded && |cats| > 1));
  }

  /** The forEach that builds and appends one slide per posting. */
  method BuildSlides(items: seq<Item>) returns (slides: seq<Slide>)
    ensures |slides| == |items| && forall i :: 0 <= i < |items| ==> slides[i] == SlideOf(items[i])
  {
    slides := [];
    for i := 0 to |items|
      invariant |slides| == i && forall k :: 0 <= k < i ==> slides[k] == SlideOf(items[k])
    {
      var it := items[i];
      var link := None;
      if HasGoodHref(it.anchor) {
        link := Some(RawLink(it.anchor.value));
      }
      var category := SlideCategory(it.text);
      slides := slides + [Slide(SlideTitle(it.titleText), link, category)];
    }
  }

  /** Every filter category is the category of some slide, and every slide category other than `Other` has a filter. */
  lemma FiltersMatchSlides(items: seq<Item>, slides: seq<Slide>)
    requires |slides| == |items| && forall i :: 0 <= i < |items| ==> slides[i] == SlideOf(items[i])
    ensures forall c :: c in FilterCategories(items) ==> exists i :: 0 <= i < |slides| && slides[i].category == c
    ensures forall i :: 0 <= i < |slides| && slides[i].category != Other ==> slides[i].category in FilterCategories(items)
  {
    FilterCategoriesSpec(items);
    forall c | c in FilterCategories(items)
      ensures exists i :: 0 <= i < |slides| && slides[i].category == c
    {
      var i :| 0 <= i < |items| && Classes(items)[i] == c;
      assert slides[i].category == c;
    }
    forall i | 0 <= i < |slides| && slides[i].category != Other
      ensures slides[i].category in FilterCategories(items)
    {
      assert Classes(items)[i] == slides[i].category;
    }
  }
}
