/**
 * The two listing shortcodes of comeet-slider-helper.php: the "fresh"
 * listing (comeet_job_slider_shortcode) and the "ultra stable" listing
 * (ultra_stable_jobs_shortcode).  Both file the postings under their
 * categories in order of first appearance, keep the categories with
 * enough postings as filter buttons (after an "all" button), and print
 * one card per posting.  The ultra listing first cuts a
 * " / Hybrid (In Israel)" suffix off every title.
 *
 * The page is modelled by what it is made of (the heading count, the
 * buttons and the cards), not by its HTML text.
 */
module Render {
  import opened Wrappers
  import opened Text
  import opened Jobs
  import opened Seqs
  import Parser

  // ------------------------------------------------------------------
  // Grouping and the choice of filter buttons
  // ------------------------------------------------------------------

  /** The category a posting is filed under: its own, or `Other` when it has none. */
  function CategoryOf(j: Job): string {
    if Category in j then j[Category] else "Other"
  }

  /** The category of each posting, in order. */
  function Categories(jobs: seq<Job>): seq<string> {
    seq(|jobs|, i requires 0 <= i < |jobs| => CategoryOf(jobs[i]))
  }

  /** The test "is filed under `c`". */
  function InCategory(c: string): Job -> bool {
    (j: Job) => CategoryOf(j) == c
  }

  /** The group of category `c`: its postings, in order. */
  function JobsIn(jobs: seq<Job>, c: string): seq<Job> {
    Filter(jobs, InCategory(c))
  }

  /**
   * The grouping loop.  `names` is the key order of the PHP array and
   * `groups` its contents: a category gets its key the first time a
   * posting of it is seen, and every posting is appended to its group.
   */
  method GroupByCategory(jobs: seq<Job>) returns (names: seq<string>, groups: map<string, seq<Job>>)
    ensures names == Distinct(Categories(jobs))
    ensures forall c :: c in groups <==> c in names
    ensures forall c :: c in groups ==> groups[c] == JobsIn(jobs, c)
  {
    names, groups := [], map[];
    for i := 0 to |jobs|
      invariant names == Distinct(Categories(jobs[..i]))
      invariant forall c :: c in groups <==> c in names
      invariant forall c :: c in groups ==> groups[c] == JobsIn(jobs[..i], c)
    {
      var c := CategoryOf(jobs[i]);
      GroupStep(jobs, i);
      var group := [];
      if c in groups {
        group := groups[c];
      } else {
        names := names + [c];
      }
      groups := groups[c := group + [jobs[i]]];
    }
    assert jobs[..|jobs|] == jobs;
  }

  /** What one more posting does to the categories seen and to the groups. */
  lemma GroupStep(jobs: seq<Job>, i: nat)
    requires i < |jobs|
    ensures var c := CategoryOf(jobs[i]);
      var d := Distinct(Categories(jobs[..i]));
      Distinct(Categories(jobs[..i + 1])) == if c in d then d else d + [c]
    ensures CategoryOf(jobs[i]) !in Distinct(Categories(jobs[..i])) ==> JobsIn(jobs[..i], CategoryOf(jobs[i])) == []
    ensures forall c :: JobsIn(jobs[..i + 1], c) == JobsIn(jobs[..i], c) + (if CategoryOf(jobs[i]) == c then [jobs[i]] else [])
  {
    var c := CategoryOf(jobs[i]);
    var cs := Categories(jobs[..i + 1]);
    assert cs[..i] == Categories(jobs[..i]);
    assert jobs[..i + 1] == jobs[..i] + [jobs[i]];
    forall c' {
      FilterSnoc(jobs[..i], jobs[i], InCategory(c'));
    }
    if JobsIn(jobs[..i], c) != [] {
      FilterElement(jobs[..i], InCategory(c), 0);
      var j := JobsIn(jobs[..i], c)[0];
      var k :| 0 <= k < i && jobs[..i][k] == j;
      assert Categories(jobs[..i])[k] == c;
    }
  }

  /** Every posting lies in the group of its own category, and a group holds only postings of its category. */
  lemma JobsInSpec(jobs: seq<Job>, c: string)
    ensures forall j :: j in JobsIn(jobs, c) <==> j in jobs && CategoryOf(j) == c
    ensures |JobsIn(jobs, c)| > 0 <==> c in Categories(jobs)
  {
    FilterSpec(jobs, InCategory(c));
    if c in Categories(jobs) {
      var k :| 0 <= k < |jobs| && Categories(jobs)[k] == c;
      assert jobs[k] in JobsIn(jobs, c);
    }
    if |JobsIn(jobs, c)| > 0 {
      FilterElement(jobs, InCategory(c), 0);
      var k :| 0 <= k < |jobs| && jobs[k] == JobsIn(jobs, c)[0];
      assert Categories(jobs)[k] == c;
    }
  }

  /** The test the array_filter callback makes: at least `minJobs` postings in the group. */
  function IsLarge(jobs: seq<Job>, minJobs: nat): string -> bool {
    c => |JobsIn(jobs, c)| >= minJobs
  }

  /**
   * The categories that get a filter button: the groups with at least
   * `minJobs` postings, in key order (array_filter), and of those at most
   * the first `maxGroups` (array_slice).
   */
  function Selection(jobs: seq<Job>, minJobs: nat, maxGroups: nat): seq<string> {
    Take(Filter(Distinct(Categories(jobs)), IsLarge(jobs, minJobs)), maxGroups)
  }

  /**
   * The chosen categories are distinct categories of the postings with
   * enough postings each, at most `maxGroups` of them; a category with
   * enough postings is left out only when `maxGroups` were chosen.
   */
  lemma SelectionSpec(jobs: seq<Job>, minJobs: nat, maxGroups: nat)
    ensures var sel := Selection(jobs, minJobs, maxGroups);
      && |sel| <= maxGroups
      && NoDuplicates(sel)
      && (forall c :: c in sel ==> c in Categories(jobs) && |JobsIn(jobs, c)| >= minJobs)
      && (forall c :: c in Categories(jobs) && |JobsIn(jobs, c)| >= minJobs && c !in sel ==> |sel| == maxGroups)
  {
    var d := Distinct(Categories(jobs));
    var f := Filter(d, IsLarge(jobs, minJobs));
    var sel := Selection(jobs, minJobs, maxGroups);
    FilterSpec(d, IsLarge(jobs, minJobs));
    FilterNoDuplicates(d, IsLarge(jobs, minJobs));
    assert sel <= f;
    forall c | c in sel
      ensures c in f
    {
      var k :| 0 <= k < |sel| && sel[k] == c;
      assert f[k] == c;
    }
  }

  /** The chosen categories keep the order in which the categories first appear among the postings. */
  lemma SelectionOrder(jobs: seq<Job>, minJobs: nat, maxGroups: nat, i: nat, j: nat)
    requires i < j < |Selection(jobs, minJobs, maxGroups)|
    ensures var sel := Selection(jobs, minJobs, maxGroups);
      sel[i] in Categories(jobs) && sel[j] in Categories(jobs)
      && FirstIndex(Categories(jobs), sel[i]) < FirstIndex(Categories(jobs), sel[j])
  {
    var d := Distinct(Categories(jobs));
    var f := Filter(d, IsLarge(jobs, minJobs));
    FilterOrder(d, IsLarge(jobs, minJobs), i, j);
    var a, b :| 0 <= a < b < |d| && d[a] == f[i] && d[b] == f[j];
    DistinctOrder(Categories(jobs), a, b);
  }

  /** A category with enough postings that was not chosen first appears after every chosen one: the first `maxGroups` are kept. */
  lemma SelectionFirst(jobs: seq<Job>, minJobs: nat, maxGroups: nat, c: string, k: nat)
    requires c in Categories(jobs) && |JobsIn(jobs, c)| >= minJobs
    requires c !in Selection(jobs, minJobs, maxGroups) && k < |Selection(jobs, minJobs, maxGroups)|
    ensures var sel := Selection(jobs, minJobs, maxGroups);
      sel[k] in Categories(jobs) && FirstIndex(Categories(jobs), sel[k]) < FirstIndex(Categories(jobs), c)
  {
    var d := Distinct(Categories(jobs));
    var f := Filter(d, IsLarge(jobs, minJobs));
    var sel := Selection(jobs, minJobs, maxGroups);
    FilterSpec(d, IsLarge(jobs, minJobs));
    assert c in f;
    var n :| 0 <= n < |f| && f[n] == c;
    FilterOrder(d, IsLarge(jobs, minJobs), k, n);
    var a, b :| 0 <= a < b < |d| && d[a] == f[k] && d[b] == f[n];
    DistinctOrder(Categories(jobs), a, b);
  }

  // ------------------------------------------------------------------
  // The page
  // ------------------------------------------------------------------

  /** A filter button: the category it selects ("all" for every posting) and the count it shows. */
  datatype Button = Button(filter: string, count: nat)

  /** A posting's card: its category attribute, title, location line (only when non-empty) and link. */
  datatype Card = Card(category: string, title: string, location: Option<string>, link: string)

  datatype Page = Page(heading: nat, buttons: seq<Button>, cards: seq<Card>)

  /** A field as it is printed: a missing one prints as the empty string. */
  function Printed(j: Job, f: Field): string {
    if f in j then j[f] else ""
  }

  /** The card of one posting (escaping is not modelled). */
  function CardOf(j: Job): Card {
    Card(CategoryOf(j), Printed(j, Title), if Empty(j, Location) then None else Some(j[Location]), Printed(j, Link))
  }

  /**
   * What a listing of `jobs` shows: the number of postings in the
   * heading; one card per posting, in order, carrying the posting's
   * category; and, only when some category was chosen, an "all" button
   * with the number of postings followed by one button per chosen
   * category, in order, with the size of its group.
   */
  predicate Renders(page: Page, jobs: seq<Job>, minJobs: nat, maxGroups: nat) {
    var sel := Selection(jobs, minJobs, maxGroups);
    && page.heading == |jobs|
    && |page.cards| == |jobs|
    && (forall i :: 0 <= i < |jobs| ==> page.cards[i] == CardOf(jobs[i]))
    && (sel == [] ==> page.buttons == [])
    && (sel != [] ==>
          && |page.buttons| == |sel| + 1
          && page.buttons[0] == Button("all", |jobs|)
          && forall k :: 0 <= k < |sel| ==> page.buttons[k + 1] == Button(sel[k], |JobsIn(jobs, sel[k])|))
  }

  /** The part both shortcodes share once the postings are known: group, choose, then print buttons and cards. */
  method RenderPage(jobs: seq<Job>, minJobs: nat, maxGroups: nat) returns (page: Page)
    ensures Renders(page, jobs, minJobs, maxGroups)
  {
    var names, groups := GroupByCategory(jobs);
    var keep := (c: string) => c in groups && |groups[c]| >= minJobs;
    var selected := Take(Filter(names, keep), maxGroups);
    ChosenGroups(jobs, names, groups, keep, minJobs, maxGroups);
    var buttons := FilterButtons(jobs, groups, selected);
    var cards := PrintCards(jobs);
    page := Page(|jobs|, buttons, cards);
  }

  /** The array_filter and array_slice over the grouped array choose `Selection`, and every chosen key is a group. */
  lemma ChosenGroups(jobs: seq<Job>, names: seq<string>, groups: map<string, seq<Job>>,
                     keep: string -> bool, minJobs: nat, maxGroups: nat)
    requires names == Distinct(Categories(jobs))
    requires forall c :: c in groups <==> c in names
    requires forall c :: c in groups ==> groups[c] == JobsIn(jobs, c)
    requires forall c :: keep(c) == (c in groups && |groups[c]| >= minJobs)
    ensures Take(Filter(names, keep), maxGroups) == Selection(jobs, minJobs, maxGroups)
    ensures forall c :: c in Selection(jobs, minJobs, maxGroups) ==> c in groups
  {
    FilterCongruent(names, keep, IsLarge(jobs, minJobs));
    SelectionSpec(jobs, minJobs, maxGroups);
  }

  /** The filter buttons: none when no category was chosen, else "all" and one per chosen category with its count. */
  method FilterButtons(jobs: seq<Job>, groups: map<string, seq<Job>>, selected: seq<string>) returns (buttons: seq<Button>)
    requires forall c :: c in selected ==> c in groups && groups[c] == JobsIn(jobs, c)
    ensures selected == [] ==> buttons == []
    ensures selected != [] ==>
      && |buttons| == |selected| + 1
      && buttons[0] == Button("all", |jobs|)
      && forall k :: 0 <= k < |selected| ==> buttons[k + 1] == Button(selected[k], |JobsIn(jobs, selected[k])|)
  {
    buttons := [];
    if selected != [] {
      buttons := [Button("all", |jobs|)];
      for k := 0 to |selected|
        invariant |buttons| == k + 1 && buttons[0] == Button("all", |jobs|)
        invariant forall m :: 0 <= m < k ==> buttons[m + 1] == Button(selected[m], |JobsIn(jobs, selected[m])|)
      {
        buttons := buttons + [Button(selected[k], |groups[selected[k]]|)];
      }
    }
  }

  /** One card per posting, in order. */
  method PrintCards(jobs: seq<Job>) returns (cards: seq<Card>)
    ensures |cards| == |jobs| && forall i :: 0 <= i < |jobs| ==> cards[i] == CardOf(jobs[i])
  {
    cards := [];
    for i := 0 to |jobs|
      invariant |cards| == i && forall m :: 0 <= m < i ==> cards[m] == CardOf(jobs[m])
    {
      cards := cards + [CardOf(jobs[i])];
    }
  }

  /** The three postings the fresh listing shows when it was given none. */
  const TestJobs: seq<Job> := [
    map[Title := "Senior Software Engineer", Location := "Tel Aviv", Type := "Full-time", Link := "#test1", Category := "Engineering"],
    map[Title := "Product Manager", Location := "Jerusalem", Type := "Full-time", Link := "#test2", Category := "Product"],
    map[Title := "Data Scientist", Location := "Hybrid", Type := "Full-time", Link := "#test3", Category := "Data"]
  ]

  /** The fresh listing: groups of at least 3 postings, at most 5 buttons; the test postings stand in for none. */
  method FreshListing(jobs: seq<Job>) returns (page: Page)
    ensures Renders(page, if jobs == [] then TestJobs else jobs, 3, 5)
  {
    var shown := jobs;
    if shown == [] {
      shown := TestJobs;
    }
    page := RenderPage(shown, 3, 5);
  }

  /** Postings whose categories are all different form groups of one. */
  lemma {:induction false} SingletonGroups(jobs: seq<Job>, c: string)
    requires NoDuplicates(Categories(jobs))
    ensures |JobsIn(jobs, c)| <= 1
  {
    if jobs != [] {
      var rest := jobs[1..];
      assert Categories(rest) == Categories(jobs)[1..];
      SingletonGroups(rest, c);
      if CategoryOf(jobs[0]) == c {
        assert Categories(jobs)[0] == c;
        assert c !in Categories(jobs)[1..];
        JobsInSpec(rest, c);
      }
    }
  }

  /** The test postings each have a category of their own, so the fresh listing shows them without filter buttons. */
  lemma TestJobsPage(page: Page)
    requires Renders(page, TestJobs, 3, 5)
    ensures page.heading == 3 && |page.cards| == 3 && page.buttons == []
    ensures page.cards[0].category == "Engineering" && page.cards[2].location == Some("Hybrid")
  {
    TestJobsUngrouped();
  }

  lemma TestJobsUngrouped()
    ensures Selection(TestJobs, 3, 5) == []
  {
    var d := Distinct(Categories(TestJobs));
    assert Categories(TestJobs) == ["Engineering", "Product", "Data"];
    forall c | c in d
      ensures !IsLarge(TestJobs, 3)(c)
    {
      SingletonGroups(TestJobs, c);
    }
    if Filter(d, IsLarge(TestJobs, 3)) != [] {
      FilterElement(d, IsLarge(TestJobs, 3), 0);
    }
  }

  /** The ultra listing: every title cleaned in place, then groups of at least 2 postings, at most 6 buttons. */
  method UltraListing(jobs: array<Job>) returns (page: Page)
    modifies jobs
    ensures forall i :: 0 <= i < jobs.Length ==> jobs[i] == WithoutHybridSuffix(old(jobs[i]))
    ensures Renders(page, jobs[..], 2, 6)
  {
    StripHybridSuffixes(jobs);
    page := RenderPage(jobs[..], 2, 6);
  }

  // ------------------------------------------------------------------
  // /(.*?)\s*\/\s*Hybrid\s*\(In Israel\)$/i
  // ------------------------------------------------------------------

  const HybridWord: string := "hybrid"
  const InIsrael: string := "(in israel)"

  /**
   * One way the suffix pattern can match, by where its parts begin: group
   * 1 is s[start..groupEnd] and holds no newline, then whitespace up to
   * the slash, whitespace, "hybrid", whitespace, "(in israel)" (all
   * case-insensitively), and then `$`.
   */
  datatype HybridMatch = HybridMatch(start: nat, groupEnd: nat, slash: nat, word: nat, paren: nat)

  /** `$` without the m and D modifiers: the end of the subject, or just before a newline that ends it. */
  predicate AtEnd(s: string, e: nat) {
    e == |s| || (e + 1 == |s| && s[e] == '\n')
  }

  ghost predicate AllSpace(s: string, i: nat, j: nat) {
    j <= |s| && forall k :: i <= k < j ==> IsPcreSpace(s[k])
  }

  ghost predicate IsHybridMatch(s: string, m: HybridMatch) {
    && m.start <= m.groupEnd <= m.slash < m.word
    && m.word + |HybridWord| <= m.paren
    && m.paren + |InIsrael| <= |s|
    && '\n' !in s[m.start..m.groupEnd]
    && AllSpace(s, m.groupEnd, m.slash)
    && s[m.slash] == '/'
    && AllSpace(s, m.slash + 1, m.word)
    && Parser.TokenAt(Lower(s), m.word, HybridWord)
    && AllSpace(s, m.word + |HybridWord|, m.paren)
    && Parser.TokenAt(Lower(s), m.paren, InIsrael)
    && AtEnd(s, m.paren + |InIsrael|)
  }

  /** The only place `$` can match after a ")": the end, or before a final newline. */
  function DollarAt(s: string): (e: nat)
    ensures e <= |s|
  {
    if |s| > 0 && s[|s| - 1] == '\n' then |s| - 1 else |s|
  }

  /**
   * The match preg_match() reports, found from the end: "(in israel)"
   * before `$`, the word before the whitespace in front of it, the slash
   * before the whitespace in front of that, and group 1 from the start of
   * the line up to the whitespace before the slash.
   */
  function FindHybridSuffix(s: string): (r: Option<HybridMatch>)
    ensures r.Some? ==> r.value.start <= r.value.groupEnd <= r.value.slash < |s|
  {
    var e := DollarAt(s);
    if e < |InIsrael| then None
    else
      var paren := e - |InIsrael|;
      if !Parser.TokenAt(Lower(s), paren, InIsrael) then None
      else
        var h := Parser.SpaceRunStart(s, paren);
        if h < |HybridWord| then None
        else
          var word := h - |HybridWord|;
          if !Parser.TokenAt(Lower(s), word, HybridWord) then None
          else
            var w := Parser.SpaceRunStart(s, word);
            if w == 0 || s[w - 1] != '/' then None
            else
              var q := Parser.SpaceRunStart(s, w - 1);
              Some(HybridMatch(Parser.LineStart(s, q), q, w - 1, word, paren))
  }

  /** The reported match is a match of the pattern. */
  lemma FindHybridSuffixSound(s: string)
    requires FindHybridSuffix(s).Some?
    ensures IsHybridMatch(s, FindHybridSuffix(s).value)
  {
    var m := FindHybridSuffix(s).value;
    Parser.SpaceRunSpec(s, m.paren);
    Parser.SpaceRunSpec(s, m.word);
    Parser.SpaceRunSpec(s, m.slash);
    Parser.LineStartSpec(s, m.groupEnd);
  }

  /** "(in israel)" of any match ends where `$` matches. */
  lemma ParenAtDollar(s: string, m: HybridMatch)
    requires IsHybridMatch(s, m)
    ensures m.paren + |InIsrael| == DollarAt(s)
  {
    var e := m.paren + |InIsrael|;
    assert Lower(s)[e - 1] == ')';
  }

  /** The parts of any match after group 1 are where the search from the end looks for them. */
  lemma HybridPartsFound(s: string, m: HybridMatch)
    requires IsHybridMatch(s, m)
    ensures m.paren + |InIsrael| == DollarAt(s)
    ensures Parser.SpaceRunStart(s, m.paren) == m.word + |HybridWord|
    ensures Parser.SpaceRunStart(s, m.word) == m.slash + 1
  {
    ParenAtDollar(s, m);
    Parser.LetterNotSpace(s, m.word + |HybridWord| - 1);
    Parser.RunStartAt(s, m.paren, m.word + |HybridWord|);
    Parser.RunStartAt(s, m.word, m.slash + 1);
  }

  /** The search from the end finds the parts of any match after group 1. */
  lemma HybridMatchFound(s: string, m: HybridMatch)
    requires IsHybridMatch(s, m)
    ensures var q := Parser.SpaceRunStart(s, m.slash);
      FindHybridSuffix(s) == Some(HybridMatch(Parser.LineStart(s, q), q, m.slash, m.word, m.paren))
  {
    HybridPartsFound(s, m);
    assert Parser.TokenAt(Lower(s), m.paren, InIsrael) && Parser.TokenAt(Lower(s), m.word, HybridWord);
    assert s[m.slash] == '/';
  }

  /**
   * Any way the pattern can match has the reported parts after group 1,
   * and the reported match starts no later and has a group 1 that ends no
   * later: the leftmost start and the lazy `(.*?)`.  In particular a title
   * that matches at all is reported.
   */
  lemma FindHybridSuffixLeftmost(s: string, m: HybridMatch)
    requires IsHybridMatch(s, m)
    ensures FindHybridSuffix(s).Some?
    ensures var r := FindHybridSuffix(s).value;
      r.slash == m.slash && r.word == m.word && r.paren == m.paren
      && r.start <= m.start && r.groupEnd <= m.groupEnd
  {
    HybridMatchFound(s, m);
    Parser.SpaceRunLeast(s, m.slash, m.groupEnd);
    Parser.LineStartLeast(s, Parser.SpaceRunStart(s, m.slash), m.start, m.groupEnd);
  }

  /** The ultra listing's clean-up of one posting: a title the pattern matches becomes trim(group 1). */
  function WithoutHybridSuffix(j: Job): Job {
    if Title !in j then j
    else
      match FindHybridSuffix(j[Title])
      case None => j
      case Some(m) => j[Title := PhpTrim(j[Title][m.start..m.groupEnd])]
  }

  /** Only the title changes, and only when the pattern matches it. */
  lemma WithoutHybridSuffixSpec(j: Job)
    ensures WithoutHybridSuffix(j).Keys == j.Keys
    ensures forall f :: f in j && f != Title ==> WithoutHybridSuffix(j)[f] == j[f]
    ensures Title in j && FindHybridSuffix(j[Title]).None? ==> WithoutHybridSuffix(j) == j
    ensures Title in j && FindHybridSuffix(j[Title]).Some? ==>
      var m := FindHybridSuffix(j[Title]).value;
      IsHybridMatch(j[Title], m) && WithoutHybridSuffix(j)[Title] == PhpTrim(j[Title][m.start..m.groupEnd])
  {
    if Title in j && FindHybridSuffix(j[Title]).Some? {
      FindHybridSuffixSound(j[Title]);
    }
  }

  /** The foreach by reference over the postings, cleaning each title in place. */
  method StripHybridSuffixes(jobs: array<Job>)
    modifies jobs
    ensures forall i :: 0 <= i < jobs.Length ==> jobs[i] == WithoutHybridSuffix(old(jobs[i]))
  {
    ghost var original := jobs[..];
    for i := 0 to jobs.Length
      invariant forall k :: 0 <= k < i ==> jobs[k] == WithoutHybridSuffix(original[k])
      invariant forall k :: i <= k < jobs.Length ==> jobs[k] == original[k]
    {
      jobs[i] := StripHybridSuffix(jobs[i]);
    }
  }

  /** The loop body for one posting. */
  method StripHybridSuffix(j: Job) returns (job: Job)
    ensures job == WithoutHybridSuffix(j)
  {
    job := j;
    if Title in job {
      match FindHybridSuffix(job[Title]) {
        case Some(m) =>
          job := job[Title := PhpTrim(job[Title][m.start..m.groupEnd])];
        case None =>
      }
    }
  }
}
