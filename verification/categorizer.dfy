/**
 * Title categorisation (comeet_get_job_categories and comeet_categorize_job
 * in comeet-slider-helper.php).  A title is lower-cased and searched, in
 * table order, for each category's terms; the first category with a term
 * that occurs as a substring wins.  When none does, four keyword
 * alternations are tried in order, and failing those the label is "Other".
 */
module Categorizer {
  import opened Text
  import opened Wrappers

  const Engineering := "Engineering"
  const ProductDesign := "Product & Design"
  const DataAnalytics := "Data & Analytics"
  const Business := "Business"
  const Operations := "Operations"
  const Other := "Other"

  /** The six labels categorisation can produce. */
  const Labels: set<string> := {Engineering, ProductDesign, DataAnalytics, Business, Operations, Other}

  /** A category of the table: its label and the terms that select it. */
  datatype Category = Category(name: string, terms: seq<string>)

  /**
   * The default category table in declaration order (the icon and colour
   * entries only style the output and are left out).  The
   * `comeet_job_categories` filter hook is taken to return it unchanged.
   */
  const DefaultCategories: seq<Category> := [
    Category(Engineering, ["Engineer", "Back-End", "Front-End", "Developer", "DevOps", "SRE", "Architect"]),
    Category(ProductDesign, ["Product", "Designer", "UX", "UI", "Research"]),
    Category(DataAnalytics, ["Analyst", "Data", "Analytics", "BI", "Business Intelligence"]),
    Category(Business, ["Business", "Sales", "Marketing", "Growth", "Partnership"]),
    Category(Operations, ["HR", "People", "Talent", "Recruiter", "Office Manager"])
  ]

  /**
   * The four secondary patterns, tried in order.  Each is an unanchored
   * alternation of literals matched case-insensitively, so it matches
   * exactly when one of its literals occurs in the title; `front[- ]?end`
   * and `back[- ]?end` stand for their three spellings each.
   */
  const SecondaryPatterns: seq<Category> := [
    Category(Engineering, ["front-end", "front end", "frontend", "react", "angular", "vue", "javascript", "js"]),
    Category(Engineering, ["back-end", "back end", "backend", "node", "python", "java", "php", "ruby", "go", "scala"]),
    Category(Engineering, ["devops", "sre", "site reliability", "cloud", "aws", "azure", "gcp"]),
    Category(DataAnalytics, ["data", "analytics", "analyst", "scientist", "machine learning", "ai", "business intelligence"])
  ]

  /** Some term of `c`, lower-cased, occurs in the lower-cased title. */
  predicate Matches(c: Category, lowerTitle: string) {
    exists k :: 0 <= k < |c.terms| && Contains(lowerTitle, Lower(c.terms[k]))
  }

  /** Index of the first category of `table` that matches: the early return out of the nested loop. */
  function FirstMatch(table: seq<Category>, lowerTitle: string): (r: Option<nat>)
    ensures r.Some? ==> r.value < |table|
  {
    if table == [] then None
    else if Matches(table[0], lowerTitle) then Some(0)
    else
      match FirstMatch(table[1..], lowerTitle)
      case None => None
      case Some(i) => Some(i + 1)
  }

  /** FirstMatch finds a matching category, the first one, and finds none exactly when none matches. */
  lemma {:induction false} FirstMatchSpec(table: seq<Category>, lowerTitle: string)
    ensures FirstMatch(table, lowerTitle).None? <==> forall k :: 0 <= k < |table| ==> !Matches(table[k], lowerTitle)
    ensures FirstMatch(table, lowerTitle).Some? ==> Matches(table[FirstMatch(table, lowerTitle).value], lowerTitle)
    ensures FirstMatch(table, lowerTitle).Some? ==>
              forall k :: 0 <= k < FirstMatch(table, lowerTitle).value ==> !Matches(table[k], lowerTitle)
  {
    if table != [] && !Matches(table[0], lowerTitle) {
      FirstMatchSpec(table[1..], lowerTitle);
      forall k | 1 <= k < |table|
        ensures table[k] == table[1..][k - 1]
      {
      }
    }
  }

  /** The label for a title, given the category table. */
  function CategorizeWith(table: seq<Category>, title: string): string {
    var t := Lower(title);
    match FirstMatch(table, t)
    case Some(i) => table[i].name
    case None =>
      match FirstMatch(SecondaryPatterns, t)
      case Some(i) => SecondaryPatterns[i].name
      case None => Other
  }

  /**
   * First match wins: the label is that of the first table category with a
   * term in the title, whatever later categories would also match.
   */
  lemma FirstTableMatchWins(table: seq<Category>, title: string, k: nat)
    requires k < |table| && Matches(table[k], Lower(title))
    requires forall j :: 0 <= j < k ==> !Matches(table[j], Lower(title))
    ensures CategorizeWith(table, title) == table[k].name
  {
    FirstMatchSpec(table, Lower(title));
  }

  /** comeet_categorize_job(title) with the default table. */
  function Categorize(title: string): string {
    CategorizeWith(DefaultCategories, title)
  }

  /** Categorisation is total and always yields one of the six labels. */
  lemma CategorizeLabels(title: string)
    ensures Categorize(title) in Labels
  {
  }

  /**
   * The secondary patterns decide only when no table term occurs: then the
   * label is Engineering exactly when one of the three stack alternations
   * matches, Data & Analytics exactly when only the data/ML one does, and
   * Other exactly when none does.
   */
  lemma SecondaryOnlyWhenNoTableMatch(title: string)
    ensures (exists k :: 0 <= k < |DefaultCategories| && Matches(DefaultCategories[k], Lower(title)))
            ==> Categorize(title) != Other
    ensures (forall k :: 0 <= k < |DefaultCategories| ==> !Matches(DefaultCategories[k], Lower(title))) ==>
              var t := Lower(title);
              && (Categorize(title) == Engineering <==> exists j :: 0 <= j < 3 && Matches(SecondaryPatterns[j], t))
              && (Categorize(title) == DataAnalytics <==>
                    (forall j :: 0 <= j < 3 ==> !Matches(SecondaryPatterns[j], t)) && Matches(SecondaryPatterns[3], t))
              && (Categorize(title) == Other <==> forall j :: 0 <= j < 4 ==> !Matches(SecondaryPatterns[j], t))
  {
    var t := Lower(title);
    FirstMatchSpec(DefaultCategories, t);
    FirstMatchSpec(SecondaryPatterns, t);
    var r := FirstMatch(SecondaryPatterns, t);
    if r.Some? && r.value < 3 {
      assert Categorize(title) == Engineering || FirstMatch(DefaultCategories, t).Some?;
    }
  }

  /** No term of `c` occurs in `s`: each term has a character, at index `at[k]`, that `s` lacks. */
  lemma NoTermOccurs(c: Category, s: string, at: seq<nat>)
    requires |at| == |c.terms|
    requires forall k :: 0 <= k < |c.terms| ==> at[k] < |c.terms[k]| && LowerChar(c.terms[k][at[k]]) !in s
    ensures !Matches(c, s)
  {
    forall k | 0 <= k < |c.terms|
      ensures !Contains(s, Lower(c.terms[k]))
    {
      var term := Lower(c.terms[k]);
      assert term[at[k]] == LowerChar(c.terms[k][at[k]]);
      NotContainsChar(s, term, term[at[k]]);
    }
  }

  /** "Product Data Engineer" is Engineering: the Engineering row is tried before the Product and Data rows. */
  lemma ProductDataEngineerIsEngineering()
    ensures Categorize("Product Data Engineer") == Engineering
  {
    var t := Lower("Product Data Engineer");
    assert t == "product data engineer";
    assert Lower(DefaultCategories[0].terms[0]) == "engineer";
    ContainsAt(t, "engineer", 13);
    assert Matches(DefaultCategories[0], t);
  }

  // One lemma per table row keeps each character-absence argument small.

  lemma MailroomRow0() ensures !Matches(DefaultCategories[0], "mailroom clerk") {
    NoTermOccurs(DefaultCategories[0], "mailroom clerk", [1, 0, 0, 0, 0, 0, 3]);
  }
  lemma MailroomRow1() ensures !Matches(DefaultCategories[1], "mailroom clerk") {
    NoTermOccurs(DefaultCategories[1], "mailroom clerk", [0, 0, 0, 0, 2]);
  }
  lemma MailroomRow2() ensures !Matches(DefaultCategories[2], "mailroom clerk") {
    NoTermOccurs(DefaultCategories[2], "mailroom clerk", [1, 0, 1, 0, 0]);
  }
  lemma MailroomRow3() ensures !Matches(DefaultCategories[3], "mailroom clerk") {
    NoTermOccurs(DefaultCategories[3], "mailroom clerk", [0, 0, 5, 0, 0]);
  }
  lemma MailroomRow4() ensures !Matches(DefaultCategories[4], "mailroom clerk") {
    NoTermOccurs(DefaultCategories[4], "mailroom clerk", [0, 0, 0, 4, 1]);
  }
  lemma MailroomPattern0() ensures !Matches(SecondaryPatterns[0], "mailroom clerk") {
    NoTermOccurs(SecondaryPatterns[0], "mailroom clerk", [0, 0, 0, 4, 1, 0, 0, 0]);
  }
  lemma MailroomPattern1() ensures !Matches(SecondaryPatterns[1], "mailroom clerk") {
    NoTermOccurs(SecondaryPatterns[1], "mailroom clerk", [0, 0, 0, 0, 0, 0, 0, 1, 0, 0]);
  }
  lemma MailroomPattern2() ensures !Matches(SecondaryPatterns[2], "mailroom clerk") {
    NoTermOccurs(SecondaryPatterns[2], "mailroom clerk", [0, 0, 0, 3, 1, 1, 0]);
  }

  lemma MailroomPattern3() ensures Matches(SecondaryPatterns[3], "mailroom clerk") {
    assert Lower(SecondaryPatterns[3].terms[5]) == "ai";
    ContainsAt("mailroom clerk", "ai", 1);
  }

  /** No term of the default table occurs in "mailroom clerk". */
  lemma MailroomClerkMatchesNoTableTerm()
    ensures FirstMatch(DefaultCategories, "mailroom clerk").None?
  {
    MailroomRow0(); MailroomRow1(); MailroomRow2(); MailroomRow3(); MailroomRow4();
    FirstMatchSpec(DefaultCategories, "mailroom clerk");
  }

  /** Of the secondary patterns only the data/ML one matches "mailroom clerk", through "ai". */
  lemma MailroomClerkMatchesDataPattern()
    ensures FirstMatch(SecondaryPatterns, "mailroom clerk") == Some(3)
  {
    MailroomPattern0(); MailroomPattern1(); MailroomPattern2(); MailroomPattern3();
    FirstMatchSpec(SecondaryPatterns, "mailroom clerk");
  }

  /**
   * Terms are matched as raw substrings, so short ones fire inside words:
   * "Mailroom Clerk" matches no table term and no stack keyword, but holds
   * "ai" and so is Data & Analytics.
   */
  lemma MailroomClerkIsDataAndAnalytics()
    ensures Categorize("Mailroom Clerk") == DataAnalytics
  {
    assert Lower("Mailroom Clerk") == "mailroom clerk";
    MailroomClerkMatchesNoTableTerm();
    MailroomClerkMatchesDataPattern();
  }

  /** "Senior Backend Engineer" is Engineering. */
  lemma SeniorBackendEngineerIsEngineering()
    ensures Categorize("Senior Backend Engineer") == Engineering
  {
    var a := Lower("Senior Backend Engineer");
    assert a == "senior backend engineer";
    assert Lower(DefaultCategories[0].terms[0]) == "engineer";
    ContainsAt(a, "engineer", 15);
    assert Matches(DefaultCategories[0], a);
  }

  lemma DataAnalystRow0() ensures !Matches(DefaultCategories[0], "data analyst") {
    NoTermOccurs(DefaultCategories[0], "data analyst", [0, 0, 0, 1, 1, 1, 1]);
  }
  lemma DataAnalystRow1() ensures !Matches(DefaultCategories[1], "data analyst") {
    NoTermOccurs(DefaultCategories[1], "data analyst", [0, 1, 0, 0, 0]);
  }

  /** "Data Analyst" is Data & Analytics, through the table's "Analyst" term. */
  lemma DataAnalystIsDataAndAnalytics()
    ensures Categorize("Data Analyst") == DataAnalytics
  {
    var b := Lower("Data Analyst");
    assert b == "data analyst";
    DataAnalystRow0(); DataAnalystRow1();
    assert Lower(DefaultCategories[2].terms[0]) == "analyst";
    ContainsAt(b, "analyst", 5);
    FirstTableMatchWins(DefaultCategories, "Data Analyst", 2);
  }
}
