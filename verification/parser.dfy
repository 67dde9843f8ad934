/**
 * The per-element tail of the HTML parser (comeet_parse_html_jobs): once a
 * title, an optional `data-category` attribute and a link have been taken
 * from a job element, a trailing location token is split off the title,
 * the category is filled in, and the element is kept only when its title
 * is long enough and is not a "location, employment type, seniority"
 * metadata line.  The elements are visited in order and the kept ones are
 * appended to the result.
 */
module Parser {
  import opened Wrappers
  import opened Text
  import opened Jobs
  import Categorizer

  /** What the DOM walk extracted from one job element. */
  datatype Element = Element(title: string, dataCategory: Option<string>, link: string)

  /** The alternatives of the location group, lower-cased (the pattern is /i). */
  const LocationTokens: seq<string> := ["jerusalem office", "tel aviv office", "hybrid", "remote"]
  /** The employment-type group of the metadata pattern. */
  const EmploymentTokens: seq<string> := ["full-time", "part-time", "contract"]
  /** The seniority group of the metadata pattern. */
  const SeniorityTokens: seq<string> := ["entry-level", "associate", "intermediate", "senior", "management"]

  const DefaultLocation: string := "Jerusalem Office"

  /** `t` occurs in `u` at index `i`. */
  predicate TokenAt(u: string, i: nat, t: string) {
    i + |t| <= |u| && u[i..i + |t|] == t
  }

  // ------------------------------------------------------------------
  // /(.*?)\s+(Jerusalem Office|Tel Aviv Office|Hybrid|Remote)\s*$/i
  // ------------------------------------------------------------------

  /**
   * One way the location pattern can match: group 1 is s[start..groupEnd]
   * and holds no newline (`.` does not match one), s[groupEnd..tokenStart]
   * is the `\s+`, the token follows case-insensitively, and only
   * whitespace is left after it (`\s*$`).
   */
  datatype Match = Match(start: nat, groupEnd: nat, tokenStart: nat, token: nat)

  ghost predicate IsRegexMatch(s: string, m: Match) {
    m.token < |LocationTokens| && MatchesWith(s, m.start, m.groupEnd, m.tokenStart, LocationTokens[m.token])
  }

  /** The same, for one token `tok` (lower-case). */
  ghost predicate MatchesWith(s: string, start: nat, groupEnd: nat, tokenStart: nat, tok: string) {
    && start <= groupEnd < tokenStart
    && tokenStart + |tok| <= |s|
    && '\n' !in s[start..groupEnd]
    && (forall i :: groupEnd <= i < tokenStart ==> IsPcreSpace(s[i]))
    && TokenAt(Lower(s), tokenStart, tok)
    && (forall i :: tokenStart + |tok| <= i < |s| ==> IsPcreSpace(s[i]))
  }

  /** The start of the run of `\s` characters that ends at `t`. */
  function SpaceRunStart(s: string, t: nat): (a: nat)
    requires t <= |s|
    ensures a <= t && (t > 0 && IsPcreSpace(s[t - 1]) ==> a < t)
  {
    TrimRightSpec(s[..t], IsPcreSpace);
    |TrimRight(s[..t], IsPcreSpace)|
  }

  /** The run is all whitespace, and the character before it is not. */
  lemma SpaceRunSpec(s: string, t: nat)
    requires t <= |s|
    ensures forall i :: SpaceRunStart(s, t) <= i < t ==> IsPcreSpace(s[i])
    ensures SpaceRunStart(s, t) == 0 || !IsPcreSpace(s[SpaceRunStart(s, t) - 1])
  {
    var a := SpaceRunStart(s, t);
    TrimRightSpec(s[..t], IsPcreSpace);
    forall i | a <= i < t
      ensures IsPcreSpace(s[i])
    {
      assert s[i] == s[..t][i];
    }
    if a > 0 {
      assert s[a - 1] == s[..t][a - 1];
    }
  }

  /** Any all-whitespace stretch ending at `t` lies within the run. */
  lemma SpaceRunLeast(s: string, t: nat, x: nat)
    requires x <= t <= |s| && forall i :: x <= i < t ==> IsPcreSpace(s[i])
    ensures SpaceRunStart(s, t) <= x
  {
    forall i | x <= i < t
      ensures IsPcreSpace(s[..t][i])
    {
      assert s[..t][i] == s[i];
    }
    TrimRightLeast(s[..t], x, IsPcreSpace);
  }

  /**
   * Token `k` ends where the trailing whitespace of `s` begins and is
   * preceded by a whitespace character.
   */
  predicate EndsWithToken(s: string, k: nat)
    requires k < |LocationTokens|
  {
    var t := SpaceRunStart(s, |s|) - |LocationTokens[k]|;
    t >= 1 && TokenAt(Lower(s), t, LocationTokens[k]) && IsPcreSpace(s[t - 1])
  }

  /** The first location token, from index `k` on, that `s` ends with. */
  function FindToken(s: string, k: nat): (r: Option<nat>)
    ensures r.Some? ==> k <= r.value < |LocationTokens| && EndsWithToken(s, r.value)
    decreases |LocationTokens| - k
  {
    if k >= |LocationTokens| then None
    else if EndsWithToken(s, k) then Some(k)
    else FindToken(s, k + 1)
  }

  /** The index just after the last newline before `a`, or 0. */
  function LineStart(s: string, a: nat): (l: nat)
    requires a <= |s|
    ensures l <= a
  {
    if a == 0 || s[a - 1] == '\n' then a else LineStart(s, a - 1)
  }

  /**
   * The match preg_match() reports: the token that ends the title, the
   * whitespace run before it, and group 1 starting at the beginning of the
   * line that run is on.
   */
  function LocationMatch(s: string): (r: Option<Match>)
    ensures r.Some? ==>
      && r.value.start <= r.value.groupEnd < r.value.tokenStart
      && r.value.token < |LocationTokens|
      && r.value.tokenStart + |LocationTokens[r.value.token]| <= |s|
  {
    match FindToken(s, 0)
    case None => None
    case Some(k) => Some(MatchOfToken(s, k))
  }

  /** The match around token `k`, which `s` ends with. */
  function MatchOfToken(s: string, k: nat): (m: Match)
    requires k < |LocationTokens| && EndsWithToken(s, k)
    ensures m.start <= m.groupEnd < m.tokenStart && m.token == k
    ensures m.tokenStart + |LocationTokens[k]| <= |s|
  {
    var t := SpaceRunStart(s, |s|) - |LocationTokens[k]|;
    var a := SpaceRunStart(s, t);
    Match(LineStart(s, a), a, t, k)
  }

  lemma {:induction false} LineStartSpec(s: string, a: nat)
    requires a <= |s|
    ensures '\n' !in s[LineStart(s, a)..a]
    ensures LineStart(s, a) == 0 || s[LineStart(s, a) - 1] == '\n'
    decreases a
  {
    if a > 0 && s[a - 1] != '\n' {
      LineStartSpec(s, a - 1);
      assert s[LineStart(s, a)..a] == s[LineStart(s, a - 1)..a - 1] + [s[a - 1]];
    }
  }

  lemma {:induction false} FindTokenNone(s: string, k: nat, j: nat)
    requires FindToken(s, k).None? && k <= j < |LocationTokens|
    ensures !EndsWithToken(s, j)
    decreases |LocationTokens| - k
  {
    if k < j {
      FindTokenNone(s, k + 1, j);
    }
  }

  /** Every location token ends with 'e' or 'd', never with whitespace. */
  lemma TokenEnds(k: nat)
    requires k < |LocationTokens|
    ensures |LocationTokens[k]| >= 6
    ensures LocationTokens[k][|LocationTokens[k]| - 1] in {'e', 'd'}
  {
  }

  /** At most one token can end at a given index. */
  lemma TokenSuffixUnique(u: string, e: nat, k1: nat, k2: nat)
    requires k1 < |LocationTokens| && k2 < |LocationTokens|
    requires |LocationTokens[k1]| <= e && TokenAt(u, e - |LocationTokens[k1]|, LocationTokens[k1])
    requires |LocationTokens[k2]| <= e && TokenAt(u, e - |LocationTokens[k2]|, LocationTokens[k2])
    ensures k1 == k2
  {
    var t1, t2 := LocationTokens[k1], LocationTokens[k2];
    assert u[e - 1] == t1[|t1| - 1] == t2[|t2| - 1];
    assert u[e - 2] == t1[|t1| - 2] == t2[|t2| - 2];
    if |t1| >= 15 && |t2| >= 15 {
      assert u[e - 15] == t1[|t1| - 15] == t2[|t2| - 15];
    }
  }

  /** A lower-cased token character that is a letter was not whitespace. */
  lemma LetterNotSpace(s: string, i: nat)
    requires i < |s| && Lower(s)[i] in {'e', 'd'}
    ensures !IsPcreSpace(s[i])
  {
  }

  /** The match built around a token the title ends with is a match of the pattern. */
  lemma EndingTokenMatches(s: string, k: nat)
    requires k < |LocationTokens| && EndsWithToken(s, k)
    ensures IsRegexMatch(s, MatchOfToken(s, k))
  {
    var tok := LocationTokens[k];
    var e := SpaceRunStart(s, |s|);
    var t := e - |tok|;
    var a := SpaceRunStart(s, t);
    MatchAroundToken(s, tok, e, t, a);
  }

  lemma MatchAroundToken(s: string, tok: string, e: nat, t: nat, a: nat)
    requires e <= |s| && t + |tok| == e && 0 < t
    requires TokenAt(Lower(s), t, tok) && IsPcreSpace(s[t - 1])
    requires a == SpaceRunStart(s, t) && e == SpaceRunStart(s, |s|)
    ensures MatchesWith(s, LineStart(s, a), a, t, tok)
  {
    SpaceRunSpec(s, |s|);
    SpaceRunSpec(s, t);
    LineStartSpec(s, a);
  }

  /** The reported match is a match of the pattern. */
  lemma LocationMatchSound(s: string)
    requires LocationMatch(s).Some?
    ensures IsRegexMatch(s, LocationMatch(s).value)
  {
    EndingTokenMatches(s, FindToken(s, 0).value);
  }

  /** Only whitespace follows the token of a match, so it ends where the trailing whitespace begins. */
  lemma MatchEndsAtTrim(s: string, m: Match)
    requires IsRegexMatch(s, m)
    ensures m.tokenStart + |LocationTokens[m.token]| == SpaceRunStart(s, |s|)
  {
    TokenLastNotSpace(s, m);
    RunStartAt(s, |s|, m.tokenStart + |LocationTokens[m.token]|);
  }

  /** The last character of a matched token is a letter, not whitespace. */
  lemma TokenLastNotSpace(s: string, m: Match)
    requires IsRegexMatch(s, m)
    ensures !IsPcreSpace(s[m.tokenStart + |LocationTokens[m.token]| - 1])
  {
    var tok := LocationTokens[m.token];
    var q := m.tokenStart + |tok|;
    TokenEnds(m.token);
    assert Lower(s)[q - 1] == tok[|tok| - 1];
    LetterNotSpace(s, q - 1);
  }

  /** If only whitespace lies between a non-space character and `t`, the run ending at `t` starts right after it. */
  lemma RunStartAt(s: string, t: nat, q: nat)
    requires 0 < q <= t <= |s| && !IsPcreSpace(s[q - 1])
    requires forall i :: q <= i < t ==> IsPcreSpace(s[i])
    ensures SpaceRunStart(s, t) == q
  {
    SpaceRunLeast(s, t, q);
    SpaceRunSpec(s, t);
  }

  /** The token of any match is the one the search finds. */
  lemma MatchedTokenFound(s: string, m: Match)
    requires IsRegexMatch(s, m)
    ensures FindToken(s, 0) == Some(m.token)
  {
    MatchEndsAtTrim(s, m);
    assert EndsWithToken(s, m.token) by {
      assert IsPcreSpace(s[m.tokenStart - 1]);
    }
    match FindToken(s, 0)
    case None =>
      FindTokenNone(s, 0, m.token);
    case Some(k2) =>
      TokenSuffixUnique(Lower(s), SpaceRunStart(s, |s|), m.token, k2);
  }

  /** No newline in s[p..x] and a <= x: the line that holds a starts at p or before. */
  lemma {:induction false} LineStartLeast(s: string, a: nat, p: nat, x: nat)
    requires a <= x <= |s| && p <= x && '\n' !in s[p..x]
    ensures LineStart(s, a) <= p
    decreases a
  {
    if p < a {
      assert s[a - 1] == s[p..x][a - 1 - p];
      LineStartLeast(s, a - 1, p, x);
    }
  }

  /**
   * Any way the pattern can match agrees with the reported match on the
   * token, and the reported match starts no later and has a group 1 that
   * ends no later: the leftmost start and the lazy `(.*?)`.  In particular
   * a title that matches at all is reported.
   */
  lemma LocationMatchLeftmost(s: string, m: Match)
    requires IsRegexMatch(s, m)
    ensures LocationMatch(s).Some?
    ensures LocationMatch(s).value.token == m.token
    ensures LocationMatch(s).value.tokenStart == m.tokenStart
    ensures LocationMatch(s).value.start <= m.start
    ensures LocationMatch(s).value.groupEnd <= m.groupEnd
  {
    MatchedTokenFound(s, m);
    MatchEndsAtTrim(s, m);
    var r := LocationMatch(s).value;
    SpaceRunLeast(s, m.tokenStart, m.groupEnd);
    LineStartLeast(s, r.groupEnd, m.start, m.groupEnd);
  }

  /** The title without its location suffix, and the location: the token as written, or the default. */
  function StripLocation(s: string): (string, string) {
    match LocationMatch(s)
    case None => (s, DefaultLocation)
    case Some(m) =>
      // trim() of the token changes nothing: it starts and ends with a letter.
      (PhpTrim(s[m.start..m.groupEnd]), s[m.tokenStart..m.tokenStart + |LocationTokens[m.token]|])
  }

  /** What the strip promises, stated against the pattern. */
  lemma StripLocationSpec(s: string)
    ensures LocationMatch(s).None? ==> StripLocation(s) == (s, DefaultLocation)
    ensures LocationMatch(s).Some? ==>
      var m := LocationMatch(s).value;
      && IsRegexMatch(s, m)
      && StripLocation(s).0 == PhpTrim(s[m.start..m.groupEnd])
      && StripLocation(s).1 == s[m.tokenStart..m.tokenStart + |LocationTokens[m.token]|]
      && Lower(StripLocation(s).1) == LocationTokens[m.token]
  {
    if LocationMatch(s).Some? {
      var m := LocationMatch(s).value;
      LocationMatchSound(s);
      var tok := LocationTokens[m.token];
      assert Lower(s)[m.tokenStart..m.tokenStart + |tok|] == tok;
      assert Lower(s[m.tokenStart..m.tokenStart + |tok|]) == Lower(s)[m.tokenStart..m.tokenStart + |tok|];
    }
  }

  // ------------------------------------------------------------------
  // /^(Jerusalem Office|...).*?(Full-time|...).*?(Entry-level|...)/i
  // ------------------------------------------------------------------

  /** A seniority token starts at `j` or later, on the same line. */
  predicate SeniorityFrom(u: string, j: nat)
    decreases |u| - j
  {
    j < |u| && u[j] != '\n'
    && ((exists c | 0 <= c < |SeniorityTokens| :: TokenAt(u, j, SeniorityTokens[c])) || SeniorityFrom(u, j + 1))
  }

  /** An employment token starts at `i` or later, followed on the same line by a seniority token. */
  predicate EmploymentFrom(u: string, i: nat)
    decreases |u| - i
  {
    i < |u| && u[i] != '\n'
    && ((exists b | 0 <= b < |EmploymentTokens| ::
          TokenAt(u, i, EmploymentTokens[b]) && SeniorityFrom(u, i + |EmploymentTokens[b]|))
        || EmploymentFrom(u, i + 1))
  }

  /** The metadata test of the parser, as a scan of the lower-cased title. */
  predicate IsMetadata(title: string) {
    var u := Lower(title);
    exists a | 0 <= a < |LocationTokens| :: TokenAt(u, 0, LocationTokens[a]) && EmploymentFrom(u, |LocationTokens[a]|)
  }

  /** The pattern itself: the three groups in order with no newline between them. */
  ghost predicate SeniorityAhead(u: string, j0: nat) {
    exists j, c :: j0 <= j && 0 <= c < |SeniorityTokens| && TokenAt(u, j, SeniorityTokens[c]) && '\n' !in u[j0..j]
  }

  ghost predicate EmploymentAhead(u: string, i0: nat) {
    exists i, b :: i0 <= i && 0 <= b < |EmploymentTokens| && TokenAt(u, i, EmploymentTokens[b])
      && '\n' !in u[i0..i] && SeniorityAhead(u, i + |EmploymentTokens[b]|)
  }

  ghost predicate MetadataPattern(title: string) {
    exists a :: 0 <= a < |LocationTokens| && TokenAt(Lower(title), 0, LocationTokens[a])
      && EmploymentAhead(Lower(title), |LocationTokens[a]|)
  }

  lemma TokensStartWithLetters()
    ensures forall c :: 0 <= c < |SeniorityTokens| ==> |SeniorityTokens[c]| > 0 && SeniorityTokens[c][0] != '\n'
    ensures forall b :: 0 <= b < |EmploymentTokens| ==> |EmploymentTokens[b]| > 0 && EmploymentTokens[b][0] != '\n'
  {
  }

  /** Newline-free stretches: one character more in front. */
  lemma NoNewlineCons(u: string, i: nat, j: nat)
    requires i < j <= |u|
    ensures ('\n' !in u[i..j]) <==> (u[i] != '\n' && '\n' !in u[i + 1..j])
  {
    assert u[i..j] == [u[i]] + u[i + 1..j];
  }

  lemma {:induction false} SeniorityFromSpec(u: string, j0: nat)
    ensures SeniorityFrom(u, j0) <==> SeniorityAhead(u, j0)
    decreases |u| - j0
  {
    TokensStartWithLetters();
    if j0 < |u| && u[j0] != '\n' {
      SeniorityFromSpec(u, j0 + 1);
      if SeniorityFrom(u, j0) {
        if c :| 0 <= c < |SeniorityTokens| && TokenAt(u, j0, SeniorityTokens[c]) {
          assert u[j0..j0] == [];
        } else {
          var j, c :| j0 + 1 <= j && 0 <= c < |SeniorityTokens| && TokenAt(u, j, SeniorityTokens[c]) && '\n' !in u[j0 + 1..j];
          NoNewlineCons(u, j0, j);
        }
      }
      if SeniorityAhead(u, j0) {
        var j, c :| j0 <= j && 0 <= c < |SeniorityTokens| && TokenAt(u, j, SeniorityTokens[c]) && '\n' !in u[j0..j];
        if j > j0 {
          NoNewlineCons(u, j0, j);
        }
      }
    }
  }

  lemma {:induction false} EmploymentFromSound(u: string, i0: nat)
    requires EmploymentFrom(u, i0)
    ensures EmploymentAhead(u, i0)
    decreases |u| - i0
  {
    if b :| 0 <= b < |EmploymentTokens| && TokenAt(u, i0, EmploymentTokens[b]) && SeniorityFrom(u, i0 + |EmploymentTokens[b]|) {
      SeniorityFromSpec(u, i0 + |EmploymentTokens[b]|);
      assert u[i0..i0] == [];
    } else {
      EmploymentFromSound(u, i0 + 1);
      var i, b :| i0 + 1 <= i && 0 <= b < |EmploymentTokens| && TokenAt(u, i, EmploymentTokens[b])
        && '\n' !in u[i0 + 1..i] && SeniorityAhead(u, i + |EmploymentTokens[b]|);
      NoNewlineCons(u, i0, i);
    }
  }

  lemma EmploymentFromComplete(u: string, i0: nat)
    requires EmploymentAhead(u, i0)
    ensures EmploymentFrom(u, i0)
  {
    var i, b :| i0 <= i && 0 <= b < |EmploymentTokens| && TokenAt(u, i, EmploymentTokens[b])
      && '\n' !in u[i0..i] && SeniorityAhead(u, i + |EmploymentTokens[b]|);
    SeniorityFromSpec(u, i + |EmploymentTokens[b]|);
    EmploymentReaches(u, i0, i, b);
  }

  /** The scan started at `i0` walks forward, over no newline, to the employment token at `i`. */
  lemma {:induction false} EmploymentReaches(u: string, i0: nat, i: nat, b: nat)
    requires i0 <= i && b < |EmploymentTokens| && TokenAt(u, i, EmploymentTokens[b])
    requires '\n' !in u[i0..i] && SeniorityFrom(u, i + |EmploymentTokens[b]|)
    ensures EmploymentFrom(u, i0)
    decreases i - i0
  {
    if i == i0 {
      EmploymentHere(u, i0, b);
    } else {
      NoNewlineCons(u, i0, i);
      EmploymentReaches(u, i0 + 1, i, b);
      EmploymentLater(u, i0);
    }
  }

  /** The scan succeeds where an employment token starts with a seniority token after it. */
  lemma EmploymentHere(u: string, i: nat, b: nat)
    requires b < |EmploymentTokens| && TokenAt(u, i, EmploymentTokens[b])
    requires SeniorityFrom(u, i + |EmploymentTokens[b]|)
    ensures EmploymentFrom(u, i)
  {
    TokensStartWithLetters();
    assert u[i] == EmploymentTokens[b][0];
  }

  /** The scan succeeds where it succeeds one character later, unless this one is a newline. */
  lemma EmploymentLater(u: string, i: nat)
    requires i < |u| && u[i] != '\n' && EmploymentFrom(u, i + 1)
    ensures EmploymentFrom(u, i)
  {
  }

  lemma EmploymentFromSpec(u: string, i0: nat)
    ensures EmploymentFrom(u, i0) <==> EmploymentAhead(u, i0)
  {
    if EmploymentFrom(u, i0) {
      EmploymentFromSound(u, i0);
    }
    if EmploymentAhead(u, i0) {
      EmploymentFromComplete(u, i0);
    }
  }

  /** The scan decides exactly the metadata pattern. */
  lemma IsMetadataSpec(title: string)
    ensures IsMetadata(title) <==> MetadataPattern(title)
  {
    var u := Lower(title);
    forall a | 0 <= a < |LocationTokens|
      ensures EmploymentFrom(u, |LocationTokens[a]|) <==> EmploymentAhead(u, |LocationTokens[a]|)
    {
      EmploymentFromSpec(u, |LocationTokens[a]|);
    }
  }

  // ------------------------------------------------------------------
  // One element
  // ------------------------------------------------------------------

  /** The record the parser starts from, with the attribute category when there is one. */
  function InitialJob(el: Element): Job {
    map[Title := el.title, Location := "", Category := (if el.dataCategory.Some? then el.dataCategory.value else ""),
        Link := el.link, Type := "Full-time"]
  }

  /** Kept when the stripped title is non-empty, longer than three bytes and not a metadata line. */
  predicate Acceptable(title: string) {
    !EmptyString(title) && |title| > 3 && !IsMetadata(title)
  }

  /** The post-processing of one element: the job it adds, if any. */
  function PostProcess(el: Element): Option<Job> {
    var job := InitialJob(el);
    if EmptyString(job[Title]) then None
    else
      var stripped := StripLocation(job[Title]);
      var title := stripped.0;
      var category := if EmptyString(job[Category]) then Categorizer.Categorize(title) else job[Category];
      if Acceptable(title) then Some(job[Title := title][Location := stripped.1][Category := category])
      else None
  }

  /**
   * An element yields a job exactly when its title is non-empty and its
   * stripped title is acceptable; the job has the five keys, the stripped
   * title and location, the link, type Full-time, and the attribute
   * category unless that is empty, in which case the category of the
   * stripped title.
   */
  lemma PostProcessSpec(el: Element)
    ensures PostProcess(el).Some? <==> !EmptyString(el.title) && Acceptable(StripLocation(el.title).0)
    ensures PostProcess(el).Some? ==>
      var j := PostProcess(el).value;
      && j.Keys == {Title, Location, Category, Link, Type}
      && j[Title] == StripLocation(el.title).0
      && j[Location] == StripLocation(el.title).1
      && j[Link] == el.link
      && j[Type] == "Full-time"
      && j[Category] == (if el.dataCategory.Some? && !EmptyString(el.dataCategory.value) then el.dataCategory.value
                         else Categorizer.Categorize(j[Title]))
  {
  }

  /** A kept job's title is longer than three bytes and is no metadata line. */
  lemma PostProcessAccepted(el: Element)
    requires PostProcess(el).Some?
    ensures |PostProcess(el).value[Title]| > 3
    ensures !MetadataPattern(PostProcess(el).value[Title])
  {
    IsMetadataSpec(PostProcess(el).value[Title]);
  }

  // ------------------------------------------------------------------
  // The loop over elements
  // ------------------------------------------------------------------

  function Emitted(r: Option<Job>): seq<Job> {
    if r.Some? then [r.value] else []
  }

  /** The jobs the parser returns for a list of elements, in document order. */
  function Parsed(els: seq<Element>): seq<Job> {
    if els == [] then [] else Parsed(els[..|els| - 1]) + Emitted(PostProcess(els[|els| - 1]))
  }

  /** The foreach over the job elements, appending each kept job. */
  method ParseElements(els: seq<Element>) returns (jobs: seq<Job>)
    ensures jobs == Parsed(els)
  {
    jobs := [];
    for i := 0 to |els|
      invariant jobs == Parsed(els[..i])
    {
      var job := PostProcess(els[i]);
      if job.Some? {
        jobs := jobs + [job.value];
      }
      assert els[..i + 1][..i] == els[..i];
    }
    assert els[..|els|] == els;
  }

  /**
   * The parser never returns more jobs than elements, and every job it
   * returns is the post-processing of one of the elements.
   */
  lemma {:induction false} ParsedSpec(els: seq<Element>)
    ensures |Parsed(els)| <= |els|
    ensures forall j :: j in Parsed(els) ==> exists e :: e in els && PostProcess(e) == Some(j)
  {
    if els != [] {
      var init := els[..|els| - 1];
      ParsedSpec(init);
      forall j | j in Parsed(els)
        ensures exists e :: e in els && PostProcess(e) == Some(j)
      {
        if j in Parsed(init) {
          var e :| e in init && PostProcess(e) == Some(j);
          assert e in els;
        } else {
          assert els[|els| - 1] in els;
        }
      }
    }
  }

  // ------------------------------------------------------------------
  // Examples
  // ------------------------------------------------------------------

  lemma LowerTelAvivOffice(t: string)
    requires t == "Tel Aviv Office"
    ensures Lower(t) == LocationTokens[1]
  {
  }

  lemma LowerFullTime(t: string)
    requires t == "Full-time"
    ensures Lower(t) == EmploymentTokens[0]
  {
  }

  lemma LowerSenior(t: string)
    requires t == "Senior"
    ensures Lower(t) == SeniorityTokens[3]
  {
  }

  /** "Tel Aviv Office Full-time Senior" ends with no location token and keeps its title. */
  lemma MetadataLineNotStripped(s: string)
    requires s == "Tel Aviv Office Full-time Senior"
    ensures StripLocation(s) == (s, DefaultLocation)
  {
    assert SpaceRunStart(s, |s|) == |s|;
    forall k | 0 <= k < |LocationTokens|
      ensures !EndsWithToken(s, k)
    {
      TokenEnds(k);
      assert Lower(s)[|s| - 1] == 'r';
    }
    assert FindToken(s, 0).None? by {
      assert !EndsWithToken(s, 0) && !EndsWithToken(s, 1) && !EndsWithToken(s, 2) && !EndsWithToken(s, 3);
    }
  }

  /** Where the three groups of the metadata pattern sit in "Tel Aviv Office Full-time Senior". */
  lemma MetadataLineTokens(s: string)
    requires s == "Tel Aviv Office Full-time Senior"
    ensures TokenAt(Lower(s), 0, LocationTokens[1])
    ensures TokenAt(Lower(s), 16, EmploymentTokens[0])
    ensures TokenAt(Lower(s), 26, SeniorityTokens[3])
    ensures Lower(s)[15..16] == [' '] && Lower(s)[25..26] == [' ']
  {
    LowerSlice(s, 0, 15);
    LowerSlice(s, 16, 25);
    LowerSlice(s, 26, 32);
    LowerTelAvivOffice(s[0..15]);
    LowerFullTime(s[16..25]);
    LowerSenior(s[26..32]);
  }

  /** "Tel Aviv Office Full-time Senior" is a metadata line. */
  lemma MetadataLineIsMetadata(s: string)
    requires s == "Tel Aviv Office Full-time Senior"
    ensures IsMetadata(s)
  {
    var u := Lower(s);
    MetadataLineTokens(s);
    assert SeniorityAhead(u, 25);
    assert EmploymentAhead(u, 15);
    assert MetadataPattern(s);
    IsMetadataSpec(s);
  }

  /** A location/employment/seniority line is dropped, whatever its category and link. */
  lemma MetadataLineDropped(el: Element)
    requires el.title == "Tel Aviv Office Full-time Senior"
    ensures PostProcess(el).None?
  {
    MetadataLineNotStripped(el.title);
    MetadataLineIsMetadata(el.title);
    PostProcessSpec(el);
  }

  /** The location pattern matches "Backend Developer Tel Aviv Office" with group 1 "Backend Developer". */
  lemma TrailingOfficeMatches(s: string)
    requires s == "Backend Developer Tel Aviv Office"
    ensures IsRegexMatch(s, Match(0, 17, 18, 1))
  {
    LowerSlice(s, 18, 33);
    LowerTelAvivOffice(s[18..33]);
    assert '\n' !in s[0..17];
  }

  /**
   * A match whose group 1 starts the title and ends in a non-space
   * character is the reported one: the title is trimmed group 1 and the
   * location is the token as written.
   */
  lemma StripLocationOfMatch(s: string, m: Match)
    requires IsRegexMatch(s, m) && m.start == 0 && (m.groupEnd == 0 || !IsPcreSpace(s[m.groupEnd - 1]))
    ensures StripLocation(s) == (PhpTrim(s[..m.groupEnd]), s[m.tokenStart..m.tokenStart + |LocationTokens[m.token]|])
  {
    LocationMatchLeftmost(s, m);
    LocationMatchSound(s);
    assert LocationMatch(s).value == m;
  }

  lemma TrailingOfficeGroups(s: string)
    requires s == "Backend Developer Tel Aviv Office"
    ensures StripLocation(s) == (PhpTrim(s[..17]), s[18..33])
  {
    TrailingOfficeMatches(s);
    StripLocationOfMatch(s, Match(0, 17, 18, 1));
  }

  lemma TrailingOfficeSlices(s: string)
    requires s == "Backend Developer Tel Aviv Office"
    ensures s[..17] == "Backend Developer"
    ensures s[18..33] == "Tel Aviv Office"
  {
  }

  lemma BackendDeveloperTrimmed()
    ensures PhpTrim("Backend Developer") == "Backend Developer"
  {
    TrimOfTrimmed("Backend Developer", IsPhpTrimChar);
  }

  /** In "Backend Developer Tel Aviv Office" the office is split off. */
  lemma TrailingOfficeStripped(s: string)
    requires s == "Backend Developer Tel Aviv Office"
    ensures StripLocation(s) == ("Backend Developer", "Tel Aviv Office")
  {
    TrailingOfficeGroups(s);
    TrailingOfficeSlices(s);
    BackendDeveloperTrimmed();
  }

  /** "Backend Developer" does not start with a location token. */
  lemma BackendDeveloperNotMetadata()
    ensures !IsMetadata("Backend Developer")
  {
    var v := Lower("Backend Developer");
    assert v[0] == 'b';
    forall a | 0 <= a < |LocationTokens|
      ensures !TokenAt(v, 0, LocationTokens[a])
    {
      assert LocationTokens[a][0] != 'b';
    }
  }

  /** A trailing office is split off into the location and the rest is kept as the title. */
  lemma TrailingOfficeSplit(el: Element)
    requires el.title == "Backend Developer Tel Aviv Office"
    ensures PostProcess(el).Some?
    ensures PostProcess(el).value[Title] == "Backend Developer"
    ensures PostProcess(el).value[Location] == "Tel Aviv Office"
  {
    TrailingOfficeStripped(el.title);
    BackendDeveloperAcceptable("Backend Developer");
    assert !EmptyString(el.title);
    PostProcessSpec(el);
  }

  lemma BackendDeveloperAcceptable(t: string)
    requires t == "Backend Developer"
    ensures Acceptable(t)
  {
    BackendDeveloperNotMetadata();
  }
}
