/**
 * The tail of comeet_fetch_jobs in comeet-slider-helper.php: choose the
 * first source that produced postings, fall back to five fixed postings
 * when none did, then normalise every posting in place.
 */
module Fetch {
  import opened Text
  import opened Jobs
  import Categorizer

  /** The middle dot that separates title, location and type in a scraped title (one character here). */
  const MiddleDot: char := '·'

  function Posting(title: string, location: string, category: string): Job {
    map[Title := title, Location := location, Category := category, Link := "#", Type := "Full-time"]
  }

  /** The emergency list used when no source produced anything. */
  const EmergencyFallback: seq<Job> := [
    Posting("Senior Software Engineer", "Jerusalem", Categorizer.Engineering),
    Posting("Product Manager", "Tel Aviv", Categorizer.ProductDesign),
    Posting("Data Scientist", "Hybrid", Categorizer.DataAnalytics),
    Posting("Frontend Developer", "Remote", Categorizer.Engineering),
    Posting("UX Designer", "Jerusalem", Categorizer.ProductDesign)
  ]

  /**
   * The postings the normalisation pass starts from.  `provider` is what
   * probing the Comeet plugin object yielded and `scraped` what scraping the
   * careers page yielded (both foreign; either may be empty).  The first
   * non-empty one is used, and failing both the emergency list.
   */
  function Source(provider: seq<Job>, scraped: seq<Job>): (r: seq<Job>)
    ensures r != []
    ensures provider != [] ==> r == provider
    ensures provider == [] && scraped != [] ==> r == scraped
    ensures provider == [] && scraped == [] ==> r == EmergencyFallback
  {
    if provider != [] then provider
    else if scraped != [] then scraped
    else EmergencyFallback
  }

  /** The keys every normalised posting has. */
  const RequiredKeys: set<Field> := {Title, Location, Link, Category}

  /** The title a posting has once the defaults are filled in. */
  function RawTitle(j: Job): string {
    if Title in j then j[Title] else "Unknown Position"
  }

  /**
   * Fill in the missing required fields.  The category of a posting that has
   * none is computed from its title as it stands, before any clean-up.
   */
  function FillDefaults(j: Job): (r: Job)
    ensures Title in r && Location in r && Link in r && Category in r
  {
    var j1 := if Title in j then j else j[Title := "Unknown Position"];
    var j2 := if Location in j1 then j1 else j1[Location := "Location TBD"];
    var j3 := if Link in j2 then j2 else j2[Link := "#"];
    if Category in j3 then j3 else j3[Category := Categorizer.Categorize(j3[Title])]
  }

  /** A second segment becomes the location only when it names an office or hybrid work. */
  predicate IsLocationSegment(s: string) {
    Contains(s, "Office") || Contains(s, "Hybrid")
  }

  /**
   * The title clean-up: squash whitespace and trim; when the result holds a
   * middle dot, keep the trimmed text before the first one as the title,
   * take the second segment as the location when the location is empty and
   * the segment qualifies, and the third as the type when the type is empty.
   * A title that PHP considers empty ("" or "0") is left alone.
   */
  function CleanTitle(j: Job): (r: Job)
    requires Title in j
    ensures j.Keys <= r.Keys
  {
    if EmptyString(j[Title]) then j
    else ApplySegments(j, SquashTitle(j[Title]))
  }

  /** The posting once its squashed title `squashed` has been cut at the middle dots. */
  function ApplySegments(j: Job, squashed: string): (r: Job)
    ensures j.Keys <= r.Keys
  {
    var parts := Split(squashed, MiddleDot);
    if |parts| == 1 then j[Title := squashed]
    else
      var j1 := j[Title := PhpTrim(parts[0])];
      var place := PhpTrim(parts[1]);
      var j2 := if Empty(j1, Location) && IsLocationSegment(place) then j1[Location := place] else j1;
      if Empty(j2, Type) && |parts| > 2 then j2[Type := PhpTrim(parts[2])] else j2
  }

  /** One posting after the normalisation pass. */
  function NormalizeJob(j: Job): Job {
    CleanTitle(FillDefaults(j))
  }

  /** The pieces the squashed title of `j` falls into at the middle dots. */
  function Segments(j: Job): seq<string> {
    Split(SquashTitle(RawTitle(j)), MiddleDot)
  }

  /** What filling the defaults does to each field. */
  lemma FillDefaultsSpec(j: Job)
    ensures FillDefaults(j).Keys == j.Keys + RequiredKeys
    ensures forall k :: k in j ==> FillDefaults(j)[k] == j[k]
    ensures FillDefaults(j)[Title] == RawTitle(j)
    ensures Location !in j ==> FillDefaults(j)[Location] == "Location TBD"
    ensures Link !in j ==> FillDefaults(j)[Link] == "#"
    ensures Category !in j ==> FillDefaults(j)[Category] == Categorizer.Categorize(RawTitle(j))
  {
  }

  /** The clean-up touches only the title, an empty location and an empty type. */
  lemma CleanTitleFields(j: Job)
    requires Title in j
    ensures j.Keys <= CleanTitle(j).Keys <= j.Keys + {Location, Type}
    ensures forall k :: k in j && k != Title && k != Location && k != Type ==> CleanTitle(j)[k] == j[k]
    ensures Location in j && !EmptyString(j[Location]) ==> CleanTitle(j)[Location] == j[Location]
    ensures Type in j && !EmptyString(j[Type]) ==> CleanTitle(j)[Type] == j[Type]
    ensures EmptyString(j[Title]) || |Split(SquashTitle(j[Title]), MiddleDot)| == 1 ==>
              && (Location in j ==> CleanTitle(j)[Location] == j[Location])
              && (Type in CleanTitle(j) <==> Type in j)
              && (Type in j ==> CleanTitle(j)[Type] == j[Type])
  {
    if !EmptyString(j[Title]) {
      ApplySegmentsFields(j, SquashTitle(j[Title]));
    }
  }

  lemma ApplySegmentsFields(j: Job, squashed: string)
    requires Title in j
    ensures j.Keys <= ApplySegments(j, squashed).Keys <= j.Keys + {Location, Type}
    ensures forall k :: k in j && k != Title && k != Location && k != Type ==> ApplySegments(j, squashed)[k] == j[k]
    ensures Location in j && !EmptyString(j[Location]) ==> ApplySegments(j, squashed)[Location] == j[Location]
    ensures Type in j && !EmptyString(j[Type]) ==> ApplySegments(j, squashed)[Type] == j[Type]
    ensures |Split(squashed, MiddleDot)| == 1 ==>
              && (Location in j ==> ApplySegments(j, squashed)[Location] == j[Location])
              && (Type in ApplySegments(j, squashed) <==> Type in j)
              && (Type in j ==> ApplySegments(j, squashed)[Type] == j[Type])
  {
  }

  /**
   * After normalisation a posting has every required field.  Missing ones
   * get their defaults, the category of an uncategorised posting comes from
   * its raw title, fields that were present keep their values (a location
   * or type only ever replaces an empty one), and no field other than the
   * type is added.  When the title is empty or holds no middle dot, the
   * location and type are left exactly as they were.
   */
  lemma NormalizeJobFields(j: Job)
    ensures RequiredKeys <= NormalizeJob(j).Keys
    ensures j.Keys + RequiredKeys <= NormalizeJob(j).Keys <= j.Keys + RequiredKeys + {Type}
    ensures forall k :: k in j && k != Title && k != Location && k != Type ==> NormalizeJob(j)[k] == j[k]
    ensures Link !in j ==> NormalizeJob(j)[Link] == "#"
    ensures Category !in j ==> NormalizeJob(j)[Category] == Categorizer.Categorize(RawTitle(j))
    ensures Location !in j ==> NormalizeJob(j)[Location] == "Location TBD"
    ensures Location in j && !EmptyString(j[Location]) ==> NormalizeJob(j)[Location] == j[Location]
    ensures Type in j && !EmptyString(j[Type]) ==> NormalizeJob(j)[Type] == j[Type]
    ensures EmptyString(RawTitle(j)) || |Segments(j)| == 1 ==>
              && (Location in j ==> NormalizeJob(j)[Location] == j[Location])
              && (Type in NormalizeJob(j) <==> Type in j)
              && (Type in j ==> NormalizeJob(j)[Type] == j[Type])
  {
    FillDefaultsSpec(j);
    CleanTitleFields(FillDefaults(j));
    if EmptyString(RawTitle(j)) || |Segments(j)| == 1 {
      NormalizeJobUntouched(j);
    }
  }

  /** With an empty title or no middle dot there is no segment to move: the location and type stay. */
  lemma NormalizeJobUntouched(j: Job)
    requires EmptyString(RawTitle(j)) || |Segments(j)| == 1
    ensures Location in j ==> NormalizeJob(j)[Location] == j[Location]
    ensures Type in NormalizeJob(j) <==> Type in j
    ensures Type in j ==> NormalizeJob(j)[Type] == j[Type]
  {
    var f := FillDefaults(j);
    FillDefaultsSpec(j);
    assert f[Title] == RawTitle(j);
    CleanTitleFields(f);
  }

  /**
   * The cleaned title: an empty one ("" or "0") is kept; otherwise it is the
   * trimmed text before the first middle dot of the squashed title, so it
   * holds no middle dot and is in normal form (no whitespace runs, no
   * whitespace at either end).
   */
  lemma NormalizeJobTitle(j: Job)
    ensures EmptyString(RawTitle(j)) ==> NormalizeJob(j)[Title] == RawTitle(j)
    ensures !EmptyString(RawTitle(j)) ==>
              && NormalizeJob(j)[Title] == PhpTrim(Segments(j)[0])
              && MiddleDot !in NormalizeJob(j)[Title]
              && PhpNormalized(NormalizeJob(j)[Title])
  {
    var f := FillDefaults(j);
    FillDefaultsSpec(j);
    var t := RawTitle(j);
    if !EmptyString(t) {
      SquashTitleNormalized(t);
      ApplySegmentsTitle(f, SquashTitle(t));
    }
  }

  /** The title ApplySegments leaves, given a squashed title. */
  lemma ApplySegmentsTitle(j: Job, squashed: string)
    requires PhpNormalized(squashed)
    ensures Title in ApplySegments(j, squashed)
    ensures ApplySegments(j, squashed)[Title] == PhpTrim(Split(squashed, MiddleDot)[0])
    ensures MiddleDot !in ApplySegments(j, squashed)[Title]
    ensures PhpNormalized(ApplySegments(j, squashed)[Title])
  {
    var parts := Split(squashed, MiddleDot);
    SplitJoin(squashed, MiddleDot);
    SplitHead(squashed, MiddleDot);
    if |parts| == 1 {
      TrimOfTrimmed(squashed, IsPhpTrimChar);
    } else {
      TrimLacks(parts[0], IsPhpTrimChar, MiddleDot);
      TrimSliceNormalized(squashed, 0, |parts[0]|);
    }
  }

  /**
   * The second and third segments: an empty location takes the second one
   * when it names an office or hybrid work, and an empty or missing type
   * takes the third one when there is one; with only two segments the
   * type is left exactly as it was.
   */
  lemma NormalizeJobSegments(j: Job)
    requires !EmptyString(RawTitle(j)) && |Segments(j)| > 1
    ensures Location in j && EmptyString(j[Location]) ==>
              && Location in NormalizeJob(j)
              && NormalizeJob(j)[Location] ==
                   (if IsLocationSegment(PhpTrim(Segments(j)[1])) then PhpTrim(Segments(j)[1]) else j[Location])
    ensures Empty(j, Type) && |Segments(j)| > 2 ==> Type in NormalizeJob(j) && NormalizeJob(j)[Type] == PhpTrim(Segments(j)[2])
    ensures |Segments(j)| == 2 ==>
              && (Type in NormalizeJob(j) <==> Type in j)
              && (Type in j ==> NormalizeJob(j)[Type] == j[Type])
  {
    FillDefaultsSpec(j);
    ApplySegmentsTail(FillDefaults(j), SquashTitle(RawTitle(j)));
  }

  /** Where the second and third segments go, given a squashed title with a middle dot. */
  lemma ApplySegmentsTail(j: Job, squashed: string)
    requires |Split(squashed, MiddleDot)| > 1
    ensures var parts := Split(squashed, MiddleDot);
            var r := ApplySegments(j, squashed);
            && (Location in j && EmptyString(j[Location]) ==>
                  Location in r && r[Location] == (if IsLocationSegment(PhpTrim(parts[1])) then PhpTrim(parts[1]) else j[Location]))
            && (Empty(j, Type) && |parts| > 2 ==> Type in r && r[Type] == PhpTrim(parts[2]))
            && (|parts| == 2 ==> (Type in r <==> Type in j) && (Type in j ==> r[Type] == j[Type]))
  {
  }

  /** Normalising twice gives the same postings as normalising once. */
  lemma NormalizeJobIdempotent(j: Job)
    ensures NormalizeJob(NormalizeJob(j)) == NormalizeJob(j)
  {
    var n := NormalizeJob(j);
    NormalizeJobFields(j);
    NormalizeJobTitle(j);
    assert FillDefaults(n) == n;
    assert RawTitle(n) == n[Title];
    var t := n[Title];
    if !EmptyString(t) {
      SquashTitleOfNormalized(t);
      SplitJoin(t, MiddleDot);
      assert n[Title := t] == n;
    }
  }

  /**
   * The pass over the postings, updating each in place as the foreach by
   * reference does.
   */
  method NormalizeAll(jobs: array<Job>)
    modifies jobs
    ensures forall i :: 0 <= i < jobs.Length ==> jobs[i] == NormalizeJob(old(jobs[i]))
  {
    ghost var original := jobs[..];
    for i := 0 to jobs.Length
      invariant forall k :: 0 <= k < i ==> jobs[k] == NormalizeJob(original[k])
      invariant forall k :: i <= k < jobs.Length ==> jobs[k] == original[k]
    {
      jobs[i] := NormalizePosting(jobs[i]);
    }
  }

  /** The body of the pass for one posting: the defaults, then the title clean-up. */
  method NormalizePosting(j: Job) returns (job: Job)
    ensures job == NormalizeJob(j)
  {
    job := FillDefaultsStep(j);
    job := CleanTitleStep(job);
  }

  /** The four isset() checks, one after another. */
  method FillDefaultsStep(j: Job) returns (job: Job)
    ensures job == FillDefaults(j)
  {
    job := j;
    if Title !in job { job := job[Title := "Unknown Position"]; }
    if Location !in job { job := job[Location := "Location TBD"]; }
    if Link !in job { job := job[Link := "#"]; }
    if Category !in job { job := job[Category := Categorizer.Categorize(job[Title])]; }
  }

  /** The title clean-up, statement by statement. */
  method CleanTitleStep(j: Job) returns (job: Job)
    requires Title in j
    ensures job == CleanTitle(j)
  {
    job := j;
    if !EmptyString(job[Title]) {
      job := job[Title := SquashTitle(job[Title])];
      var parts := Split(job[Title], MiddleDot);
      if |parts| > 1 {
        job := job[Title := PhpTrim(parts[0])];
        if Empty(job, Location) {
          var place := PhpTrim(parts[1]);
          if Contains(place, "Office") || Contains(place, "Hybrid") {
            job := job[Location := place];
          }
        }
        if Empty(job, Type) && |parts| > 2 {
          job := job[Type := PhpTrim(parts[2])];
        }
      }
    }
  }

  /**
   * comeet_fetch_jobs from the point where the sources have been tried: the
   * chosen postings, each normalised.  The `comeet_fetched_jobs` filter hook
   * is taken to return its argument unchanged.
   */
  method FetchJobs(provider: seq<Job>, scraped: seq<Job>) returns (jobs: seq<Job>)
    ensures jobs != []
    ensures |jobs| == |Source(provider, scraped)|
    ensures forall i :: 0 <= i < |jobs| ==> jobs[i] == NormalizeJob(Source(provider, scraped)[i])
  {
    var chosen := provider;
    if chosen == [] {
      chosen := scraped;
    }
    if chosen == [] {
      chosen := EmergencyFallback;
    }
    var a := new Job[|chosen|](i requires 0 <= i < |chosen| => chosen[i]);
    NormalizeAll(a);
    jobs := a[..];
  }
}
