# Comeet job slider: a verified model of its core

This project models the core of a WordPress plugin that shows a company's Comeet job openings as a filterable carousel. That core has two halves.

The PHP half is `comeet-slider-helper.php`. It:

- decides a job's category from its title (`comeet_categorize_job`);
- chooses where the job list comes from, falling back to a fixed emergency list, and normalises every job's fields and title;
- post-processes each job element found by the HTML parser: it splits a trailing location off the title, rejects metadata lines, and appends the element only when its title is long enough;
- renders the "fresh" listing: it groups jobs by category, keeps the groups with at least 3 jobs (at most 5 of them), then prints a heading, filter buttons and one card per job;
- renders the "ultra" listing the same way with 2 and 6, after it strips a "/ Hybrid (In Israel)" suffix from the titles in place.

The JavaScript half is `assets/comeet-slider.js`. It:

- decides whether an anchor has a usable link;
- normalises the slide title;
- classifies each job by keyword;
- caps the carousel at 18 slides;
- wires the filter buttons only when there are at least two categories;
- shows and hides slides when a filter button is clicked.

## Modules

- `Wrappers`: `Option`.
- `Text`: the string primitives of both languages. These are ASCII `strtolower`, PCRE `\s`, PHP `trim`, JavaScript `trim`, the `\s+` → `' '` squash, the `\s{2,}` → `' '` collapse, and `explode`.
- `Seqs`: order-keeping `Distinct` (first appearance), `Filter` and `Take`.
- `Jobs`: a job is a map from `Field` to string, and the module gives PHP `empty()` on its entries.
- `Categorizer`, `Fetch`, `Parser` and `Render`: the PHP half.
- `Slider` and `Filters`: the JavaScript half.

A `Filters.FilterBar` object holds the button classes and slide visibility as arrays, and its `Click` method updates them in place. The in-place `foreach (... as &$job)` loops become methods over `array<Job>`.

Two consequences of the code are easy to miss:

- Matching is by raw substring, so the `ai` alternative at comeet-slider-helper.php:75 matches inside "mailroom", and "Mailroom Clerk" is categorised Data & Analytics (`Categorizer.MailroomClerkIsDataAndAnalytics`).
- A job whose category group is below the threshold gets no filter button. Its card still carries its own category (:664-675, `Render.PrintCards`), not "Other".

## Model

| member | source | states |
|---|---|---|
| Categorizer.FirstTableMatchWins | comeet-slider-helper.php:49-60 | if category k of the table is the first whose term occurs (case-insensitively) in the title, the result is k's name, whatever later categories or patterns match |
| Categorizer.FirstMatchSpec | comeet-slider-helper.php:54-60 | the table scan finds nothing iff no category matches; otherwise it finds a matching category with no matching category before it |
| Categorizer.SecondaryOnlyWhenNoTableMatch | comeet-slider-helper.php:49-79 | a title with a table term is never "Other". Without one, it is Engineering iff one of the three stack patterns matches, Data & Analytics iff only the data/ML pattern does, and "Other" iff no pattern matches |
| Categorizer.CategorizeLabels | comeet-slider-helper.php:14-80 | every title is categorised as one of the five table names or "Other" |
| Categorizer.SeniorBackendEngineerIsEngineering | comeet-slider-helper.php:49-60 | "Senior Backend Engineer" is Engineering |
| Categorizer.DataAnalystIsDataAndAnalytics | comeet-slider-helper.php:49-60 | "Data Analyst" is Data & Analytics |
| Categorizer.ProductDataEngineerIsEngineering | comeet-slider-helper.php:49-60 | table order decides: "Product Data Engineer" is Engineering though it also holds Product and Data terms |
| Categorizer.MailroomClerkIsDataAndAnalytics | comeet-slider-helper.php:62-79 | "Mailroom Clerk" matches no table term but contains "ai", so the fourth pattern makes it Data & Analytics |
| Fetch.Source | comeet-slider-helper.php:176-193 | the job source is never empty. It is the provider list when non-empty, else the scraped list when non-empty, else the five-job emergency list |
| Fetch.FetchJobs | comeet-slider-helper.php:176-222 | returns the chosen source with every job normalised, in order, and never empty |
| Fetch.FillDefaultsSpec | comeet-slider-helper.php:198-201 | the keys gain exactly title, location, link and category; present fields are unchanged; the defaults are "Unknown Position", "Location TBD", "#" and the categorised title |
| Fetch.NormalizeJobFields | comeet-slider-helper.php:196-221 | after normalisation the required keys are present and only `type` may be added. Fields other than title, location and type are unchanged, and a non-empty location or type is never overwritten. When the title is empty or has no '·', the location and type are left exactly as they were |
| Fetch.NormalizeJobUntouched | comeet-slider-helper.php:204-219 | with an empty title or a single segment, the location, and the type (present or absent), are unchanged |
| Text.CollapseSpacesSplit | comeet-slider-helper.php:205 | `\s+` → `' '` at each run: around a maximal whitespace run the text collapses piecewise and the run, whatever its length, becomes one space |
| Fetch.NormalizeJobTitle | comeet-slider-helper.php:203-210 | an empty title is left alone. Otherwise the title becomes the trimmed first '·' segment of the squashed, trimmed title; it holds no '·' and no whitespace runs, and has no surrounding whitespace |
| Fetch.NormalizeJobSegments | comeet-slider-helper.php:211-219 | with two or more segments, an empty location takes the second segment only when that segment contains "Office" or "Hybrid". An empty type takes the third segment when there is one; with exactly two segments the type is left exactly as it was |
| Fetch.NormalizeJobIdempotent | comeet-slider-helper.php:196-221 | normalising a normalised job changes nothing |
| Fetch.NormalizeAll | comeet-slider-helper.php:196-222 | the in-place loop leaves every array element equal to the normalisation of its old value |
| Parser.LocationMatchSound | comeet-slider-helper.php:340 | a match found by the model is a match of `(.*?)\s+(Jerusalem Office\|Tel Aviv Office\|Hybrid\|Remote)\s*$` under /i, with `.` excluding newlines |
| Parser.LocationMatchLeftmost | comeet-slider-helper.php:340 | whenever the pattern matches, the model finds a match with the same token, the earliest start and the shortest lazy group |
| Parser.StripLocationSpec | comeet-slider-helper.php:340-345 | with no match, the title is kept and the location becomes "Jerusalem Office". With a match, the title is the trimmed group 1 and the location is the matched token as written in the title (its own casing), which equals the pattern's token up to ASCII case |
| Parser.IsMetadataSpec | comeet-slider-helper.php:354 | the metadata test holds iff the title starts with a location token followed, on the same line, by an employment type and then a seniority level (case-insensitive) |
| Parser.PostProcessSpec | comeet-slider-helper.php:285-361 | an element yields a job iff its title is non-empty and the stripped title is longer than 3 and not metadata. The job holds exactly five fields: the stripped title, the location, the link, type "Full-time", and the category (a non-empty `data-category`, else the categorised stripped title) |
| Parser.PostProcessAccepted | comeet-slider-helper.php:352-357 | every emitted job has a title longer than 3 characters that is not a metadata line |
| Parser.ParseElements | comeet-slider-helper.php:284-363 | the loop appends, in element order, exactly the jobs the elements yield |
| Parser.ParsedSpec | comeet-slider-helper.php:284-363 | the parser emits at most one job per element, and each job comes from some element |
| Parser.MetadataLineDropped | comeet-slider-helper.php:340-360 | "Tel Aviv Office Full-time Senior" yields no job |
| Parser.TrailingOfficeSplit | comeet-slider-helper.php:340-357 | "Backend Developer Tel Aviv Office" yields one job titled "Backend Developer" at "Tel Aviv Office" |
| Render.GroupByCategory | comeet-slider-helper.php:494-501 | the group names are the distinct categories (missing → "Other") in first-appearance order. Each group holds exactly the jobs of its category, in input order |
| Render.JobsInSpec | comeet-slider-helper.php:494-501 | a job is in group c iff it is in the input with category c; the group is non-empty iff c occurs |
| Render.SelectionSpec | comeet-slider-helper.php:503-507 | at most `cap` groups are chosen, without duplicates, each with at least `min` jobs. If a group that qualifies is left out, the cap was reached |
| Render.SelectionOrder | comeet-slider-helper.php:503-507 | chosen groups keep their first-appearance order |
| Render.SelectionFirst | comeet-slider-helper.php:507 | a qualifying group left out by the cap first appears after every chosen group |
| Render.RenderPage | comeet-slider-helper.php:643-675 | the page shows the total in the heading and has one card per job in order. It has no buttons when no group is chosen; otherwise it has "all" with the total, then one button per chosen group with that group's size |
| Render.FilterButtons | comeet-slider-helper.php:646-660 | no buttons for no chosen group; otherwise "all" first and then one button per chosen group, counting its jobs |
| Render.PrintCards | comeet-slider-helper.php:664-675 | one card per job in order, with its category (or "Other"), title, link, and location only when non-empty |
| Render.FreshListing | comeet-slider-helper.php:465-507 | the fresh listing renders the given jobs, or the three test jobs when there are none (a branch the fetched list never reaches, see "Left out"), with a minimum of 3 and at most 5 groups |
| Render.TestJobsPage | comeet-slider-helper.php:465-491 | the three test jobs give heading 3, three cards and no filter buttons: each category has one job |
| Render.UltraListing | comeet-slider-helper.php:1057-1075 | the ultra listing strips the Hybrid suffix of every title in place, then renders the result with a minimum of 2 and at most 6 groups |
| Render.FindHybridSuffixSound | comeet-slider-helper.php:1059 | a suffix found by the model is a match of `(.*?)\s*\/\s*Hybrid\s*\(In Israel\)$` under /i |
| Render.FindHybridSuffixLeftmost | comeet-slider-helper.php:1059 | whenever the pattern matches, the model finds it, with the earliest start and the shortest lazy group |
| Render.WithoutHybridSuffixSpec | comeet-slider-helper.php:1058-1061 | only the title may change. A title without the suffix is kept; a title with it becomes the trimmed group 1 |
| Render.StripHybridSuffixes | comeet-slider-helper.php:1058-1062 | the in-place loop replaces each element by its suffix-stripped value |
| Slider.FirstTruthySpec | assets/comeet-slider.js:25 | the `\|\|` chain gives "" iff no attribute is present and non-empty; otherwise it gives the first such attribute |
| Slider.HasGoodHrefRejects | assets/comeet-slider.js:23-28 | a missing anchor, an anchor with no non-empty link attribute, or a link that is all whitespace has no good href |
| Slider.HasGoodHrefExamples | assets/comeet-slider.js:23-28 | "/careers/1" is a good link. An empty `href` falls through to `data-url` "#", which is refused even though `data-href` is good |
| Slider.SlideTitleSpec | assets/comeet-slider.js:224 | the slide title has no run of two whitespace characters and no surrounding whitespace, and keeps every non-whitespace character in order |
| Text.CollapseRunsSplit | assets/comeet-slider.js:224 | `\s{2,}` → `' '` at each run: around a maximal whitespace run the text is rewritten piecewise; a run of two or more becomes one space and a single whitespace character stays |
| Slider.SlideTitleSplit | assets/comeet-slider.js:224 | inside the title, a whitespace run of two or more becomes one space, a lone tab or newline is kept, and the text on either side is tidied on its own |
| Slider.SlideTitleLeading | assets/comeet-slider.js:224 | whitespace before the first visible character is dropped, whatever its length |
| Slider.SlideTitleTrailing | assets/comeet-slider.js:224 | whitespace after the last visible character is dropped, whatever its length |
| Slider.SlideTitleOfWord | assets/comeet-slider.js:224 | text without whitespace is kept as it is; with the three lemmas above this fixes the title of every text, run by run |
| Slider.SlideTitleIdempotent | assets/comeet-slider.js:224 | normalising a slide title twice gives the same title |
| Slider.LoneTabKept | assets/comeet-slider.js:224 | a single tab between words is not rewritten: only runs of two or more become a space |
| Slider.ClassifyFirstRule | assets/comeet-slider.js:269-277 | the first keyword rule that fires decides the class; if none fires, the class is "Other" |
| Slider.ClassifyLabels | assets/comeet-slider.js:269-277 | every class is Engineering, Analysis, Senior, Mid-Level or Other, and it is Other iff no rule fires |
| Slider.SlideCategory | assets/comeet-slider.js:290-296 | the else-if chain tagging a slide computes the same class as the filter-category map |
| Slider.FilterCategoriesSpec | assets/comeet-slider.js:269-277 | the filter categories are distinct and never "Other", and are exactly the non-Other classes of the capped items |
| Slider.FilterCategoriesOrder | assets/comeet-slider.js:269-277 | filter categories keep the order of their first appearance |
| Slider.InitSlider | assets/comeet-slider.js:254-342 | no carousel iff there are no items. Otherwise the slides come from the first 18 items in order. There are filter buttons ("all" then the categories) iff there are at least two categories, and their handlers are wired iff, in addition, Swiper is loaded (the early return at :322) |
| Slider.BuildSlides | assets/comeet-slider.js:287-299 | one slide per item in order, each with its title, link and class |
| Slider.FiltersMatchSlides | assets/comeet-slider.js:269-296 | every filter category is carried by some slide, and every slide not classed Other has a filter category |
| Filters.CountShownSpec | assets/comeet-slider.js:61-71 | at most every slide is counted, "all" counts every slide, and the count is zero iff no slide is shown |
| Filters.FilterBar.constructor | assets/comeet-slider.js:88-90 | as built, only the first ("all") button is active and every slide is shown |
| Filters.FilterBar.Click | assets/comeet-slider.js:98-111 | after a click exactly the clicked button is active. A slide is displayed iff the filter is "all" or equals its category, and the result counts the displayed slides |
| Filters.ButtonNeverEmpties | assets/comeet-slider.js:85-111 | on a built carousel, no filter button leaves it empty |

## Left out

- Job sources. Probing the Comeet plugin's classes and functions, the HTTP scrape and the DOM/XPath walk are outside the model. They appear only as their results: the provider and scraped lists, and one `Element` per job element with its title, `data-category` and link.
- WordPress itself is outside the model: shortcode registration, hooks, `esc_html`/`esc_attr`/`esc_url`, the inline CSS and scripts, the debug shortcodes and `error_log`. `apply_filters('comeet_job_categories', …)` is taken to return the default table unchanged.
- Page output. The pages are modelled as their heading count, buttons and cards. Markup, icons, colours and Hebrew labels are left out, and a missing title or link prints as "".
- Render.UltraListing: the ultra shortcode's own fallback data and its location rewriting (comeet-slider-helper.php:1020-1053) come before the modelled part and are not modelled. The listing starts from the job array.
- Parser.StripLocationSpec: the location is the matched token as written. That token never has surrounding whitespace, so the `trim` of group 2 is omitted.
- Text: case-insensitivity is ASCII only, as PHP's `strtolower` and PCRE's /i without /u. The middle dot '·' is one character, although PHP explodes on its two UTF-8 bytes. `strlen` is the character count.
- Slider: `absoluteUrl` and URL resolution are not modelled, so a slide keeps the raw link. Swiper, its options, `triggerSequence`, the mutation observer and boot timers are also left out.
- Slider.InitSlider: `ENABLE_FILTERS` is the constant `true` in the source and is modelled as always on.
- Filters.CountShownSpec: the counting handler (setupComeetFilters) is reached only from `initComeetShortcode`, which returns at assets/comeet-slider.js:370 before calling it, so in the code as it stands it never runs. The handler wired by the carousel (:95-111) does not count.
- Filters: the Swiper refresh after a click is left out. The display values `''` and `'block'` are both modelled as "shown".
- Jobs: a job is a map from field to string. The provider's jobs may carry `null` or non-string values; a `null` field is modelled as an absent key, which is how PHP's `isset` and `empty` treat it, and non-string values are not modelled.
- Category names that PHP would turn into integer array keys (such as "42") are treated as strings.
- Render.FreshListing: the test-data branch (comeet-slider-helper.php:465-491) is modelled, but the fresh renderer takes its jobs from `comeet_fetch_jobs` (:460), which never returns an empty list (`Fetch.Source`), so that branch and `Render.TestJobsPage` describe code that does not run.
