# Career guidance core, modelled in Dafny

The system is a small web application for career guidance. A candidate
uploads a resume and lists technical and soft skills. The application then:

- pre-fills a personal-information form from the resume text;
- scores every job of a fixed catalog against the skills;
- recommends the five best jobs, lists skill gaps for the three best and
  suggests courses for those gaps;
- links each career to a guidance page.

Everything in `app.py` that decides these results is modelled here. The web
routes, the session and the file decoding around it are not.

Modules, in dependency order:

- `Wrappers` (`wrappers.dfy`): `Option`.
- `Text` (`text.dfy`): the Python string operations the core relies on,
  each defined once and proved:
  - `strip` with Python's white-space set;
  - `lower` on ASCII letters;
  - `split('\n')`, `split()`, `join`, `replace` and the `in` substring
    test.
- `Seqs` (`seqs.dfy`): subsequences, slicing `s[:n]` as `Take`, and no
  duplicates.
- `Skills` (`skills.dfy`):
  - the job catalog `JOB_SKILLS_MAPPING`, kept as an ordered sequence
    because dict order is catalog order;
  - the alias table and `normalize_skill`;
  - `calculate_job_eligibility` and `analyze_skill_gaps`, as methods with
    loops and as the functions that specify them.
- `Ranking` (`ranking.dfy`): Python's stable `sorted(..., reverse=True)` on
  scores, as an insertion sort.
- `CareerReport` (`report.dfy`): the result assembly of `career_analysis`,
  lifted out of the route as a function from the two skill lists and the
  catalog to the report:
  - the top five careers with growth labels;
  - gap entries for the top three;
  - trending suitability;
  - the deduplicated course list.

  The appends and the `seen_courses` loop are methods proved against those
  functions.
- `Scenarios` (`scenarios.dfy`): worked examples on the real catalog, such
  as the report for a candidate with no skills.
- `ResumeParser` (`resume.dfy`): `parse_resume_info`.
  - Its loops with `break` are methods, and the record is filled field by
    field.
  - The email and phone regular expressions are parameters: each is a
    search that gives the first match or nothing.
  - The LinkedIn pattern is modelled character by character.
- `WebFilters` (`webfilters.dfy`): the `escapejs` template filter and
  `allowed_file`.
- `Guidance` (`guidance.dfy`): `get_career_key`.

Scores are exact `real` numbers. A catalog, a result dict or a list is a
Dafny sequence or map. The result dict of `parse_resume_info` is the
`Profile` record. Its `email` field is an `Option`, because the dict has no
`email` key when the text contains no address.

Three behaviours of `app.py` that the model keeps as written:

- The name is looked for in the first five lines as split, empty lines
  included. It is not taken from the first five non-empty lines.
- The matched count counts the entries of the user's normalised list,
  repeats included. It is not the size of a set intersection.
  `Skills.MatchedIsIntersection` shows the two agree when nothing is listed
  twice.
- On empty text the result has no `email` entry at all. It does not have an
  empty one.

## Model

| member | source | states |
|---|---|---|
| Skills.CatalogDistinct | app.py:296-312 | the fifteen catalog titles are pairwise distinct, so the catalog is a faithful ordered form of the dict |
| Skills.AliasTarget | app.py:322-338 | every alias target is lower case, stripped, and not itself an alias key |
| Skills.NormalizeSkill | app.py:314-340 | `normalize_skill`; `Skills.NormalizeCanonical`, `Skills.NormalizeLooksUpAlias` and `Skills.NormalizeIdempotent` state what it returns |
| Skills.NormalizeAll | app.py:347 | the normalised user list, one entry per listed skill in order |
| Skills.Matched | app.py:355 | the `matched_skills` list; `Skills.MatchedFacts` and `Skills.MatchedIsIntersection` state its contents |
| Skills.Score | app.py:349-362 | the score of one job: 0 for an empty requirement, else the capped sum of match percentage and bonus; `Skills.ScoreBounds` and `Skills.ScoreMonotone` bound it |
| Skills.Eligibility | app.py:342-365 | `calculate_job_eligibility` as a function, one score per catalog job; `Skills.CalculateJobEligibility` is proved equal to it |
| Skills.NormalizeCanonical | app.py:314-340 | the result is `''` exactly when the input is empty or blank; it is always lower case, stripped, and never an alias key |
| Skills.NormalizeLooksUpAlias | app.py:319-340 | a trimmed lower-cased alias key maps to its table value; any other input is returned trimmed and lower-cased |
| Skills.NormalizeIdempotent | app.py:314-340 | normalising twice is normalising once |
| Skills.NormalizeFixesCanonical | app.py:314-340 | a canonical skill name that is not an alias is returned unchanged |
| Skills.MatchedFacts | app.py:355 | the matched list is no longer than the user's list, and holds a skill exactly when it is listed and required |
| Skills.MatchedAppend | app.py:355 | matching a concatenated list matches each part in turn |
| Skills.MatchedIsIntersection | app.py:355 | without repeated listings, the matched count is the size of the set intersection of user and job skills |
| Skills.PercentBounds | app.py:356 | `k` of `n` as a percentage lies in [0, 100], and is 100 exactly when `k = n` |
| Skills.PercentMonotone | app.py:356 | a larger count gives a larger percentage of the same total |
| Skills.ScoreBounds | app.py:349-363 | every score lies in [0, 100], even when repeats push the matched count past the number of required skills; a job that requires nothing scores 0 |
| Skills.ScoreMonotone | app.py:355-362 | listing one more skill never lowers a score |
| Skills.CalculateJobEligibility | app.py:342-365 | the loop yields one score per job in catalog order, equal to the specification, each in [0, 100] and 0 for an empty requirement |
| Skills.EmptyListScoresZero | app.py:342-365 | an empty skill list scores 0 for every job |
| Skills.WebDeveloperScore | app.py:298 | `["js", "html", "css"]` against Web Developer scores 50 + 1.5 = 51.5 |
| Skills.Missing | app.py:373 | the `missing_skills` list; `Skills.MissingIsFilter` states its contents |
| Skills.GapFor | app.py:373-377 | the gap report of one job; `Skills.GapBounds` bounds its percentage |
| Skills.SkillGaps | app.py:367-379 | `analyze_skill_gaps` as a map; `Skills.SkillGapsKeys` and `Skills.SkillGapsLookup` state its keys and values |
| Skills.MissingIsFilter | app.py:373 | the missing skills are the subsequence of the required ones that the user lacks, in catalog order, with multiplicities kept |
| Skills.GapBounds | app.py:374-377 | the gap percentage lies in [0, 100], is 0 for an empty requirement, and otherwise is 100 exactly when no required skill is missing |
| Skills.SkillGapsKeys | app.py:370-377 | the gap map has exactly the catalog titles as keys |
| Skills.SkillGapsLookup | app.py:372-377 | a title maps to the gap of its last catalog entry |
| Skills.AnalyzeSkillGaps | app.py:367-379 | the loop builds exactly the specified gap map, keyed by the catalog titles |
| Skills.TitlesMember | app.py:349 | a title is a catalog title exactly when some entry carries it |
| Ranking.Insert | app.py:402 | one insertion step of the stable sort: `x` goes in front of the first entry whose score does not exceed its own |
| Ranking.Rank | app.py:402 | `sorted(..., key=score, reverse=True)`; `Ranking.RankPermutes`, `Ranking.RankSorted` and `Ranking.RankStable` characterise it |
| Ranking.RankPermutes | app.py:402 | the ranking is a permutation of the scores |
| Ranking.RankSorted | app.py:402 | the ranking is sorted by non-increasing score |
| Ranking.RankStable | app.py:402 | jobs of equal score keep their catalog order |
| Ranking.RankHeadIsMax | app.py:402 | the first ranked job has the maximum score and is one of the inputs |
| Ranking.RankEqualScores | app.py:402 | when all scores are equal the ranking is the catalog order |
| CareerReport.Growth | app.py:407-418 | `growth_mapping.get(job, 'Medium')` |
| CareerReport.TopCareers | app.py:405-418 | `recommended_careers`; `CareerReport.TopCareersFacts` states its contents |
| CareerReport.GapEntryOf | app.py:428-432 | one skill-gap entry; `CareerReport.GapEntryShape` states its fields |
| CareerReport.GapEntries | app.py:424-432 | `skill_gaps`; `CareerReport.GapEntriesFacts` states which jobs contribute |
| CareerReport.OfferFor | app.py:453-457 | the Coursera course offered for a skill of the course table |
| CareerReport.CoursesFor | app.py:451-457 | the courses for one job's first two missing skills; `CareerReport.CoursesForFacts` states them |
| CareerReport.CourseCandidates | app.py:448-457 | `recommended_courses` before deduplication; `CareerReport.CandidatesFacts` states them |
| CareerReport.Dedupe | app.py:459-465 | the `seen_courses` deduplication; `CareerReport.DedupeFacts` and `CareerReport.DedupePrefix` state it |
| CareerReport.Trending | app.py:435 | the top score, or 50 without jobs; `CareerReport.ReportHeadline` states it is the best score |
| CareerReport.AllSkills | app.py:392-396 | technical skills, then soft skills, each only when present |
| CareerReport.Assemble | app.py:402-474 | the report from the ranking and the gap map; `CareerReport.AssembleFacts` and `CareerReport.AssembleHeadline` state its shape |
| CareerReport.Analysis | app.py:391-475 | the report of `career_analysis`; `CareerReport.ReportHeadline` states its headline |
| CareerReport.RecommendCareers | app.py:405-418 | the loop builds the specified top-career list |
| CareerReport.TopCareersFacts | app.py:406-418 | at most five careers, the first ones of the ranking with their scores; a title in the growth table gets the table's label, and any other title gets `Medium` |
| CareerReport.SkillGapEntries | app.py:424-432 | the loop builds the specified gap-entry list |
| CareerReport.GapEntriesFacts | app.py:425-432 | each gap entry comes from one of the given jobs with missing skills, and every such job contributes its entry |
| CareerReport.GapEntriesLength | app.py:425-432 | there are no more gap entries than jobs considered |
| CareerReport.GapEntryShape | app.py:428-431 | importance is `High` exactly when the score is below 70, else `Medium`; the level is `None`; the skill text joins at most the first three missing skills |
| CareerReport.GatherCourses | app.py:448-457 | the nested loop builds the specified course candidate list |
| CareerReport.CoursesForFacts | app.py:451-457 | the courses gathered for a skill list are exactly the courses of its skills that have one: each gathered course is offered for a listed skill, and each listed skill with a course yields it |
| CareerReport.CandidatesFacts | app.py:449-457 | the candidate courses are exactly the courses of the first two missing skills of the top jobs: each candidate is offered for such a skill, and each such skill with a course yields it |
| CareerReport.CandidateKept | app.py:459-465 | a candidate course survives deduplication itself, because a course title decides the whole course |
| CareerReport.OffersShape | app.py:438-457 | a course has provider Coursera, duration six weeks and a title from the course table |
| CareerReport.CourseTitlesSnoc | app.py:465 | adding a course adds its title to the set of seen titles |
| CareerReport.DedupeCourses | app.py:459-465 | the `seen_courses` loop computes the specified deduplication |
| CareerReport.DedupeFacts | app.py:459-465 | deduplication keeps a subsequence of the candidates with pairwise distinct titles and loses no title |
| CareerReport.DedupePrefix | app.py:459-465 | deduplicating a prefix gives a prefix of the deduplicated list, so first-seen order is kept |
| CareerReport.CourseListFacts | app.py:448-474 | the course list has at most five courses with distinct titles, each offered for one of the first two missing skills of a top job; every course offered for such a skill is kept by deduplication, and is missing from the report only when it already lists five courses |
| CareerReport.RankedTitlesKnown | app.py:421-426 | every ranked title, and in particular every top-three title, has a gap entry |
| CareerReport.AssembleFacts | app.py:404-474 | at most five careers, at most three gap entries, at most five courses with distinct titles, each course from a missing skill of a top-three job |
| CareerReport.AssembleHeadline | app.py:402-435 | careers are in non-increasing score order; trending is the first career's score, or 50 with an empty report when there are no jobs |
| CareerReport.ReportHeadline | app.py:391-475 | for the route's inputs: as many careers as jobs up to five, and trending is the best eligibility score, or 50 for an empty catalog |
| CareerReport.CareerAnalysis | app.py:391-475 | the route's appends produce the specified report |
| Scenarios.NoSkillsRanking | app.py:399-402 | with no skills every job scores 0 and the ranking is the catalog order |
| Scenarios.NoSkillsGap | app.py:421-426 | with no skills a job's missing list is its whole requirement |
| Scenarios.NoSkillsTopThree | app.py:402-425 | with no skills the top three are the first three catalog jobs with score 0 |
| Scenarios.NoSkillsCandidates | app.py:448-457 | with no skills the course candidates are AWS Cloud Practitioner then Modern JavaScript Development |
| Scenarios.NoSkillsCourses | app.py:448-474 | with no skills the report's course list is AWS Cloud Practitioner then Modern JavaScript Development |
| Scenarios.NoSkillsAssemble | app.py:391-475 | with no skills the report is the assembly of the zero-score ranking |
| Scenarios.FirstThreeEntries | app.py:297-299 | the catalog starts with Cloud Engineer, Web Developer and Network Engineer |
| ResumeParser.FirstHit | app.py:160-164 | the phone search in pattern order; `ResumeParser.FirstHitSpec` states it |
| ResumeParser.LinkedIn | app.py:167-170 | the LinkedIn field; `ResumeParser.LinkedInSpec` states it |
| ResumeParser.NameFrom | app.py:173-179 | the name scan; `ResumeParser.NameFromSpec` and `ResumeParser.NameSpec` state it |
| ResumeParser.CollegeFrom | app.py:185-189 | the college scan; `ResumeParser.CollegeFromSpec` states it |
| ResumeParser.DegreeOf | app.py:195-204 | the degree name of one line; `ResumeParser.DegreeOfSpec` states it |
| ResumeParser.DegreeFrom | app.py:191-205 | the degree scan; `ResumeParser.DegreeFromSpec` states it |
| ResumeParser.ParseResume | app.py:137-207 | `parse_resume_info` as a function; `ResumeParser.ParseResumeInfo` is proved equal to it |
| ResumeParser.FirstHitSpec | app.py:155-164 | the phone is the first pattern's match, trying patterns in order; `''` when none matches |
| ResumeParser.FindPhone | app.py:160-164 | the loop with `break` returns the first hit |
| ResumeParser.UrlRunEnds | app.py:167 | the profile run is a maximal run of `[\w-]` characters |
| ResumeParser.ProfileShape | app.py:167-168 | a match is `linkedin.com/in/` or `linkedin.com/pub/` in any case, then at least one `[\w-]` character, ending where that run ends |
| ResumeParser.LinkedInFromNone | app.py:167-170 | no LinkedIn value exactly when no position starts a match |
| ResumeParser.LinkedInFromSome | app.py:167-170 | a LinkedIn value is `https://` followed by the leftmost match, as written in the text |
| ResumeParser.LinkedInSpec | app.py:167-170 | LinkedIn is `''` exactly when nothing matches, and otherwise `https://` plus the leftmost match |
| ResumeParser.NameFromSpec | app.py:174-179 | the name is the first line that passes the filters, stripped; `''` exactly when no line passes |
| ResumeParser.FindName | app.py:173-179 | the loop over the first five lines returns the specified name |
| ResumeParser.NameSpec | app.py:173-179 | the name comes from the first five raw lines; it is stripped, has two or more words, fewer than 50 characters, no `@`, no ten-digit run and no linkedin/resume/cv in any case |
| ResumeParser.CollegeFromSpec | app.py:185-189 | the college is the first line mentioning an education keyword in any case, stripped; `''` when none does |
| ResumeParser.FindCollege | app.py:185-189 | the loop with `break` returns the specified college |
| ResumeParser.DegreeFromSpec | app.py:191-205 | the first line mentioning a degree keyword alone decides the degree, even when it names none; `''` when no line mentions one |
| ResumeParser.DegreeOfSpec | app.py:195-204 | the degree is one of five names or `''`; Engineering exactly when the line mentions "engineer" and neither "computer" nor "cs" |
| ResumeParser.ContainsPrefix | app.py:197 | a line containing a word contains each prefix of it |
| ResumeParser.MemberStopsDegreeScan | app.py:183-205 | `me` matches inside "Member", so such a line ends the scan and the degree stays `''` whatever follows |
| ResumeParser.FindDegree | app.py:191-205 | the loop with `break` returns the specified degree |
| ResumeParser.ParseResumeInfo | app.py:137-207 | filling the record field by field gives the specified profile |
| ResumeParser.EmptyResume | app.py:137-207 | empty text gives every field `''` and no email |
| WebFilters.EscapeRef | app.py:19-30 | the one-pass escape each character at a time, with `</` escaped; `WebFilters.ChainIsSinglePass` and `WebFilters.UnescapeEscape` relate it to the filter and to its inverse |
| WebFilters.EscapeJsFilter | app.py:19-30 | `None` gives `''`; otherwise the seven replacements in order equal the one-pass escape |
| WebFilters.ReplaceOneChar | app.py:23-28 | replacing a one-character pattern replaces each occurrence of that character |
| WebFilters.CharStagesEscape | app.py:23-28 | the six one-character replacements escape each character independently, because no later stage touches an earlier stage's backslash |
| WebFilters.ClosingTagPass | app.py:29 | the `</` replacement after the character escapes gives the one-pass escape |
| WebFilters.ChainIsSinglePass | app.py:23-29 | the whole replacement chain equals the one-pass escape |
| WebFilters.UnescapeEscape | app.py:19-30 | a JavaScript string literal containing the escaped value reads back as the original value |
| WebFilters.EscapeRefNoControl | app.py:26-28 | the escaped value contains no raw newline, carriage return or tab |
| WebFilters.EscapeRefNoCloseTag | app.py:29 | in the escaped value `<` is never followed by `/` |
| WebFilters.ClosingScriptEscaped | app.py:29 | `a</b` escapes to `a<\/b` |
| WebFilters.Extension | app.py:43 | `rsplit('.', 1)[1]`; `WebFilters.ExtensionSpec` states it |
| WebFilters.AllowedFile | app.py:42-43 | `allowed_file`; `WebFilters.AllowedFileIgnoresCase` and `WebFilters.NoDotRefused` state it |
| WebFilters.ExtensionSpec | app.py:43 | the extension is the dot-free text after the last dot |
| WebFilters.ExtensionLower | app.py:43 | lower-casing a name lower-cases its extension |
| WebFilters.AllowedFileIgnoresCase | app.py:42-43 | a name is accepted exactly when its lower-case form is |
| WebFilters.NoDotRefused | app.py:43 | a name without a dot is refused |
| WebFilters.UpperCaseExtensionAccepted | app.py:40-43 | `cv.PDF` is accepted |
| WebFilters.LastExtensionDecides | app.py:40-43 | `cv.pdf.exe` is refused: only the last extension counts |
| Guidance.CleanTitle | app.py:487 | `input_title.replace('%20', ' ').strip().lower()` |
| Guidance.KeyFor | app.py:489-492 | the scan over the keys; `Guidance.KeyForSpec` states it |
| Guidance.CareerKey | app.py:485-492 | `get_career_key`; `Guidance.CareerKeyMatches` and `Guidance.CareerKeyIsKey` state it |
| Guidance.GetCareerKey | app.py:485-492 | the early-return scan returns the specified key |
| Guidance.KeyForSpec | app.py:489-492 | the result is the first key matching the cleaned title, and `default` when none matches |
| Guidance.KeyForFirst | app.py:489-491 | a matching key with no earlier match is the result |
| Guidance.CareerKeyMatches | app.py:485-492 | a title that matches no key gets `default`; one that matches gets a key whose lower-case form is the cleaned title |
| Guidance.CareerKeyIsKey | app.py:489-492 | every title leads to a key of the guidance table |
| Guidance.KeysShape | openapi.py:34-103 | the guidance keys have no `%`, no surrounding space, and distinct lengths |
| Guidance.KeyRoundTrip | app.py:485-492 | looking up a key gives back that key |
| Guidance.CareerKeyIdempotent | app.py:485-492 | looking up the key a title leads to gives back that key |
| Guidance.EncodedSpace | app.py:487 | `%20` between two words reads as a space |
| Guidance.EncodedTitle | app.py:485-492 | `software%20engineer` leads to `Software Engineer` |
| Text.StripFixesStripped | app.py:319 | `strip` leaves no surrounding white space, fixes stripped text, and is idempotent |
| Text.StripLower | app.py:319 | stripping and lower-casing commute |
| Text.SplitOn | app.py:173 | `split('\n')` gives at least one piece and no piece contains a newline |
| Text.JoinSplitOn | app.py:173 | joining the pieces of a split with the separator gives back the text |
| Text.SplitWords | app.py:177 | `split()` gives non-empty words free of white space, and none for empty text |
| Text.SplitWordsLayout | app.py:177 | the text is its `split()` words in order, with white space before, between and after them and at least one white-space character between two words |
| Text.LayoutIsSplit | app.py:177 | any such layout of a text has exactly the `split()` words, so the two lemmas characterise `split()` completely |
| Text.Strip | app.py:319 | `strip()`: removes leading and trailing white space; its properties are `Text.StripFixesStripped` and `Text.StripLower` |
| Text.Lower | app.py:319 | `lower()` on ASCII letters; `Text.StripLower` relates it to `strip` |
| Text.Replace | app.py:487 | `replace` of a non-empty pattern, left to right without overlap; `WebFilters.ChainIsSinglePass` and `Guidance.EncodedSpace` rest on it |

## Left out

- The Flask routes, the session, `flash`, redirects, templates and `jsonify` are request and response plumbing.
- `extract_text_from_file` decodes PDF, Word and image files through external libraries. The parser starts from the extracted text.
- The `analysis_store` write and the `uuid4` analysis id are process state and randomness, so they are not modelled.
- `round(score, 1)` and `round(trending)` on binary floats are left out: scores are exact reals. The report holds the unrounded values.
- The report's `user_skills` echo is not modelled: it copies the session dict unchanged.
- The email and phone regular expressions are left out. Each is a search parameter that returns its first match or nothing.
- `lower()` is modelled on ASCII letters only, and `\d`, `\w` and `re.IGNORECASE` on ASCII only. Python applies them to all of Unicode.
- `str(s)` in `escapejs_filter` is not modelled: the filter takes an optional string. The `Markup` wrapper only marks the value as safe and does not change its text.
- `openapi.py` is not part of this model, except the four keys of its guidance table. It is an LLM client and a table lookup.
- `forms.py`, the JavaScript files, `install_dependencies.py` and `test_resume_parser.py` are not part of this model. They hold form declarations, page scripts, installer calls and a printing script.
- The `career_analysis` route reads the skills from the session. The model takes the technical and soft lists as optional inputs instead.
