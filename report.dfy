/** The career-analysis report: the assembly step of the `career_analysis`
    route (app.py), lifted out of the request handler as an operation from
    the user's skill lists and the job catalog to the report. */
module CareerReport {
  import opened Wrappers
  import opened Text
  import opened Seqs
  import opened Skills
  import opened Ranking

  /** One recommended career: title, score and market growth label. */
  datatype Career = Career(title: string, score: real, growth: string)

  /** One skill-gap entry of the report. */
  datatype GapEntry = GapEntry(skill: string, importance: string, currentLevel: string)

  /** One recommended course. */
  datatype Course = Course(title: string, provider: string, duration: string)

  /** The report: recommended careers, skill-gap entries, the trending-jobs
      suitability and the recommended courses. */
  datatype Report = Report(
    careers: seq<Career>,
    skillGaps: seq<GapEntry>,
    trending: real,
    courses: seq<Course>)

  /** The growth labels of the jobs whose growth is above average. */
  const GrowthMapping: map<string, string> := map[
    "AI Engineer" := "Very High",
    "Data Scientist" := "Very High",
    "Cloud Engineer" := "High",
    "Cybersecurity Analyst" := "High",
    "DevOps Engineer" := "High"
  ]

  /** `growth_mapping.get(job, 'Medium')`. */
  function Growth(title: string): string {
    if title in GrowthMapping then GrowthMapping[title] else "Medium"
  }

  /** The course offered for a missing skill, by skill. */
  const CourseMapping: map<string, string> := map[
    "machine learning" := "Machine Learning Fundamentals",
    "cloud computing" := "AWS Cloud Practitioner",
    "python" := "Python for Data Science",
    "javascript" := "Modern JavaScript Development",
    "cybersecurity" := "Cybersecurity Fundamentals",
    "data analysis" := "Data Analysis with Python",
    "project management" := "PMP Certification"
  ]

  // ---------------------------------------------------------------------
  // Recommended careers

  function CareerOf(s: Scored): Career {
    Career(s.title, s.score, Growth(s.title))
  }

  /** `recommended_careers`: the first five ranked jobs, each with its
      growth label. */
  function TopCareers(ranked: seq<Scored>): seq<Career>
  {
    var top := Take(ranked, 5);
    seq(|top|, i requires 0 <= i < |top| => CareerOf(top[i]))
  }

  method RecommendCareers(ranked: seq<Scored>) returns (careers: seq<Career>)
    ensures careers == TopCareers(ranked)
  {
    var top := Take(ranked, 5);
    careers := [];
    for i := 0 to |top|
      invariant |careers| == i
      invariant forall k :: 0 <= k < i ==> careers[k] == CareerOf(top[k])
    {
      var job := top[i];
      careers := careers + [Career(job.title, job.score, Growth(job.title))];
    }
  }

  /** At most five careers, taken in ranking order; a job the growth table
      lists gets the table's label, and a job it does not list is labelled
      "Medium", a label the table gives to none of its jobs. */
  lemma TopCareersFacts(ranked: seq<Scored>)
    ensures |TopCareers(ranked)| == if |ranked| < 5 then |ranked| else 5
    ensures forall i :: 0 <= i < |TopCareers(ranked)| ==>
      && TopCareers(ranked)[i].title == ranked[i].title
      && TopCareers(ranked)[i].score == ranked[i].score
      && (ranked[i].title in GrowthMapping ==> TopCareers(ranked)[i].growth == GrowthMapping[ranked[i].title])
      && (TopCareers(ranked)[i].growth == "Medium" <==> ranked[i].title !in GrowthMapping)
  {
    assert "Very High" != "Medium" && "High" != "Medium";
  }

  // ---------------------------------------------------------------------
  // Skill-gap entries

  /** Every title of `top` has a gap report. */
  predicate Known(top: seq<Scored>, gaps: map<string, Gap>) {
    forall k :: 0 <= k < |top| ==> top[k].title in gaps
  }

  /** The entry for a job with a non-empty gap: its first three missing
      skills joined by ", ", importance by score, current level "None". */
  function GapEntryOf(gap: Gap, score: real): GapEntry {
    GapEntry(Join(", ", Take(gap.missing, 3)), if score < 70.0 then "High" else "Medium", "None")
  }

  /** `skill_gaps`: one entry per job of `top` that misses some skill, in
      ranking order. */
  function GapEntries(top: seq<Scored>, gaps: map<string, Gap>): seq<GapEntry>
    requires Known(top, gaps)
    decreases |top|
  {
    if top == [] then []
    else
      var job := top[|top| - 1];
      var gap := gaps[job.title];
      GapEntries(top[..|top| - 1], gaps)
        + (if gap.missing != [] then [GapEntryOf(gap, job.score)] else [])
  }

  method SkillGapEntries(top: seq<Scored>, gaps: map<string, Gap>) returns (entries: seq<GapEntry>)
    requires Known(top, gaps)
    ensures entries == GapEntries(top, gaps)
  {
    entries := [];
    for i := 0 to |top|
      invariant entries == GapEntries(top[..i], gaps)
    {
      var job := top[i];
      var gap := gaps[job.title];
      if gap.missing != [] {
        var importance := if job.score < 70.0 then "High" else "Medium";
        entries := entries + [GapEntry(Join(", ", Take(gap.missing, 3)), importance, "None")];
      }
      assert top[..i + 1][..i] == top[..i];
    }
    assert top[..|top|] == top;
  }

  /** The entries are exactly those of the jobs of `top` with a non-empty
      gap: no more entries than jobs, each built from one such job, and
      every such job contributing its entry. Each entry is "High" exactly
      when the job scores below 70, and its current level is "None". */
  lemma {:induction false} GapEntriesFacts(top: seq<Scored>, gaps: map<string, Gap>)
    requires Known(top, gaps)
    ensures forall e :: e in GapEntries(top, gaps) ==>
      exists k :: 0 <= k < |top| && gaps[top[k].title].missing != []
        && e == GapEntryOf(gaps[top[k].title], top[k].score)
    ensures forall k :: 0 <= k < |top| && gaps[top[k].title].missing != [] ==>
      GapEntryOf(gaps[top[k].title], top[k].score) in GapEntries(top, gaps)
    decreases |top|
  {
    if top != [] {
      var init := top[..|top| - 1];
      GapEntriesFacts(init, gaps);
      forall e | e in GapEntries(top, gaps)
        ensures exists k :: (0 <= k < |top| && gaps[top[k].title].missing != []
                              && e == GapEntryOf(gaps[top[k].title], top[k].score))
      {
        if e in GapEntries(init, gaps) {
          var k :| 0 <= k < |init| && gaps[init[k].title].missing != []
            && e == GapEntryOf(gaps[init[k].title], init[k].score);
          assert top[k] == init[k];
        } else {
          assert top[|top| - 1] == top[|top| - 1];
        }
      }
      forall k | 0 <= k < |top| && gaps[top[k].title].missing != []
        ensures GapEntryOf(gaps[top[k].title], top[k].score) in GapEntries(top, gaps)
      {
        if k < |top| - 1 {
          assert init[k] == top[k];
        }
      }
    }
  }

  /** One entry per job at most. */
  lemma {:induction false} GapEntriesLength(top: seq<Scored>, gaps: map<string, Gap>)
    requires Known(top, gaps)
    ensures |GapEntries(top, gaps)| <= |top|
    decreases |top|
  {
    if top != [] {
      GapEntriesLength(top[..|top| - 1], gaps);
    }
  }

  /** The shape of one entry: "High" exactly below a score of 70, else
      "Medium"; current level always "None"; at most three skills named. */
  lemma GapEntryShape(gap: Gap, score: real)
    ensures GapEntryOf(gap, score).importance == "High" <==> score < 70.0
    ensures GapEntryOf(gap, score).importance in {"High", "Medium"}
    ensures GapEntryOf(gap, score).currentLevel == "None"
    ensures GapEntryOf(gap, score).skill == Join(", ", Take(gap.missing, 3))
    ensures |Take(gap.missing, 3)| <= 3
  {
    assert "High" != "Medium";
  }

  // ---------------------------------------------------------------------
  // Recommended courses

  /** The Coursera course offered for a skill that has one. */
  function OfferFor(skill: string): Course
    requires skill in CourseMapping
  {
    Course(CourseMapping[skill], "Coursera", "6 weeks")
  }

  /** `skill` has a course, and `c` is the course offered for it. */
  predicate Offers(c: Course, skill: string) {
    skill in CourseMapping && c == OfferFor(skill)
  }

  /** The courses offered for a list of missing skills, in list order. */
  function CoursesFor(skills: seq<string>): seq<Course>
    decreases |skills|
  {
    if skills == [] then []
    else
      var skill := skills[|skills| - 1];
      CoursesFor(skills[..|skills| - 1])
        + (if skill in CourseMapping then [OfferFor(skill)] else [])
  }

  /** `recommended_courses` before de-duplication: for each job of `top`,
      the courses for its first two missing skills. */
  function CourseCandidates(top: seq<Scored>, gaps: map<string, Gap>): seq<Course>
    requires Known(top, gaps)
    decreases |top|
  {
    if top == [] then []
    else
      CourseCandidates(top[..|top| - 1], gaps)
        + CoursesFor(Take(gaps[top[|top| - 1].title].missing, 2))
  }

  method GatherCourses(top: seq<Scored>, gaps: map<string, Gap>) returns (courses: seq<Course>)
    requires Known(top, gaps)
    ensures courses == CourseCandidates(top, gaps)
  {
    courses := [];
    for i := 0 to |top|
      invariant courses == CourseCandidates(top[..i], gaps)
    {
      var missing := Take(gaps[top[i].title].missing, 2);
      ghost var before := courses;
      for j := 0 to |missing|
        invariant courses == before + CoursesFor(missing[..j])
      {
        var skill := missing[j];
        if skill in CourseMapping {
          courses := courses + [Course(CourseMapping[skill], "Coursera", "6 weeks")];
        }
        assert missing[..j + 1][..j] == missing[..j];
      }
      assert missing[..|missing|] == missing;
      assert top[..i + 1][..i] == top[..i];
    }
    assert top[..|top|] == top;
  }

  /** The courses gathered for a skill list are exactly the courses of
      those of its skills that have one. */
  lemma {:induction false} CoursesForFacts(skills: seq<string>)
    ensures forall c :: c in CoursesFor(skills) ==> exists s :: s in skills && Offers(c, s)
    ensures forall s :: s in skills && s in CourseMapping ==> OfferFor(s) in CoursesFor(skills)
    decreases |skills|
  {
    if skills != [] {
      var init := skills[..|skills| - 1];
      var last := skills[|skills| - 1];
      CoursesForFacts(init);
      assert skills == init + [last];
      forall c | c in CoursesFor(skills)
        ensures exists s :: s in skills && Offers(c, s)
      {
        if c in CoursesFor(init) {
          var s :| s in init && Offers(c, s);
          assert s in skills;
        } else {
          assert Offers(c, last);
        }
      }
      forall s | s in skills && s in CourseMapping
        ensures OfferFor(s) in CoursesFor(skills)
      {
        if s in init {
          assert OfferFor(s) in CoursesFor(init);
        } else {
          assert s == last;
        }
      }
    }
  }

  /** The candidate courses are exactly the courses of the first two
      missing skills of the jobs of `top`, for the skills that have one. */
  lemma CandidatesFacts(top: seq<Scored>, gaps: map<string, Gap>)
    requires Known(top, gaps)
    ensures forall c :: c in CourseCandidates(top, gaps) ==>
      exists k :: 0 <= k < |top| && exists s :: s in Take(gaps[top[k].title].missing, 2) && Offers(c, s)
    ensures forall k, s :: 0 <= k < |top| && s in Take(gaps[top[k].title].missing, 2) && s in CourseMapping ==>
      OfferFor(s) in CourseCandidates(top, gaps)
  {
    CandidatesSound(top, gaps);
    CandidatesComplete(top, gaps);
  }

  lemma {:induction false} CandidatesSound(top: seq<Scored>, gaps: map<string, Gap>)
    requires Known(top, gaps)
    ensures forall c :: c in CourseCandidates(top, gaps) ==>
      exists k :: 0 <= k < |top| && exists s :: s in Take(gaps[top[k].title].missing, 2) && Offers(c, s)
    decreases |top|
  {
    if top != [] {
      var init := top[..|top| - 1];
      var last := |top| - 1;
      CandidatesSound(init, gaps);
      CoursesForFacts(Take(gaps[top[last].title].missing, 2));
      forall c | c in CourseCandidates(top, gaps)
        ensures exists k :: 0 <= k < |top| && exists s :: s in Take(gaps[top[k].title].missing, 2) && Offers(c, s)
      {
        if c in CourseCandidates(init, gaps) {
          var k :| 0 <= k < |init| && exists s :: s in Take(gaps[init[k].title].missing, 2) && Offers(c, s);
          assert top[k] == init[k];
        } else {
          var s :| s in Take(gaps[top[last].title].missing, 2) && Offers(c, s);
        }
      }
    }
  }

  lemma {:induction false} CandidatesComplete(top: seq<Scored>, gaps: map<string, Gap>)
    requires Known(top, gaps)
    ensures forall k, s :: 0 <= k < |top| && s in Take(gaps[top[k].title].missing, 2) && s in CourseMapping ==>
      OfferFor(s) in CourseCandidates(top, gaps)
    decreases |top|
  {
    if top != [] {
      var init := top[..|top| - 1];
      var last := |top| - 1;
      CandidatesComplete(init, gaps);
      CoursesForFacts(Take(gaps[top[last].title].missing, 2));
      forall k, s | 0 <= k < |top| && s in Take(gaps[top[k].title].missing, 2) && s in CourseMapping
        ensures OfferFor(s) in CourseCandidates(top, gaps)
      {
        if k < last {
          assert top[k] == init[k];
          assert OfferFor(s) in CourseCandidates(init, gaps);
        }
      }
    }
  }

  /** The titles of a course list. */
  function CourseTitles(cs: seq<Course>): set<string> {
    set c | c in cs :: c.title
  }

  lemma CourseTitlesSnoc(cs: seq<Course>, c: Course)
    ensures CourseTitles(cs + [c]) == CourseTitles(cs) + {c.title}
  {
    forall t | t in CourseTitles(cs)
      ensures t in CourseTitles(cs + [c])
    {
      var d :| d in cs && d.title == t;
      assert d in cs + [c];
    }
    assert c in cs + [c];
  }

  /** De-duplication by title through a set of titles seen: a course is
      kept when no earlier course had its title. */
  function Dedupe(cs: seq<Course>): seq<Course>
    decreases |cs|
  {
    if cs == [] then []
    else
      var kept := Dedupe(cs[..|cs| - 1]);
      var c := cs[|cs| - 1];
      if c.title in CourseTitles(kept) then kept else kept + [c]
  }

  method DedupeCourses(cs: seq<Course>) returns (unique: seq<Course>)
    ensures unique == Dedupe(cs)
  {
    var seen: set<string> := {};
    unique := [];
    for i := 0 to |cs|
      invariant unique == Dedupe(cs[..i])
      invariant seen == CourseTitles(unique)
    {
      var course := cs[i];
      assert cs[..i + 1][..i] == cs[..i];
      if course.title !in seen {
        unique := unique + [course];
        seen := seen + {course.title};
      }
    }
    assert cs[..|cs|] == cs;
  }

  /** No two courses share a title. */
  predicate DistinctCourseTitles(cs: seq<Course>) {
    forall i, j :: 0 <= i < j < |cs| ==> cs[i].title != cs[j].title
  }

  /** De-duplication keeps a subsequence of the courses, with no repeated
      title and every title that occurs. */
  lemma DedupeFacts(cs: seq<Course>)
    ensures IsSubsequence(Dedupe(cs), cs)
    ensures DistinctCourseTitles(Dedupe(cs))
    ensures CourseTitles(Dedupe(cs)) == CourseTitles(cs)
  {
    DedupeSubsequence(cs);
    DedupeDistinct(cs);
    DedupeTitles(cs);
  }

  lemma {:induction false} DedupeSubsequence(cs: seq<Course>)
    ensures IsSubsequence(Dedupe(cs), cs)
    decreases |cs|
  {
    if cs != [] {
      var init := cs[..|cs| - 1];
      var c := cs[|cs| - 1];
      var kept := Dedupe(init);
      DedupeSubsequence(init);
      assert cs == init + [c];
      if c.title in CourseTitles(kept) {
        SubsequenceExtend(kept, init, c);
      } else {
        SubsequenceSnoc(kept, init, c);
      }
    }
  }

  lemma {:induction false} DedupeTitles(cs: seq<Course>)
    ensures CourseTitles(Dedupe(cs)) == CourseTitles(cs)
    decreases |cs|
  {
    if cs != [] {
      var init := cs[..|cs| - 1];
      var c := cs[|cs| - 1];
      var kept := Dedupe(init);
      DedupeTitles(init);
      assert cs == init + [c];
      CourseTitlesSnoc(init, c);
      CourseTitlesSnoc(kept, c);
    }
  }

  lemma {:induction false} DedupeDistinct(cs: seq<Course>)
    ensures DistinctCourseTitles(Dedupe(cs))
    decreases |cs|
  {
    if cs != [] {
      var init := cs[..|cs| - 1];
      var c := cs[|cs| - 1];
      var kept := Dedupe(init);
      DedupeDistinct(init);
      if c.title !in CourseTitles(kept) {
        var r := kept + [c];
        assert Dedupe(cs) == r;
        forall i, j | 0 <= i < j < |r|
          ensures r[i].title != r[j].title
        {
          if j == |kept| {
            assert kept[i] in kept;
          } else {
            assert r[i] == kept[i] && r[j] == kept[j];
          }
        }
      }
    }
  }

  /** First-seen order: de-duplicating a prefix of the course list gives a
      prefix of the result, so the kept courses appear in the order in which
      their titles were first seen. */
  lemma {:induction false} DedupePrefix(cs: seq<Course>, i: nat)
    requires i <= |cs|
    ensures |Dedupe(cs[..i])| <= |Dedupe(cs)|
    ensures Dedupe(cs[..i]) == Dedupe(cs)[..|Dedupe(cs[..i])|]
    decreases |cs|
  {
    if i < |cs| {
      var init := cs[..|cs| - 1];
      assert init[..i] == cs[..i];
      DedupePrefix(init, i);
    } else {
      assert cs[..i] == cs;
    }
  }

  // ---------------------------------------------------------------------
  // The report

  /** `trending_jobs_suitability`: the top score, or 50 without jobs. */
  function Trending(ranked: seq<Scored>): real {
    if ranked != [] then ranked[0].score else 50.0
  }

  /** The skill list of the session: technical skills then soft skills,
      either of which may be absent. */
  function AllSkills(technical: Option<seq<string>>, soft: Option<seq<string>>): seq<string> {
    technical.GetOr([]) + soft.GetOr([])
  }

  /** Every ranked job has a gap report. */
  lemma RankedTitlesKnown(skills: seq<string>, catalog: seq<Job>)
    ensures Known(Rank(Eligibility(skills, catalog)), SkillGaps(NormalizeAll(skills), catalog))
    ensures Known(Take(Rank(Eligibility(skills, catalog)), 3), SkillGaps(NormalizeAll(skills), catalog))
  {
    var scores := Eligibility(skills, catalog);
    var ranked := Rank(scores);
    var gaps := SkillGaps(NormalizeAll(skills), catalog);
    RankPermutes(scores);
    forall k | 0 <= k < |ranked|
      ensures ranked[k].title in gaps
    {
      assert ranked[k] in multiset(scores);
      var j :| 0 <= j < |scores| && scores[j] == ranked[k];
      TitlesMember(catalog, ranked[k].title);
      SkillGapsKeys(NormalizeAll(skills), catalog);
    }
  }

  /** The report assembled from the ranking and the gap reports. */
  function Assemble(ranked: seq<Scored>, gaps: map<string, Gap>): Report
    requires Known(Take(ranked, 3), gaps)
  {
    var top := Take(ranked, 3);
    Report(
      TopCareers(ranked),
      GapEntries(top, gaps),
      Trending(ranked),
      Take(Dedupe(CourseCandidates(top, gaps)), 5))
  }

  /** The report for the given skill lists and catalog. */
  function Analysis(technical: Option<seq<string>>, soft: Option<seq<string>>, catalog: seq<Job>): Report
  {
    var skills := AllSkills(technical, soft);
    RankedTitlesKnown(skills, catalog);
    Assemble(Rank(Eligibility(skills, catalog)), SkillGaps(NormalizeAll(skills), catalog))
  }

  /** `career_analysis`, without the session and the result store. */
  method CareerAnalysis(technical: Option<seq<string>>, soft: Option<seq<string>>, catalog: seq<Job>)
    returns (report: Report)
    ensures report == Analysis(technical, soft, catalog)
  {
    var skills := [];
    if technical.Some? {
      skills := skills + technical.value;
    }
    if soft.Some? {
      skills := skills + soft.value;
    }
    assert skills == AllSkills(technical, soft);
    var scores := CalculateJobEligibility(skills, catalog);
    var ranked := Rank(scores);
    var careers := RecommendCareers(ranked);
    var gaps := AnalyzeSkillGaps(skills, catalog);
    var top := Take(ranked, 3);
    RankedTitlesKnown(skills, catalog);
    var entries := SkillGapEntries(top, gaps);
    var trending := if ranked != [] then ranked[0].score else 50.0;
    var candidates := GatherCourses(top, gaps);
    var unique := DedupeCourses(candidates);
    report := Report(careers, entries, trending, Take(unique, 5));
  }

  // ---------------------------------------------------------------------
  // Properties of the report

  /** A candidate course survives de-duplication: the course kept for its
      title is the same course, since a title decides its course. */
  lemma CandidateKept(top: seq<Scored>, gaps: map<string, Gap>, skill: string)
    requires Known(top, gaps)
    requires skill in CourseMapping && OfferFor(skill) in CourseCandidates(top, gaps)
    ensures OfferFor(skill) in Dedupe(CourseCandidates(top, gaps))
  {
    var candidates := CourseCandidates(top, gaps);
    var c := OfferFor(skill);
    DedupeFacts(candidates);
    CandidatesFacts(top, gaps);
    assert c.title in CourseTitles(candidates);
    var d :| d in Dedupe(candidates) && d.title == c.title;
    SubsequenceMember(Dedupe(candidates), candidates, d);
    var k :| 0 <= k < |top| && exists s :: s in Take(gaps[top[k].title].missing, 2) && Offers(d, s);
  }

  /** The report's course list: at most five courses, with distinct
      titles, each offered for one of the first two missing skills of one
      of the jobs of `top`; and every course offered for such a skill is
      kept, unless five courses were already listed. */
  lemma CourseListFacts(top: seq<Scored>, gaps: map<string, Gap>)
    requires Known(top, gaps)
    ensures |Take(Dedupe(CourseCandidates(top, gaps)), 5)| <= 5
    ensures DistinctCourseTitles(Take(Dedupe(CourseCandidates(top, gaps)), 5))
    ensures forall c :: c in Take(Dedupe(CourseCandidates(top, gaps)), 5) ==>
      exists k :: 0 <= k < |top| && exists s :: s in Take(gaps[top[k].title].missing, 2) && Offers(c, s)
    ensures forall k, s :: 0 <= k < |top| && s in Take(gaps[top[k].title].missing, 2) && s in CourseMapping ==>
      OfferFor(s) in Dedupe(CourseCandidates(top, gaps))
    ensures forall k, s :: 0 <= k < |top| && s in Take(gaps[top[k].title].missing, 2) && s in CourseMapping ==>
      OfferFor(s) in Take(Dedupe(CourseCandidates(top, gaps)), 5) || |Take(Dedupe(CourseCandidates(top, gaps)), 5)| == 5
  {
    var candidates := CourseCandidates(top, gaps);
    DedupeFacts(candidates);
    CandidatesFacts(top, gaps);
    forall c | c in Take(Dedupe(candidates), 5)
      ensures exists k :: 0 <= k < |top| && exists s :: s in Take(gaps[top[k].title].missing, 2) && Offers(c, s)
    {
      SubsequenceMember(Dedupe(candidates), candidates, c);
    }
    forall k, s | 0 <= k < |top| && s in Take(gaps[top[k].title].missing, 2) && s in CourseMapping
      ensures OfferFor(s) in Dedupe(candidates)
    {
      CandidateKept(top, gaps, s);
    }
  }

  /** Five careers at most (fewer only when the ranking is shorter),
      three gap entries at most, five courses at most, all with distinct
      titles, each offered for one of the first two missing skills of one
      of the three best-ranked jobs. */
  lemma AssembleFacts(ranked: seq<Scored>, gaps: map<string, Gap>)
    requires Known(Take(ranked, 3), gaps)
    ensures |Assemble(ranked, gaps).careers| == if |ranked| < 5 then |ranked| else 5
    ensures |Assemble(ranked, gaps).skillGaps| <= 3
    ensures |Assemble(ranked, gaps).courses| <= 5
    ensures DistinctCourseTitles(Assemble(ranked, gaps).courses)
    ensures forall c :: c in Assemble(ranked, gaps).courses ==>
      exists k :: (0 <= k < |ranked| && k < 3 && ranked[k].title in gaps &&
                   exists s :: s in Take(gaps[ranked[k].title].missing, 2) && Offers(c, s))
  {
    var top := Take(ranked, 3);
    var r := Assemble(ranked, gaps);
    var courses := Take(Dedupe(CourseCandidates(top, gaps)), 5);
    assert r.careers == TopCareers(ranked);
    assert r.skillGaps == GapEntries(top, gaps);
    assert r.courses == courses;
    TopCareersFacts(ranked);
    GapEntriesLength(top, gaps);
    CourseListFacts(top, gaps);
    forall c | c in courses
      ensures exists k :: (0 <= k < |ranked| && k < 3 && ranked[k].title in gaps &&
                           exists s :: s in Take(gaps[ranked[k].title].missing, 2) && Offers(c, s))
    {
      var k :| 0 <= k < |top| && exists s :: s in Take(gaps[top[k].title].missing, 2) && Offers(c, s);
      assert top[k] == ranked[k];
    }
  }

  /** What a course offered for a skill looks like. */
  lemma OffersShape(c: Course, skill: string)
    requires Offers(c, skill)
    ensures c.provider == "Coursera" && c.duration == "6 weeks"
    ensures c.title in CourseMapping.Values
  {
  }

  /** A report from a best-first ranking lists its careers best first, and
      its trending suitability is the score of the first career (50 when
      there are no jobs, which leaves the report empty). */
  lemma AssembleHeadline(ranked: seq<Scored>, gaps: map<string, Gap>)
    requires Known(Take(ranked, 3), gaps)
    requires SortedDesc(ranked)
    ensures var r := Assemble(ranked, gaps);
      forall i, j :: 0 <= i < j < |r.careers| ==> r.careers[i].score >= r.careers[j].score
    ensures ranked == [] ==> Assemble(ranked, gaps) == Report([], [], 50.0, [])
    ensures ranked != [] ==>
      Assemble(ranked, gaps).careers != [] &&
      Assemble(ranked, gaps).trending == Assemble(ranked, gaps).careers[0].score
  {
    TopCareersFacts(ranked);
  }

  /** For the route's inputs: as many careers as jobs up to five, and a
      trending suitability equal to the best eligibility score of the
      catalog, or 50 when the catalog is empty. */
  lemma ReportHeadline(technical: Option<seq<string>>, soft: Option<seq<string>>, catalog: seq<Job>)
    ensures |Analysis(technical, soft, catalog).careers| == if |catalog| < 5 then |catalog| else 5
    ensures catalog == [] ==> Analysis(technical, soft, catalog).trending == 50.0
    ensures catalog != [] ==>
      var r := Analysis(technical, soft, catalog);
      var scores := Eligibility(AllSkills(technical, soft), catalog);
      && (forall i :: 0 <= i < |catalog| ==> r.trending >= scores[i].score)
      && (exists i :: 0 <= i < |catalog| && r.trending == scores[i].score)
  {
    var skills := AllSkills(technical, soft);
    var scores := Eligibility(skills, catalog);
    var ranked := Rank(scores);
    RankedTitlesKnown(skills, catalog);
    RankPermutes(scores);
    TopCareersFacts(ranked);
    if catalog != [] {
      RankHeadIsMax(scores);
    }
  }
}
