/** The report for a user with no skills at all, worked out on the job
    catalog. */
module Scenarios {
  import opened Wrappers
  import opened Text
  import opened Seqs
  import opened Skills
  import opened Ranking
  import opened CareerReport

  /** Without skills, nothing the user lists is required. */
  lemma {:induction false} NothingMissesNothing(required: seq<string>)
    ensures Missing(required, []) == required
  {
    if required != [] {
      NothingMissesNothing(required[1..]);
    }
  }

  lemma FirstThreeEntries()
    ensures JobSkillsMapping[0] == Job("Cloud Engineer",
      ["cloud computing", "devops", "networking", "linux", "python", "security"])
    ensures JobSkillsMapping[1] == Job("Web Developer",
      ["javascript", "html", "css", "web development", "api", "database"])
    ensures JobSkillsMapping[2] == Job("Network Engineer", ["networking", "linux", "security"])
  {
  }

  lemma NextTwoTitles()
    ensures JobSkillsMapping[3].title == "Database Administrator"
    ensures JobSkillsMapping[4].title == "Cybersecurity Analyst"
  {
  }

  /** The gap entries of three jobs, one after the other. */
  lemma GapEntriesOfThree(top: seq<Scored>, gaps: map<string, Gap>)
    requires |top| == 3 && Known(top, gaps)
    ensures GapEntries(top, gaps)
      == GapEntries([top[0]], gaps) + GapEntries([top[1]], gaps) + GapEntries([top[2]], gaps)
  {
    assert top[..2][..1] == [top[0]];
    assert top[..2] == [top[0], top[1]];
    assert [top[0], top[1]][..1] == [top[0]];
    assert [top[0]][..0] == [];
  }

  /** The course candidates of three jobs, one after the other. */
  lemma CandidatesOfThree(top: seq<Scored>, gaps: map<string, Gap>)
    requires |top| == 3 && Known(top, gaps)
    ensures CourseCandidates(top, gaps)
      == CoursesFor(Take(gaps[top[0].title].missing, 2))
       + CoursesFor(Take(gaps[top[1].title].missing, 2))
       + CoursesFor(Take(gaps[top[2].title].missing, 2))
  {
    var c0 := CoursesFor(Take(gaps[top[0].title].missing, 2));
    var c1 := CoursesFor(Take(gaps[top[1].title].missing, 2));
    assert top[..2] == [top[0], top[1]];
    assert [top[0], top[1]][..1] == [top[0]];
    assert [top[0]][..0] == [];
    assert CourseCandidates([top[0]], gaps) == c0;
    assert CourseCandidates(top[..2], gaps) == c0 + c1;
  }

  lemma CloudEngineerCourses()
    ensures CoursesFor(["cloud computing", "devops"])
      == [Course("AWS Cloud Practitioner", "Coursera", "6 weeks")]
  {
    assert ["cloud computing", "devops"][..1] == ["cloud computing"];
  }

  lemma WebDeveloperCourses()
    ensures CoursesFor(["javascript", "html"])
      == [Course("Modern JavaScript Development", "Coursera", "6 weeks")]
  {
    assert ["javascript", "html"][..1] == ["javascript"];
  }

  lemma NetworkEngineerCourses()
    ensures CoursesFor(["networking", "linux"]) == []
  {
    assert ["networking", "linux"][..1] == ["networking"];
  }

  /** With no skills the report is built from the catalog order and from
      gap reports that list every required skill. */
  lemma NoSkillsAssemble()
    ensures Known(Take(Rank(Eligibility([], JobSkillsMapping)), 3), SkillGaps([], JobSkillsMapping))
    ensures Analysis(None, None, JobSkillsMapping)
      == Assemble(Rank(Eligibility([], JobSkillsMapping)), SkillGaps([], JobSkillsMapping))
  {
    assert AllSkills(None, None) == [];
    assert NormalizeAll([]) == [];
    RankedTitlesKnown([], JobSkillsMapping);
  }

  /** Two courses with different titles are both kept. */
  lemma DedupePair(a: Course, b: Course)
    requires a.title != b.title
    ensures Dedupe([a, b]) == [a, b]
  {
    assert [a, b][..1] == [a];
    assert Dedupe([a]) == [a];
    assert b.title !in CourseTitles([a]);
  }

  /** Without skills every job scores 0, so the ranking keeps the catalog
      order. */
  lemma NoSkillsRanking(catalog: seq<Job>)
    ensures Rank(Eligibility([], catalog)) == Eligibility([], catalog)
    ensures forall k :: 0 <= k < |catalog| ==>
      Eligibility([], catalog)[k] == Scored(catalog[k].title, 0.0)
  {
    EmptyListScoresZero(catalog);
    RankEqualScores(Eligibility([], catalog), 0.0);
  }

  /** Without skills, the gap report of a job whose title is not repeated
      later lists all its required skills. */
  lemma NoSkillsGap(catalog: seq<Job>, k: nat)
    requires k < |catalog| && LastOfTitle(catalog, k)
    ensures catalog[k].title in SkillGaps([], catalog)
    ensures SkillGaps([], catalog)[catalog[k].title].missing == catalog[k].required
  {
    SkillGapsLookup([], catalog, k);
    NothingMissesNothing(catalog[k].required);
  }

  /** Cloud Engineer, Web Developer and Network Engineer appear once each
      in the catalog. */
  lemma FirstTitlesNotRepeated()
    ensures LastOfTitle(JobSkillsMapping, 0)
    ensures LastOfTitle(JobSkillsMapping, 1)
    ensures LastOfTitle(JobSkillsMapping, 2)
  {
    CatalogDistinct();
  }

  /** A slice no longer than the sequence takes exactly its first `n` entries. */
  lemma TakeLonger<T>(s: seq<T>, n: nat)
    requires n <= |s|
    ensures Take(s, n) == s[..n]
  {
  }

  /** Entry `k` of `top` is job `k` of `jobs`, and that job misses all its
      required skills. */
  predicate MissesAll(top: seq<Scored>, gaps: map<string, Gap>, jobs: seq<Job>, k: nat)
    requires k < |top| && k < |jobs|
  {
    top[k].title == jobs[k].title && jobs[k].title in gaps && gaps[jobs[k].title].missing == jobs[k].required
  }

  /** Three jobs that miss all their required skills yield as course
      candidates those of their first two required skills. */
  lemma CandidatesOfFullGaps(top: seq<Scored>, gaps: map<string, Gap>, jobs: seq<Job>)
    requires |top| == 3 && |jobs| >= 3
    requires MissesAll(top, gaps, jobs, 0) && MissesAll(top, gaps, jobs, 1) && MissesAll(top, gaps, jobs, 2)
    ensures Known(top, gaps)
    ensures CourseCandidates(top, gaps)
      == CoursesFor(Take(jobs[0].required, 2))
       + CoursesFor(Take(jobs[1].required, 2))
       + CoursesFor(Take(jobs[2].required, 2))
  {
    CandidatesOfThree(top, gaps);
  }

  /** Without skills the three best-ranked jobs are the first three of the
      catalog, each with score 0. */
  lemma NoSkillsTopThree(catalog: seq<Job>)
    requires |catalog| >= 3
    ensures Take(Rank(Eligibility([], catalog)), 3)
      == [Scored(catalog[0].title, 0.0), Scored(catalog[1].title, 0.0), Scored(catalog[2].title, 0.0)]
  {
    var scores := Eligibility([], catalog);
    NoSkillsRanking(catalog);
    TakeLonger(scores, 3);
  }

  /** Without skills, each of the first three jobs of a catalog without
      repeated titles misses all its required skills. */
  lemma NoSkillsFirstGaps(catalog: seq<Job>)
    requires |catalog| >= 3
    requires LastOfTitle(catalog, 0) && LastOfTitle(catalog, 1) && LastOfTitle(catalog, 2)
    ensures |Take(Rank(Eligibility([], catalog)), 3)| == 3
    ensures MissesAll(Take(Rank(Eligibility([], catalog)), 3), SkillGaps([], catalog), catalog, 0)
    ensures MissesAll(Take(Rank(Eligibility([], catalog)), 3), SkillGaps([], catalog), catalog, 1)
    ensures MissesAll(Take(Rank(Eligibility([], catalog)), 3), SkillGaps([], catalog), catalog, 2)
  {
    NoSkillsTopThree(catalog);
    NoSkillsGap(catalog, 0);
    NoSkillsGap(catalog, 1);
    NoSkillsGap(catalog, 2);
  }

  /** Hence, without skills, the course candidates are those of the first
      two required skills of the first three jobs. */
  lemma NoSkillsCandidatesIn(catalog: seq<Job>)
    requires |catalog| >= 3
    requires LastOfTitle(catalog, 0) && LastOfTitle(catalog, 1) && LastOfTitle(catalog, 2)
    ensures Known(Take(Rank(Eligibility([], catalog)), 3), SkillGaps([], catalog))
    ensures CourseCandidates(Take(Rank(Eligibility([], catalog)), 3), SkillGaps([], catalog))
      == CoursesFor(Take(catalog[0].required, 2))
       + CoursesFor(Take(catalog[1].required, 2))
       + CoursesFor(Take(catalog[2].required, 2))
  {
    NoSkillsFirstGaps(catalog);
    CandidatesOfFullGaps(Take(Rank(Eligibility([], catalog)), 3), SkillGaps([], catalog), catalog);
  }

  /** The courses offered for the first two required skills of Cloud
      Engineer, Web Developer and Network Engineer, in that order. */
  lemma FirstThreeCourses(catalog: seq<Job>)
    requires |catalog| >= 3
    requires catalog[0] == Job("Cloud Engineer",
      ["cloud computing", "devops", "networking", "linux", "python", "security"])
    requires catalog[1] == Job("Web Developer",
      ["javascript", "html", "css", "web development", "api", "database"])
    requires catalog[2] == Job("Network Engineer", ["networking", "linux", "security"])
    ensures CoursesFor(Take(catalog[0].required, 2))
       + CoursesFor(Take(catalog[1].required, 2))
       + CoursesFor(Take(catalog[2].required, 2))
      == [Course("AWS Cloud Practitioner", "Coursera", "6 weeks"),
          Course("Modern JavaScript Development", "Coursera", "6 weeks")]
  {
    assert Take(catalog[0].required, 2) == ["cloud computing", "devops"];
    assert Take(catalog[1].required, 2) == ["javascript", "html"];
    assert Take(catalog[2].required, 2) == ["networking", "linux"];
    CloudEngineerCourses();
    WebDeveloperCourses();
    NetworkEngineerCourses();
  }

  /** Without skills, the course candidates of the three best-ranked jobs. */
  lemma NoSkillsCandidates()
    ensures Known(Take(Rank(Eligibility([], JobSkillsMapping)), 3), SkillGaps([], JobSkillsMapping))
    ensures CourseCandidates(Take(Rank(Eligibility([], JobSkillsMapping)), 3), SkillGaps([], JobSkillsMapping))
      == [Course("AWS Cloud Practitioner", "Coursera", "6 weeks"),
          Course("Modern JavaScript Development", "Coursera", "6 weeks")]
  {
    FirstTitlesNotRepeated();
    NoSkillsCandidatesIn(JobSkillsMapping);
    FirstThreeEntries();
    FirstThreeCourses(JobSkillsMapping);
  }

  /** With no skills the course list is the AWS Cloud Practitioner course
      (for Cloud Engineer) followed by Modern JavaScript Development (for Web
      Developer); Network Engineer's first two missing skills have no
      course. */
  lemma NoSkillsCourses()
    ensures Analysis(None, None, JobSkillsMapping).courses == [
      Course("AWS Cloud Practitioner", "Coursera", "6 weeks"),
      Course("Modern JavaScript Development", "Coursera", "6 weeks")]
  {
    var aws := Course("AWS Cloud Practitioner", "Coursera", "6 weeks");
    var js := Course("Modern JavaScript Development", "Coursera", "6 weeks");
    NoSkillsAssemble();
    NoSkillsCandidates();
    DedupePair(aws, js);
  }
}
