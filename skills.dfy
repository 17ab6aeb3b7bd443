/** Skill normalisation, the job catalog, per-job eligibility scores and
    per-job skill gaps (the matching engine of app.py). */
module Skills {
  import opened Text
  import opened Seqs

  /** A catalog entry: a job title and the skills it requires, in the order
      the catalog declares them. */
  datatype Job = Job(title: string, required: seq<string>)

  /** A job title with its eligibility score, one item of the score table. */
  datatype Scored = Scored(title: string, score: real)

  /** The skill gap of one job: the required skills the user lacks, in
      catalog order, and the share of required skills the user has. */
  datatype Gap = Gap(missing: seq<string>, matchPercentage: real)

  /** The job catalog, in declaration order (which is the order of the
      source's dictionary). */
  const JobSkillsMapping: seq<Job> := [
    Job("Cloud Engineer", ["cloud computing", "devops", "networking", "linux", "python", "security"]),
    Job("Web Developer", ["javascript", "html", "css", "web development", "api", "database"]),
    Job("Network Engineer", ["networking", "linux", "security"]),
    Job("Database Administrator", ["sql", "nosql", "database", "security"]),
    Job("Cybersecurity Analyst", ["cybersecurity", "networking", "linux", "security"]),
    Job("Software Engineer", ["java", "python", "c++", "data structures", "algorithms", "devops"]),
    Job("AI Engineer", ["machine learning", "python", "data analysis", "tensorflow", "pytorch"]),
    Job("Embedded Systems Engineer", ["c++", "c", "embedded systems", "hardware"]),
    Job("Business Analyst", ["business analysis", "communication", "sql", "data analysis", "project management"]),
    Job("Data Analyst", ["data analysis", "sql", "python", "data visualization"]),
    Job("DevOps Engineer", ["devops", "cloud computing", "linux", "automation"]),
    Job("Mobile App Developer", ["java", "kotlin", "swift", "mobile development", "ui/ux design"]),
    Job("UI/UX Designer", ["ui/ux design", "user research", "graphic design"]),
    Job("Project Manager", ["project management", "leadership", "communication", "risk management"]),
    Job("Data Scientist", ["data analysis", "machine learning", "python", "statistics"])
  ]

  /** Titles are dictionary keys: no title occurs twice. */
  predicate DistinctTitles(catalog: seq<Job>) {
    forall i, j :: 0 <= i < j < |catalog| ==> catalog[i].title != catalog[j].title
  }

  /** The catalog's titles are distinct, as the keys of a dictionary are. */
  lemma CatalogDistinct()
    ensures DistinctTitles(JobSkillsMapping)
  {
    TitlesDistinctFrom(0, 5);
    TitlesDistinctFrom(5, 10);
    TitlesDistinctFrom(10, 15);
  }

  /** The titles of catalog entries `lo` to `hi - 1` occur nowhere later. */
  lemma TitlesDistinctFrom(lo: nat, hi: nat)
    requires (lo, hi) == (0, 5) || (lo, hi) == (5, 10) || (lo, hi) == (10, 15)
    ensures forall i, j :: lo <= i < hi && i < j < |JobSkillsMapping| ==>
      JobSkillsMapping[i].title != JobSkillsMapping[j].title
  {
  }

  /** The alias table: a spelling (already trimmed and lower-cased) to the
      canonical skill it stands for. */
  const SkillAliases: map<string, string> := map[
    "js" := "javascript", "nodejs" := "javascript", "node.js" := "javascript",
    "reactjs" := "javascript", "react.js" := "javascript",
    "py" := "python", "django" := "python", "flask" := "python",
    "cpp" := "c++", "cplusplus" := "c++",
    "csharp" := "c#", "dotnet" := "c#", ".net" := "c#",
    "ml" := "machine learning", "ai" := "machine learning",
    "artificial intelligence" := "machine learning",
    "dl" := "deep learning", "neural networks" := "deep learning",
    "aws" := "cloud computing", "azure" := "cloud computing", "gcp" := "cloud computing",
    "mysql" := "sql", "postgresql" := "sql", "postgres" := "sql",
    "mongodb" := "nosql", "cassandra" := "nosql", "redis" := "nosql",
    "html5" := "html", "css3" := "css",
    "communication skills" := "communication",
    "project planning" := "project management",
    "user interface" := "ui/ux design", "user experience" := "ui/ux design"
  ]

  /** A skill spelling in canonical form: not empty, lower-case and with no
      whitespace at either end. */
  predicate IsCanonical(v: string) {
    v != "" && IsLower(v) && IsStripped(v)
  }

  /** No canonical skill of the alias table is itself an alias, and neither
      is the empty string; one lemma per spelling, since each is a search
      through the whole table. */
  lemma EmptyNotAlias()
    ensures "" !in SkillAliases
  {
  }

  lemma JavascriptNotAlias()
    ensures "javascript" !in SkillAliases
  {
  }

  lemma PythonNotAlias()
    ensures "python" !in SkillAliases
  {
  }

  lemma CppNotAlias()
    ensures "c++" !in SkillAliases
  {
  }

  lemma CSharpNotAlias()
    ensures "c#" !in SkillAliases
  {
  }

  lemma MachineLearningNotAlias()
    ensures "machine learning" !in SkillAliases
  {
  }

  lemma DeepLearningNotAlias()
    ensures "deep learning" !in SkillAliases
  {
  }

  lemma CloudComputingNotAlias()
    ensures "cloud computing" !in SkillAliases
  {
  }

  lemma SqlNotAlias()
    ensures "sql" !in SkillAliases
  {
  }

  lemma NosqlNotAlias()
    ensures "nosql" !in SkillAliases
  {
  }

  lemma HtmlNotAlias()
    ensures "html" !in SkillAliases
  {
  }

  lemma CssNotAlias()
    ensures "css" !in SkillAliases
  {
  }

  lemma CommunicationNotAlias()
    ensures "communication" !in SkillAliases
  {
  }

  lemma ProjectManagementNotAlias()
    ensures "project management" !in SkillAliases
  {
  }

  lemma UiUxDesignNotAlias()
    ensures "ui/ux design" !in SkillAliases
  {
  }

  /** Every canonical skill of the alias table is in canonical form. */
  lemma CanonicalA()
    ensures IsCanonical("javascript")
      && IsCanonical("python")
      && IsCanonical("c++")
      && IsCanonical("c#")
      && IsCanonical("machine learning")
  {
  }

  lemma CanonicalB()
    ensures IsCanonical("deep learning")
      && IsCanonical("cloud computing")
      && IsCanonical("sql")
      && IsCanonical("nosql")
      && IsCanonical("html")
  {
  }

  lemma CanonicalC()
    ensures IsCanonical("css")
      && IsCanonical("communication")
      && IsCanonical("project management")
      && IsCanonical("ui/ux design")
  {
  }

  /** Whatever an alias stands for is a canonical skill that is not an alias
      in turn, so looking it up again changes nothing. */
  lemma AliasTarget(k: string)
    requires k in SkillAliases
    ensures IsCanonical(SkillAliases[k]) && SkillAliases[k] !in SkillAliases
  {
    JavascriptNotAlias(); PythonNotAlias(); CppNotAlias(); CSharpNotAlias();
    MachineLearningNotAlias(); DeepLearningNotAlias(); CloudComputingNotAlias();
    SqlNotAlias(); NosqlNotAlias(); HtmlNotAlias(); CssNotAlias();
    CommunicationNotAlias(); ProjectManagementNotAlias(); UiUxDesignNotAlias();
    CanonicalA(); CanonicalB(); CanonicalC();
  }

  /** Lower-casing keeps a string free of whitespace at its ends. */
  lemma LowerKeepsStripped(s: string)
    requires IsStripped(s)
    ensures IsStripped(Lower(s))
  {
  }

  /** `normalize_skill`: trim, lower-case, then replace a known alias by its
      canonical skill. */
  function NormalizeSkill(skill: string): string
  {
    if skill == "" then ""
    else
      var t := Lower(Strip(skill));
      if t in SkillAliases then SkillAliases[t] else t
  }

  /** A normalised skill is empty exactly when the input is empty or blank;
      otherwise it is lower-case, has no whitespace at either end and is
      never itself an alias. */
  lemma NormalizeCanonical(skill: string)
    ensures NormalizeSkill(skill) == "" <==> Strip(skill) == ""
    ensures IsLower(NormalizeSkill(skill)) && IsStripped(NormalizeSkill(skill))
    ensures NormalizeSkill(skill) !in SkillAliases
  {
    EmptyNotAlias();
    if skill != "" {
      var st := Strip(skill);
      var t := Lower(st);
      StripFixesStripped(skill);
      LowerIsLower(st);
      LowerKeepsStripped(st);
      if t in SkillAliases {
        assert t != "";
        AliasTarget(t);
        assert NormalizeSkill(skill) == SkillAliases[t];
      } else {
        assert NormalizeSkill(skill) == t;
      }
    }
  }

  /** Normalising twice is normalising once. */
  lemma {:induction false} NormalizeIdempotent(skill: string)
    ensures NormalizeSkill(NormalizeSkill(skill)) == NormalizeSkill(skill)
  {
    var r := NormalizeSkill(skill);
    NormalizeCanonical(skill);
    if r != "" {
      StripFixesStripped(r);
      LowerIsLower(r);
    }
  }

  /** A spelling whose trimmed, lower-cased form is an alias normalises to
      what the alias stands for; any other spelling to that form itself. */
  lemma NormalizeLooksUpAlias(skill: string)
    ensures Lower(Strip(skill)) in SkillAliases ==>
      NormalizeSkill(skill) == SkillAliases[Lower(Strip(skill))]
    ensures Lower(Strip(skill)) !in SkillAliases ==>
      NormalizeSkill(skill) == Lower(Strip(skill))
  {
    if skill == "" {
      assert Lower(Strip(skill)) == "";
      EmptyNotAlias();
    }
  }

  /** A skill already in canonical form that is not an alias is left as
      it is. */
  lemma NormalizeFixesCanonical(v: string)
    requires IsCanonical(v) && v !in SkillAliases
    ensures NormalizeSkill(v) == v
  {
    StripFixesStripped(v);
    LowerIsLower(v);
  }

  /** `[normalize_skill(s) for s in skills]`. */
  function NormalizeAll(skills: seq<string>): seq<string>
  {
    seq(|skills|, i requires 0 <= i < |skills| => NormalizeSkill(skills[i]))
  }

  function Min(a: real, b: real): real {
    if a <= b then a else b
  }

  /** Scaling by a positive factor keeps the order with 0 and 1. */
  lemma ScaledUnit(q: real, n: real)
    requires 0.0 < n
    ensures q < 0.0 ==> q * n < 0.0
    ensures q < 1.0 ==> q * n < n
    ensures q > 1.0 ==> q * n > n
    ensures q == 1.0 ==> q * n == n
  {
    if q < 1.0 {
      assert (1.0 - q) * n > 0.0;
    } else if q > 1.0 {
      assert (q - 1.0) * n > 0.0;
    }
  }

  /** `k` of `n` items as a percentage is a ratio in [0, 100], and 100
      exactly when `k` is all of them. */
  lemma PercentBounds(k: nat, n: nat)
    requires 0 < n && k <= n
    ensures 0.0 <= (k as real) / (n as real) * 100.0 <= 100.0
    ensures (k as real) / (n as real) * 100.0 == 100.0 <==> k == n
  {
    var q := (k as real) / (n as real);
    var nr := n as real;
    assert q * nr == k as real;
    ScaledUnit(q, nr);
    assert 0.0 <= q <= 1.0;
    assert q == 1.0 <==> k == n;
  }

  /** A larger count is a larger percentage of the same total. */
  lemma PercentMonotone(m0: nat, m1: nat, n: nat)
    requires 0 < n && m0 <= m1
    ensures (m0 as real) / (n as real) * 100.0 <= (m1 as real) / (n as real) * 100.0
  {
    var q0 := (m0 as real) / (n as real);
    var q1 := (m1 as real) / (n as real);
    var nr := n as real;
    assert q0 * nr == m0 as real;
    assert q1 * nr == m1 as real;
    assert (q1 - q0) * nr == (m1 - m0) as real;
  }

  /** `matched_skills`: the entries of the user's normalised list, repeats
      included, that the job requires, in the user's order. */
  function Matched(user: seq<string>, required: seq<string>): seq<string>
  {
    if user == [] then []
    else (if user[0] in required then [user[0]] else []) + Matched(user[1..], required)
  }

  /** The matched skills are the user's entries that the job requires:
      a skill is matched exactly when it is both listed and required, and
      there are no more matches than listed entries. */
  lemma {:induction false} MatchedFacts(user: seq<string>, required: seq<string>)
    ensures |Matched(user, required)| <= |user|
    ensures forall x :: x in Matched(user, required) <==> x in user && x in required
  {
    if user != [] {
      var rest := user[1..];
      MatchedFacts(rest, required);
      assert user == [user[0]] + rest;
    }
  }

  /** The eligibility score of one job: the percentage of its required
      skills matched by the user's list plus half a point per listed skill
      (at most 20), capped at 100; a job that requires nothing scores 0. */
  function Score(user: seq<string>, required: seq<string>): real
  {
    if required == [] then 0.0
    else
      var pct := (|Matched(user, required)| as real) / (|required| as real) * 100.0;
      Min(100.0, pct + Min(20.0, (|user| as real) * 0.5))
  }

  /** Every score lies in [0, 100], even when repeated listings make the
      matched count exceed the number of required skills; a job that
      requires nothing scores 0 whatever the user lists. */
  lemma ScoreBounds(user: seq<string>, required: seq<string>)
    ensures 0.0 <= Score(user, required) <= 100.0
    ensures required == [] ==> Score(user, required) == 0.0
  {
    if required != [] {
      PercentMonotone(0, |Matched(user, required)|, |required|);
    }
  }

  lemma {:induction false} MatchedAppend(a: seq<string>, b: seq<string>, required: seq<string>)
    ensures Matched(a + b, required) == Matched(a, required) + Matched(b, required)
    decreases |a|
  {
    if a != [] {
      var head := if a[0] in required then [a[0]] else [];
      assert (a + b)[0] == a[0];
      assert (a + b)[1..] == a[1..] + b;
      MatchedAppend(a[1..], b, required);
      calc {
        Matched(a + b, required);
        head + Matched(a[1..] + b, required);
        head + (Matched(a[1..], required) + Matched(b, required));
        (head + Matched(a[1..], required)) + Matched(b, required);
      }
    } else {
      assert a + b == b;
    }
  }

  /** Listing one more skill never lowers a job's score. */
  lemma ScoreMonotone(user: seq<string>, x: string, required: seq<string>)
    ensures Score(user + [x], required) >= Score(user, required)
  {
    if required != [] {
      MatchedAppend(user, [x], required);
      PercentMonotone(|Matched(user, required)|, |Matched(user + [x], required)|, |required|);
    }
  }

  /** The distinct values of `s` that also occur in `t`. */
  function Common(s: seq<string>, t: seq<string>): set<string> {
    set x | x in s && x in t
  }

  /** One more listed skill adds one match exactly when the job requires
      it. */
  lemma MatchedCons(user: seq<string>, required: seq<string>)
    requires user != []
    ensures |Matched(user, required)| == |Matched(user[1..], required)| + (if user[0] in required then 1 else 0)
  {
  }

  /** A listed skill that is not listed again adds one to the common set
      exactly when the job requires it. */
  lemma CommonCons(user: seq<string>, required: seq<string>)
    requires user != [] && user[0] !in user[1..]
    ensures |Common(user, required)| == |Common(user[1..], required)| + (if user[0] in required then 1 else 0)
  {
    var rest := user[1..];
    var c := Common(rest, required);
    assert user[0] !in c;
    if user[0] in required {
      assert Common(user, required) == c + {user[0]} by {
        forall x
          ensures x in Common(user, required) <==> x in c + {user[0]}
        {
          assert user == [user[0]] + rest;
        }
      }
    } else {
      assert Common(user, required) == c by {
        forall x
          ensures x in Common(user, required) <==> x in c
        {
          assert user == [user[0]] + rest;
        }
      }
    }
  }

  /** When the user lists no skill twice (after normalisation), the matched
      count is the size of the set intersection of user and job skills. */
  lemma {:induction false} MatchedIsIntersection(user: seq<string>, required: seq<string>)
    requires NoDuplicates(user)
    ensures |Matched(user, required)| == |Common(user, required)|
    decreases |user|
  {
    if user == [] {
      assert Common(user, required) == {};
    } else {
      var rest := user[1..];
      assert NoDuplicates(rest) by {
        forall i, j | 0 <= i < j < |rest| ensures rest[i] != rest[j] {
          assert rest[i] == user[i + 1] && rest[j] == user[j + 1];
        }
      }
      MatchedIsIntersection(rest, required);
      assert user[0] !in rest by {
        forall k | 0 <= k < |rest| ensures rest[k] != user[0] {
          assert rest[k] == user[k + 1];
        }
      }
      MatchedCons(user, required);
      CommonCons(user, required);
    }
  }

  /** `missing_skills`: the required skills absent from the user's list, in
      catalog order. */
  function Missing(required: seq<string>, user: seq<string>): seq<string>
  {
    if required == [] then []
    else if required[0] !in user then [required[0]] + Missing(required[1..], user)
    else Missing(required[1..], user)
  }

  /** The missing skills are exactly the subsequence of the requirement
      made of the skills the user lacks: same order, each kept as often as
      it is required, none that the user has. */
  lemma {:induction false} MissingIsFilter(required: seq<string>, user: seq<string>)
    ensures IsSubsequence(Missing(required, user), required)
    ensures forall x :: x in Missing(required, user) <==> x in required && x !in user
    ensures forall x :: x !in user ==> multiset(Missing(required, user))[x] == multiset(required)[x]
    ensures |Missing(required, user)| <= |required|
  {
    if required != [] {
      MissingIsFilter(required[1..], user);
      assert required == [required[0]] + required[1..];
    }
    SubsequenceLength(Missing(required, user), required);
  }

  /** The gap report of one job: its missing skills and the percentage of
      required skills present (0 when the job requires nothing). */
  function GapFor(user: seq<string>, required: seq<string>): Gap
  {
    var missing := Missing(required, user);
    if required == [] then Gap(missing, 0.0)
    else Gap(missing, ((|required| - |missing|) as real) / (|required| as real) * 100.0)
  }

  /** The match percentage lies in [0, 100], is 0 for a job that requires
      nothing, and for any other job is 100 exactly when nothing is
      missing. */
  lemma GapBounds(user: seq<string>, required: seq<string>)
    ensures 0.0 <= GapFor(user, required).matchPercentage <= 100.0
    ensures required == [] ==> GapFor(user, required).matchPercentage == 0.0
    ensures required != [] ==>
      (GapFor(user, required).matchPercentage == 100.0 <==> GapFor(user, required).missing == [])
  {
    MissingIsFilter(required, user);
    if required != [] {
      var missing := Missing(required, user);
      PercentBounds(|required| - |missing|, |required|);
    }
  }

  /** The score of every catalog job, in catalog order. */
  function Eligibility(userSkills: seq<string>, catalog: seq<Job>): seq<Scored>
  {
    seq(|catalog|, i requires 0 <= i < |catalog| =>
      Scored(catalog[i].title, Score(NormalizeAll(userSkills), catalog[i].required)))
  }

  /** `calculate_job_eligibility`: one score per catalog job, in catalog
      order, each within [0, 100] and 0 for a job that requires nothing. */
  method CalculateJobEligibility(userSkills: seq<string>, catalog: seq<Job>) returns (scores: seq<Scored>)
    ensures scores == Eligibility(userSkills, catalog)
    ensures |scores| == |catalog|
    ensures forall i :: 0 <= i < |catalog| ==> scores[i].title == catalog[i].title
    ensures forall i :: 0 <= i < |catalog| ==>
      && 0.0 <= scores[i].score <= 100.0
      && (catalog[i].required == [] ==> scores[i].score == 0.0)
  {
    var user := NormalizeAll(userSkills);
    scores := [];
    for i := 0 to |catalog|
      invariant |scores| == i
      invariant forall k :: 0 <= k < i ==>
        scores[k] == Scored(catalog[k].title, Score(user, catalog[k].required))
    {
      var job := catalog[i];
      if job.required == [] {
        scores := scores + [Scored(job.title, 0.0)];
      } else {
        var matched := Matched(user, job.required);
        var pct := (|matched| as real) / (|job.required| as real) * 100.0;
        var bonus := Min(20.0, (|user| as real) * 0.5);
        scores := scores + [Scored(job.title, Min(100.0, pct + bonus))];
      }
    }
    forall i | 0 <= i < |catalog| {
      ScoreBounds(user, catalog[i].required);
    }
  }

  /** Entry `i` is the last catalog entry with its title: the one whose
      value a dictionary keyed by title keeps. */
  predicate LastOfTitle(catalog: seq<Job>, i: int)
    requires 0 <= i < |catalog|
  {
    forall j :: i < j < |catalog| ==> catalog[j].title != catalog[i].title
  }

  /** The titles of a catalog. */
  function Titles(catalog: seq<Job>): set<string>
    decreases |catalog|
  {
    if catalog == [] then {}
    else Titles(catalog[..|catalog| - 1]) + {catalog[|catalog| - 1].title}
  }

  /** A title belongs to a catalog exactly when some entry carries it. */
  lemma {:induction false} TitlesMember(catalog: seq<Job>, t: string)
    ensures t in Titles(catalog) <==> exists i :: 0 <= i < |catalog| && catalog[i].title == t
    decreases |catalog|
  {
    if catalog != [] {
      var init := catalog[..|catalog| - 1];
      TitlesMember(init, t);
      if t in Titles(init) {
        var i :| 0 <= i < |init| && init[i].title == t;
        assert catalog[i].title == t;
      }
      if i :| 0 <= i < |catalog| - 1 && catalog[i].title == t {
        assert init[i].title == t;
      }
    }
  }

  /** The gap report of every catalog job, keyed by title; a later entry
      with a title already seen replaces the earlier report. */
  function SkillGaps(user: seq<string>, catalog: seq<Job>): map<string, Gap>
    decreases |catalog|
  {
    if catalog == [] then map[]
    else
      var last := catalog[|catalog| - 1];
      SkillGaps(user, catalog[..|catalog| - 1])[last.title := GapFor(user, last.required)]
  }

  /** There is a report for every title of the catalog and for nothing
      else. */
  lemma {:induction false} SkillGapsKeys(user: seq<string>, catalog: seq<Job>)
    ensures SkillGaps(user, catalog).Keys == Titles(catalog)
    decreases |catalog|
  {
    if catalog != [] {
      SkillGapsKeys(user, catalog[..|catalog| - 1]);
    }
  }

  /** The report kept under a title is the one computed for the last catalog
      entry carrying it. */
  lemma {:induction false} SkillGapsLookup(user: seq<string>, catalog: seq<Job>, i: nat)
    requires i < |catalog| && LastOfTitle(catalog, i)
    ensures catalog[i].title in SkillGaps(user, catalog)
    ensures SkillGaps(user, catalog)[catalog[i].title] == GapFor(user, catalog[i].required)
    decreases |catalog|
  {
    TitlesMember(catalog, catalog[i].title);
    SkillGapsKeys(user, catalog);
    var init := catalog[..|catalog| - 1];
    if i < |catalog| - 1 {
      assert init[i] == catalog[i];
      assert LastOfTitle(init, i) by {
        forall j | i < j < |init| ensures init[j].title != init[i].title {
          assert init[j] == catalog[j];
        }
      }
      assert catalog[|catalog| - 1].title != catalog[i].title;
      SkillGapsLookup(user, init, i);
    }
  }

  /** `analyze_skill_gaps`: a gap report for every catalog title. */
  method AnalyzeSkillGaps(userSkills: seq<string>, catalog: seq<Job>) returns (gaps: map<string, Gap>)
    ensures gaps == SkillGaps(NormalizeAll(userSkills), catalog)
    ensures gaps.Keys == Titles(catalog)
  {
    var user := NormalizeAll(userSkills);
    gaps := map[];
    for i := 0 to |catalog|
      invariant gaps == SkillGaps(user, catalog[..i])
    {
      var job := catalog[i];
      var missing := Missing(job.required, user);
      var pct := if job.required == [] then 0.0
        else ((|job.required| - |missing|) as real) / (|job.required| as real) * 100.0;
      ghost var before := gaps;
      gaps := gaps[job.title := Gap(missing, pct)];
      assert catalog[..i + 1][..i] == catalog[..i];
      assert catalog[..i + 1][i] == job;
      assert gaps == before[job.title := GapFor(user, job.required)];
    }
    assert catalog[..|catalog|] == catalog;
    SkillGapsKeys(user, catalog);
  }

  /** An empty skill list scores 0 for every job: nothing is matched and
      there is no bonus. */
  lemma EmptyListScoresZero(catalog: seq<Job>)
    ensures forall i :: 0 <= i < |catalog| ==> Eligibility([], catalog)[i].score == 0.0
  {
  }

  lemma JsIsAnAlias()
    ensures "js" in SkillAliases && SkillAliases["js"] == "javascript"
  {
  }

  /** `["js", "html", "css"]` normalises to the three skills the Web
      Developer entry lists first. */
  lemma NormalizeWebList()
    ensures NormalizeAll(["js", "html", "css"]) == ["javascript", "html", "css"]
  {
    NormalizeThree("js", "html", "css");
    NormalizeJs();
    NormalizeHtml();
    NormalizeCss();
  }

  lemma NormalizeThree(a: string, b: string, c: string)
    ensures NormalizeAll([a, b, c]) == [NormalizeSkill(a), NormalizeSkill(b), NormalizeSkill(c)]
  {
    var n := NormalizeAll([a, b, c]);
    assert |n| == 3;
    assert n[0] == NormalizeSkill(a) && n[1] == NormalizeSkill(b) && n[2] == NormalizeSkill(c);
  }

  lemma NormalizeJs()
    ensures NormalizeSkill("js") == "javascript"
  {
    assert Lower(Strip("js")) == "js" by {
      TrimLeftStripped("js");
      TrimRightStripped("js");
    }
    JsIsAnAlias();
    NormalizeLooksUpAlias("js");
  }

  lemma NormalizeHtml()
    ensures NormalizeSkill("html") == "html"
  {
    HtmlNotAlias();
    CanonicalB();
    NormalizeFixesCanonical("html");
  }

  lemma NormalizeCss()
    ensures NormalizeSkill("css") == "css"
  {
    CssNotAlias();
    CanonicalC();
    NormalizeFixesCanonical("css");
  }

  /** The Web Developer entry against `["js", "html", "css"]`: half of its
      six skills are matched, so it scores 50 plus a bonus of 1.5. */
  lemma WebDeveloperScore()
    ensures JobSkillsMapping[1].title == "Web Developer"
    ensures Score(NormalizeAll(["js", "html", "css"]), JobSkillsMapping[1].required) == 51.5
  {
    WebDeveloperEntry();
    NormalizeWebList();
    WebDeveloperMatched();
    var user := NormalizeAll(["js", "html", "css"]);
    var required := JobSkillsMapping[1].required;
    assert Matched(user, required) == ["javascript", "html", "css"];
    ScoreOfCounts(user, required);
  }

  /** Three listed skills, all matched, against six required ones. */
  lemma ScoreOfCounts(user: seq<string>, required: seq<string>)
    requires |user| == 3 && |required| == 6 && |Matched(user, required)| == 3
    ensures Score(user, required) == 51.5
  {
  }

  lemma WebDeveloperEntry()
    ensures JobSkillsMapping[1] == Job("Web Developer",
      ["javascript", "html", "css", "web development", "api", "database"])
  {
  }

  lemma WebDeveloperMatched()
    ensures Matched(["javascript", "html", "css"],
      ["javascript", "html", "css", "web development", "api", "database"])
      == ["javascript", "html", "css"]
  {
  }
}
