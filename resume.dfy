/** `parse_resume_info`: the personal details picked out of the text of a
    resume by line-based heuristics and three searches. */
module ResumeParser {
  import opened Wrappers
  import opened Text
  import opened Seqs

  /** The fields of the result; `email` is a key that is present only when
      an address was found, so it is optional here. */
  datatype Profile = Profile(
    name: string,
    email: Option<string>,
    phone: string,
    linkedin: string,
    college: string,
    degree: string,
    age: string)

  /** A regular-expression search over a text: the text of the leftmost
      match, if there is one. The email and phone patterns are given as
      searches of this kind. */
  type Search = string -> Option<string>

  /** What every search of the email and phone patterns reports: a
      non-empty piece of the text it searched. */
  predicate Reports(search: Search, text: string) {
    search(text).Some? ==> search(text).value != [] && Contains(text, search(text).value)
  }

  // ---------------------------------------------------------------------
  // Phone: the patterns are tried in order, and the first hit is kept

  /** The match of the first search that finds something, or `''`. */
  function FirstHit(searches: seq<Search>, text: string): string
  {
    if searches == [] then ""
    else if searches[0](text).Some? then searches[0](text).value
    else FirstHit(searches[1..], text)
  }

  /** Search `k` is the first of the list to find something in `text`. */
  predicate FirstFinder(searches: seq<Search>, text: string, k: int) {
    && 0 <= k < |searches|
    && searches[k](text).Some?
    && forall j :: 0 <= j < k ==> searches[j](text).None?
  }

  /** The phone number is what the first successful pattern matched, and
      `''` when no pattern matches. */
  lemma {:induction false} FirstHitSpec(searches: seq<Search>, text: string)
    ensures forall k :: FirstFinder(searches, text, k) ==> FirstHit(searches, text) == searches[k](text).value
    ensures (forall j :: 0 <= j < |searches| ==> searches[j](text).None?) ==> FirstHit(searches, text) == ""
    ensures FirstHit(searches, text) == "" || exists k :: FirstFinder(searches, text, k)
  {
    if searches != [] {
      var rest := searches[1..];
      FirstHitSpec(rest, text);
      if searches[0](text).Some? {
        assert FirstFinder(searches, text, 0);
        forall k | FirstFinder(searches, text, k)
          ensures k == 0
        {
        }
      } else {
        forall k | FirstFinder(searches, text, k)
          ensures FirstHit(searches, text) == searches[k](text).value
        {
          assert rest[k - 1] == searches[k];
          assert FirstFinder(rest, text, k - 1);
        }
        if FirstHit(searches, text) != "" {
          var k :| FirstFinder(rest, text, k);
          assert FirstFinder(searches, text, k + 1);
        }
      }
    }
  }

  method FindPhone(patterns: seq<Search>, text: string) returns (phone: string)
    ensures phone == FirstHit(patterns, text)
  {
    phone := "";
    for i := 0 to |patterns|
      invariant phone == ""
      invariant FirstHit(patterns[i..], text) == FirstHit(patterns, text)
    {
      assert patterns[i..][0] == patterns[i];
      assert patterns[i..][1..] == patterns[i + 1..];
      var found := patterns[i](text);
      if found.Some? {
        phone := found.value;
        break;
      }
    }
  }

  // ---------------------------------------------------------------------
  // LinkedIn: `linkedin\.com/in/[\w-]+|linkedin\.com/pub/[\w-]+`, ignoring case

  const InPath: string := "linkedin.com/in/"
  const PubPath: string := "linkedin.com/pub/"

  /** `[\w-]`: a letter, a digit, `_` or `-`. */
  predicate IsUrlChar(c: char) {
    ('a' <= c <= 'z') || ('A' <= c <= 'Z') || ('0' <= c <= '9') || c == '_' || c == '-'
  }

  /** The length of the run of `[\w-]` characters that starts `s`. */
  function UrlRun(s: string): (n: nat)
    ensures n <= |s|
  {
    if s != [] && IsUrlChar(s[0]) then 1 + UrlRun(s[1..]) else 0
  }

  /** `s` starts with the lower-case literal `p`, ignoring case. */
  predicate StartsIgnoringCase(s: string, p: string) {
    |p| <= |s| && Lower(s[..|p|]) == p
  }

  /** Where a match of the pattern that starts at position `i` ends: the
      path is followed by the longest run of `[\w-]`, which must not be
      empty. */
  function ProfileEnd(t: string, i: nat): (e: Option<nat>)
    requires i <= |t|
    ensures e.Some? ==> i < e.value <= |t|
  {
    var s := t[i..];
    if StartsIgnoringCase(s, InPath) && UrlRun(s[|InPath|..]) > 0 then
      Some(i + |InPath| + UrlRun(s[|InPath|..]))
    else if StartsIgnoringCase(s, PubPath) && UrlRun(s[|PubPath|..]) > 0 then
      Some(i + |PubPath| + UrlRun(s[|PubPath|..]))
    else None
  }

  /** The leftmost match at or after position `i`, as a profile URL. */
  function LinkedInFrom(t: string, i: nat): string
    requires i <= |t|
    decreases |t| - i
  {
    var e := ProfileEnd(t, i);
    if e.Some? then "https://" + t[i..e.value]
    else if i == |t| then ""
    else LinkedInFrom(t, i + 1)
  }

  /** `'https://' + match.group()` for the leftmost match, or `''`. */
  function LinkedIn(t: string): string {
    LinkedInFrom(t, 0)
  }

  /** A match of the pattern starts at `k`, and none starts between `i`
      and `k`. */
  predicate LeftmostFrom(t: string, i: int, k: int) {
    && 0 <= i <= k <= |t|
    && ProfileEnd(t, k).Some?
    && forall j :: i <= j < k ==> ProfileEnd(t, j).None?
  }

  /** A match of the pattern starts at `k` and none starts earlier. */
  predicate LeftmostProfile(t: string, k: int) {
    LeftmostFrom(t, 0, k)
  }

  lemma {:induction false} LinkedInFromNone(t: string, i: nat)
    requires i <= |t|
    ensures LinkedInFrom(t, i) == "" <==> forall j :: i <= j <= |t| ==> ProfileEnd(t, j).None?
    decreases |t| - i
  {
    if ProfileEnd(t, i).None? && i < |t| {
      LinkedInFromNone(t, i + 1);
    }
  }

  lemma {:induction false} LinkedInFromSome(t: string, i: nat)
    requires i <= |t| && LinkedInFrom(t, i) != ""
    ensures exists k :: LeftmostFrom(t, i, k) && LinkedInFrom(t, i) == "https://" + t[k..ProfileEnd(t, k).value]
    decreases |t| - i
  {
    if ProfileEnd(t, i).Some? {
      assert LeftmostFrom(t, i, i);
    } else {
      LinkedInFromSome(t, i + 1);
      var k :| LeftmostFrom(t, i + 1, k) && LinkedInFrom(t, i + 1) == "https://" + t[k..ProfileEnd(t, k).value];
      assert LeftmostFrom(t, i, k);
    }
  }

  /** The LinkedIn field is `''` exactly when no profile path occurs in the
      text; otherwise it is `https://` followed by the leftmost match, which
      is taken from the text as written (in its own case). */
  lemma LinkedInSpec(t: string)
    ensures LinkedIn(t) == "" <==> forall j :: 0 <= j <= |t| ==> ProfileEnd(t, j).None?
    ensures LinkedIn(t) != "" ==>
      exists k :: LeftmostProfile(t, k) && LinkedIn(t) == "https://" + t[k..ProfileEnd(t, k).value]
  {
    LinkedInFromNone(t, 0);
    if LinkedIn(t) != "" {
      LinkedInFromSome(t, 0);
    }
  }

  /** A match is a profile path, ignoring case, followed by at least one
      `[\w-]` character, and it ends where that run ends. */
  lemma ProfileShape(t: string, i: nat)
    requires i <= |t| && ProfileEnd(t, i).Some?
    ensures var m := t[i..ProfileEnd(t, i).value];
      (StartsIgnoringCase(m, InPath) && |m| > |InPath|)
      || (StartsIgnoringCase(m, PubPath) && |m| > |PubPath|)
    ensures var e := ProfileEnd(t, i).value;
      e == |t| || !IsUrlChar(t[e])
  {
    var s := t[i..];
    var e := ProfileEnd(t, i).value;
    var m := t[i..e];
    if StartsIgnoringCase(s, InPath) && UrlRun(s[|InPath|..]) > 0 {
      assert m[..|InPath|] == s[..|InPath|];
      UrlRunEnds(s[|InPath|..]);
      assert e - i - |InPath| == UrlRun(s[|InPath|..]);
      if e < |t| {
        assert t[e] == s[|InPath|..][UrlRun(s[|InPath|..])];
      }
    } else {
      assert m[..|PubPath|] == s[..|PubPath|];
      UrlRunEnds(s[|PubPath|..]);
      if e < |t| {
        assert t[e] == s[|PubPath|..][UrlRun(s[|PubPath|..])];
      }
    }
  }

  /** The run is made of `[\w-]` and stops before the first other
      character. */
  lemma {:induction false} UrlRunEnds(s: string)
    ensures forall k :: 0 <= k < UrlRun(s) ==> IsUrlChar(s[k])
    ensures UrlRun(s) == |s| || !IsUrlChar(s[UrlRun(s)])
  {
    if s != [] && IsUrlChar(s[0]) {
      UrlRunEnds(s[1..]);
      forall k | 0 < k < UrlRun(s)
        ensures IsUrlChar(s[k])
      {
        assert s[k] == s[1..][k - 1];
      }
    }
  }

  // ---------------------------------------------------------------------
  // Name: the first of the first five lines that looks like a name

  const NameLines: nat := 5

  /** `\d{10}` matches at position `i`. */
  predicate TenDigitsAt(s: string, i: nat) {
    i + 10 <= |s| && forall k :: i <= k < i + 10 ==> IsDigit(s[k])
  }

  /** The search `@|\d{10}|linkedin|resume|cv`, ignoring case, finds
      something in the line. */
  predicate NameExcluded(line: string) {
    || '@' in line
    || (exists i: nat | i <= |line| :: TenDigitsAt(line, i))
    || Contains(Lower(line), "linkedin")
    || Contains(Lower(line), "resume")
    || Contains(Lower(line), "cv")
  }

  /** A stripped line that is accepted as the name. */
  predicate IsNameLine(line: string) {
    line != "" && !NameExcluded(line) && |SplitWords(line)| >= 2 && |line| < 50
  }

  /** The first line that, stripped, is accepted, stripped; or `''`. */
  function NameFrom(lines: seq<string>): string
  {
    if lines == [] then ""
    else
      var line := Strip(lines[0]);
      if IsNameLine(line) then line else NameFrom(lines[1..])
  }

  /** Line `k` is the first line whose stripped form is accepted. */
  predicate FirstNameLine(lines: seq<string>, k: int) {
    && 0 <= k < |lines|
    && IsNameLine(Strip(lines[k]))
    && forall j :: 0 <= j < k ==> !IsNameLine(Strip(lines[j]))
  }

  lemma {:induction false} NameFromSpec(lines: seq<string>)
    ensures NameFrom(lines) == "" <==> forall k :: 0 <= k < |lines| ==> !IsNameLine(Strip(lines[k]))
    ensures NameFrom(lines) != "" ==>
      exists k :: FirstNameLine(lines, k) && NameFrom(lines) == Strip(lines[k])
  {
    if lines != [] {
      var rest := lines[1..];
      NameFromSpec(rest);
      if IsNameLine(Strip(lines[0])) {
        assert FirstNameLine(lines, 0);
      } else {
        forall k | 0 < k < |lines|
          ensures Strip(lines[k]) == Strip(rest[k - 1])
        {
          assert lines[k] == rest[k - 1];
        }
        if NameFrom(lines) != "" {
          var k :| FirstNameLine(rest, k) && NameFrom(rest) == Strip(rest[k]);
          assert lines[k + 1] == rest[k];
          assert FirstNameLine(lines, k + 1);
        }
      }
    }
  }

  method FindName(lines: seq<string>) returns (name: string)
    ensures name == NameFrom(Take(lines, NameLines))
  {
    var head := Take(lines, NameLines);
    name := "";
    for i := 0 to |head|
      invariant name == ""
      invariant NameFrom(head[i..]) == NameFrom(head)
    {
      assert head[i..][0] == head[i];
      assert head[i..][1..] == head[i + 1..];
      var line := Strip(head[i]);
      if line != "" && !NameExcluded(line) {
        if |SplitWords(line)| >= 2 && |line| < 50 {
          name := line;
          break;
        }
      }
    }
  }

  // ---------------------------------------------------------------------
  // College and degree: the first line that mentions a keyword

  const EducationKeywords: seq<string> := ["university", "college", "institute", "school"]
  const DegreeKeywords: seq<string> :=
    ["bachelor", "master", "phd", "b.tech", "m.tech", "bca", "mca", "be", "me"]

  /** Some keyword occurs in `s` (a plain substring test). */
  predicate MentionsAny(s: string, keywords: seq<string>) {
    exists k :: 0 <= k < |keywords| && Contains(s, keywords[k])
  }

  /** The first line that mentions an education keyword, ignoring case,
      stripped; or `''`. */
  function CollegeFrom(lines: seq<string>): string
  {
    if lines == [] then ""
    else if MentionsAny(Lower(lines[0]), EducationKeywords) then Strip(lines[0])
    else CollegeFrom(lines[1..])
  }

  /** The degree named by a lower-cased line. */
  function DegreeOf(ll: string): string {
    if Contains(ll, "computer") || Contains(ll, "cs") then "Computer Science"
    else if Contains(ll, "engineering") || Contains(ll, "engineer") then "Engineering"
    else if Contains(ll, "business") || Contains(ll, "mba") then "Business Administration"
    else if Contains(ll, "data") then "Data Science"
    else if Contains(ll, "information") && Contains(ll, "technology") then "Information Technology"
    else ""
  }

  /** The degree read from the first line that mentions a degree keyword,
      ignoring case; `''` when there is none, or when that line names no
      known degree. */
  function DegreeFrom(lines: seq<string>): string
  {
    if lines == [] then ""
    else
      var ll := Lower(lines[0]);
      if MentionsAny(ll, DegreeKeywords) then DegreeOf(ll) else DegreeFrom(lines[1..])
  }

  /** Line `k` is the first line that mentions one of the keywords, ignoring
      case. */
  predicate FirstMention(lines: seq<string>, keywords: seq<string>, k: int) {
    && 0 <= k < |lines|
    && MentionsAny(Lower(lines[k]), keywords)
    && forall j :: 0 <= j < k ==> !MentionsAny(Lower(lines[j]), keywords)
  }

  /** The college is the first line that mentions an education keyword,
      stripped, and `''` when no line does. */
  lemma {:induction false} CollegeFromSpec(lines: seq<string>)
    ensures forall k :: FirstMention(lines, EducationKeywords, k) ==> CollegeFrom(lines) == Strip(lines[k])
    ensures (forall k :: 0 <= k < |lines| ==> !MentionsAny(Lower(lines[k]), EducationKeywords)) ==>
      CollegeFrom(lines) == ""
  {
    if lines != [] {
      var rest := lines[1..];
      CollegeFromSpec(rest);
      if !MentionsAny(Lower(lines[0]), EducationKeywords) {
        forall k | FirstMention(lines, EducationKeywords, k)
          ensures CollegeFrom(lines) == Strip(lines[k])
        {
          assert FirstMention(rest, EducationKeywords, k - 1) by {
            forall j | 0 <= j < k - 1
              ensures !MentionsAny(Lower(rest[j]), EducationKeywords)
            {
              assert rest[j] == lines[j + 1];
            }
          }
        }
        if forall k :: 0 <= k < |lines| ==> !MentionsAny(Lower(lines[k]), EducationKeywords) {
          forall k | 0 <= k < |rest|
            ensures !MentionsAny(Lower(rest[k]), EducationKeywords)
          {
            assert rest[k] == lines[k + 1];
          }
        }
      } else {
        forall k | FirstMention(lines, EducationKeywords, k)
          ensures k == 0
        {
        }
      }
    }
  }

  /** Degree scanning stops at the first line that mentions a degree
      keyword: that line alone decides, even when it names no known degree
      and a later line would; without such a line the degree is `''`. */
  lemma {:induction false} DegreeFromSpec(lines: seq<string>)
    ensures forall k :: FirstMention(lines, DegreeKeywords, k) ==>
      DegreeFrom(lines) == DegreeOf(Lower(lines[k]))
    ensures (forall k :: 0 <= k < |lines| ==> !MentionsAny(Lower(lines[k]), DegreeKeywords)) ==>
      DegreeFrom(lines) == ""
  {
    if lines != [] {
      var rest := lines[1..];
      DegreeFromSpec(rest);
      if !MentionsAny(Lower(lines[0]), DegreeKeywords) {
        forall k | FirstMention(lines, DegreeKeywords, k)
          ensures DegreeFrom(lines) == DegreeOf(Lower(lines[k]))
        {
          assert FirstMention(rest, DegreeKeywords, k - 1) by {
            forall j | 0 <= j < k - 1
              ensures !MentionsAny(Lower(rest[j]), DegreeKeywords)
            {
              assert rest[j] == lines[j + 1];
            }
          }
        }
        if forall k :: 0 <= k < |lines| ==> !MentionsAny(Lower(lines[k]), DegreeKeywords) {
          forall k | 0 <= k < |rest|
            ensures !MentionsAny(Lower(rest[k]), DegreeKeywords)
          {
            assert rest[k] == lines[k + 1];
          }
        }
      } else {
        forall k | FirstMention(lines, DegreeKeywords, k)
          ensures k == 0
        {
        }
      }
    }
  }

  /** Every occurrence of a pattern is an occurrence of its prefixes. */
  lemma ContainsPrefix(s: string, p: string, n: nat)
    requires n <= |p| && Contains(s, p)
    ensures Contains(s, p[..n])
  {
    var i: nat :| i <= |s| && OccursAt(s, p, i);
    assert s[i..i + n] == p[..n];
    assert OccursAt(s, p[..n], i);
  }

  /** The degree is one of five names or `''`; since "engineering" contains
      "engineer", the "engineering" test never decides anything, and a line
      is read as Engineering exactly when it mentions "engineer" and none of
      the Computer Science words. */
  lemma DegreeOfSpec(ll: string)
    ensures DegreeOf(ll) in {"", "Computer Science", "Engineering",
      "Business Administration", "Data Science", "Information Technology"}
    ensures DegreeOf(ll) == "Engineering" <==>
      !Contains(ll, "computer") && !Contains(ll, "cs") && Contains(ll, "engineer")
  {
    if Contains(ll, "engineering") {
      ContainsPrefix(ll, "engineering", 8);
      assert "engineering"[..8] == "engineer";
    }
  }

  /** `be` and `me` are plain substrings: a line reading "Member" stops
      the degree scan, and since it names no degree the degree stays `''`
      whatever the following lines say. */
  lemma MemberStopsDegreeScan(next: string)
    ensures DegreeFrom(["Member", next]) == ""
  {
    LowerMember();
    assert OccursAt("member", "me", 0);
    assert Contains("member", DegreeKeywords[8]);
    MemberNamesNoDegree();
  }

  lemma LowerMember()
    ensures Lower("Member") == "member"
  {
  }

  /** "member" contains none of the degree names' words. */
  lemma MemberNamesNoDegree()
    ensures DegreeOf("member") == ""
  {
    var ll := "member";
    MissingChar(ll, "computer", 0);
    MissingChar(ll, "cs", 0);
    MissingChar(ll, "engineering", 1);
    MissingChar(ll, "engineer", 1);
    MissingChar(ll, "business", 1);
    MissingChar(ll, "mba", 2);
    MissingChar(ll, "data", 0);
    MissingChar(ll, "information", 0);
  }

  method FindCollege(lines: seq<string>) returns (college: string)
    ensures college == CollegeFrom(lines)
  {
    college := "";
    for i := 0 to |lines|
      invariant college == ""
      invariant CollegeFrom(lines[i..]) == CollegeFrom(lines)
    {
      assert lines[i..][0] == lines[i];
      assert lines[i..][1..] == lines[i + 1..];
      if MentionsAny(Lower(lines[i]), EducationKeywords) {
        college := Strip(lines[i]);
        break;
      }
    }
  }

  method FindDegree(lines: seq<string>) returns (degree: string)
    ensures degree == DegreeFrom(lines)
  {
    degree := "";
    for i := 0 to |lines|
      invariant degree == ""
      invariant DegreeFrom(lines[i..]) == DegreeFrom(lines)
    {
      assert lines[i..][0] == lines[i];
      assert lines[i..][1..] == lines[i + 1..];
      var lineLower := Lower(lines[i]);
      if MentionsAny(lineLower, DegreeKeywords) {
        degree := DegreeOf(lineLower);
        break;
      }
    }
  }

  // ---------------------------------------------------------------------
  // The whole record

  /** The record for a resume text, given the email search and the phone
      searches in the order they are tried. */
  function ParseResume(text: string, email: Search, phones: seq<Search>): Profile
  {
    var lines := SplitOn(text, '\n');
    Profile(
      NameFrom(Take(lines, NameLines)),
      email(text),
      FirstHit(phones, text),
      LinkedIn(text),
      CollegeFrom(lines),
      DegreeFrom(lines),
      "")
  }

  /** `parse_resume_info`: the fields start empty and are filled one after
      the other. */
  method ParseResumeInfo(text: string, email: Search, phones: seq<Search>) returns (info: Profile)
    ensures info == ParseResume(text, email, phones)
  {
    info := Profile("", None, "", "", "", "", "");
    var found := email(text);
    if found.Some? {
      info := info.(email := Some(found.value));
    }
    var phone := FindPhone(phones, text);
    info := info.(phone := phone);
    var url := LinkedIn(text);
    if url != "" {
      info := info.(linkedin := url);
    }
    var lines := SplitOn(text, '\n');
    var name := FindName(lines);
    info := info.(name := name);
    var college := FindCollege(lines);
    info := info.(college := college);
    var degree := FindDegree(lines);
    info := info.(degree := degree);
  }

  /** The name comes from the first five lines only; it is stripped, has
      at least two words and fewer than 50 characters, and has no `@`, no
      run of ten digits and no "linkedin", "resume" or "cv" in any case;
      every earlier line among the five was rejected. */
  lemma NameSpec(text: string, email: Search, phones: seq<Search>)
    ensures var lines := Take(SplitOn(text, '\n'), NameLines);
      var name := ParseResume(text, email, phones).name;
      && |lines| <= NameLines
      && (name == "" <==> forall k :: 0 <= k < |lines| ==> !IsNameLine(Strip(lines[k])))
      && (name != "" ==> exists k :: FirstNameLine(lines, k) && name == Strip(lines[k]))
    ensures var name := ParseResume(text, email, phones).name;
      name != "" ==> IsStripped(name) && IsNameLine(name)
  {
    var lines := Take(SplitOn(text, '\n'), NameLines);
    NameFromSpec(lines);
    var name := NameFrom(lines);
    if name != "" {
      var k :| FirstNameLine(lines, k) && name == Strip(lines[k]);
      StripFixesStripped(lines[k]);
    }
  }

  /** An empty resume gives every field `''` and no email key. */
  lemma EmptyResume(email: Search, phones: seq<Search>)
    requires Reports(email, "")
    requires forall j :: 0 <= j < |phones| ==> Reports(phones[j], "")
    ensures ParseResume("", email, phones) == Profile("", None, "", "", "", "", "")
  {
    var lines := SplitOn("", '\n');
    assert lines == [""];
    assert Take(lines, NameLines) == [""];
    assert Lower("") == "";
    assert Strip("") == "";
    assert !IsNameLine("");
    assert NameFrom([""]) == "";
    assert !MentionsAny("", EducationKeywords);
    assert !MentionsAny("", DegreeKeywords);
    FirstHitSpec(phones, "");
    assert ProfileEnd("", 0).None?;
  }
}
