/** The internship service (src/services/internshipService.ts): match scores,
    the ranked list of matches and the skill-gap analysis. The catalog that
    `getAllInternships` returns after a simulated delay is a parameter here. */
module InternshipService {
  import opened Text
  import opened Seqs
  import opened Sorting

  datatype Internship = Internship(
    id: int,
    title: string,
    company: string,
    location: string,
    requiredSkills: seq<string>,
    description: string,
    applicationUrl: string)

  /** The catalog that `getAllInternships` serves. */
  const MockInternships: seq<Internship> := [
    Internship(1, "Frontend Developer Intern", "TechCorp", "San Francisco, CA (Remote)",
      ["javascript", "react", "html", "css", "git"],
      "Join our team to build modern web applications with React.", "https://example.com/apply"),
    Internship(2, "Backend Developer Intern", "DataSystems", "New York, NY",
      ["python", "django", "sql", "api development", "git"],
      "Work on our backend services and APIs using Python and Django.", "https://example.com/apply"),
    Internship(3, "Full Stack Developer Intern", "WebSolutions", "Austin, TX (Remote)",
      ["javascript", "react", "node.js", "express", "mongodb"],
      "Develop full stack applications using the MERN stack.", "https://example.com/apply"),
    Internship(4, "Data Science Intern", "AnalyticsPro", "Seattle, WA",
      ["python", "sql", "machine learning", "data analysis", "pandas"],
      "Apply machine learning techniques to real-world problems.", "https://example.com/apply"),
    Internship(5, "Mobile Developer Intern", "AppWorks", "Los Angeles, CA",
      ["react native", "javascript", "mobile development", "api integration"],
      "Build cross-platform mobile applications with React Native.", "https://example.com/apply"),
    Internship(6, "DevOps Intern", "CloudTech", "Chicago, IL (Remote)",
      ["aws", "docker", "kubernetes", "ci/cd", "linux"],
      "Help automate our deployment pipeline and infrastructure.", "https://example.com/apply"),
    Internship(7, "UI/UX Design Intern", "DesignHub", "Boston, MA",
      ["figma", "ui/ux", "responsive design", "wireframing", "user research"],
      "Design intuitive and beautiful user interfaces for web and mobile apps.", "https://example.com/apply"),
    Internship(8, "Machine Learning Intern", "AILabs", "San Diego, CA",
      ["python", "machine learning", "deep learning", "tensorflow", "numpy"],
      "Implement and optimize machine learning models for our products.", "https://example.com/apply")
  ]

  /** Every skill of the list lower-cased, in the same order. */
  function LowerAll(skills: seq<string>): seq<string> {
    Map(skills, Lower)
  }

  // ---------------------------------------------------------------------------
  // calculateMatchScore

  /** The required skills (already lower-cased) that occur, by exact equality,
      among the lower-cased user skills; duplicates among the required skills
      are kept. */
  function MatchingSkills(normalizedUser: seq<string>, normalizedRequired: seq<string>): (r: seq<string>)
    ensures |r| <= |normalizedRequired|
    ensures forall x :: x in r ==> x in normalizedUser && x in normalizedRequired
    ensures forall x :: multiset(r)[x] == if x in normalizedUser then multiset(normalizedRequired)[x] else 0
  {
    if normalizedRequired == [] then []
    else
      assert normalizedRequired == [normalizedRequired[0]] + normalizedRequired[1..];
      (if normalizedRequired[0] in normalizedUser then [normalizedRequired[0]] else [])
      + MatchingSkills(normalizedUser, normalizedRequired[1..])
  }

  lemma MulMonotone(c: nat, x: int, y: int)
    requires x <= y
    ensures c * x <= c * y
  {
  }

  lemma MulCancel(c: nat, x: int, y: int)
    requires c * x < c * y
    ensures x < y
  {
  }

  lemma DivBounds(x: nat, d: nat)
    requires 0 < d
    ensures d * (x / d) <= x < d * (x / d + 1)
  {
    assert d * (x / d + 1) == d * (x / d) + d;
  }

  /** The percentage of `m` out of `n` rounded to the nearest whole number,
      computed on exact rationals: `p` is the integer with `p - 1/2 <= 100 * m / n < p + 1/2`, so halves round up. */
  function RoundedPercentage(m: nat, n: nat): (p: nat)
    requires 0 < n
    ensures 2 * n * p <= 200 * m + n < 2 * n * (p + 1)
    ensures m <= n ==> p <= 100
  {
    var q := (200 * m + n) / (2 * n);
    DivBounds(200 * m + n, 2 * n);
    assert m <= n ==> q <= 100 by {
      if m <= n {
        MulCancel(2 * n, q, 101);
      }
    }
    q
  }

  lemma RoundedPercentageMonotone(m1: nat, m2: nat, n: nat)
    requires 0 < n && m1 <= m2
    ensures RoundedPercentage(m1, n) <= RoundedPercentage(m2, n)
  {
    var p1, p2 := RoundedPercentage(m1, n), RoundedPercentage(m2, n);
    if p1 > p2 {
      MulMonotone(2 * n, p2 + 1, p1);
    }
  }

  lemma RoundedPercentageFull(n: nat)
    requires 0 < n
    ensures RoundedPercentage(n, n) == 100
  {
    var p := RoundedPercentage(n, n);
    if p < 100 {
      MulMonotone(2 * n, p + 1, 100);
    }
  }

  /** `calculateMatchScore(userSkills, requiredSkills)` */
  function CalculateMatchScore(userSkills: seq<string>, requiredSkills: seq<string>): (score: nat)
    ensures score <= 100
    ensures requiredSkills == [] ==> score == 0
    ensures requiredSkills != [] ==>
      var m, n := |MatchingSkills(LowerAll(userSkills), LowerAll(requiredSkills))|, |requiredSkills|;
      2 * n * score <= 200 * m + n < 2 * n * (score + 1)
  {
    if |requiredSkills| == 0 then 0
    else
      var normalizedUser := LowerAll(userSkills);
      var normalizedRequired := LowerAll(requiredSkills);
      var matching := MatchingSkills(normalizedUser, normalizedRequired);
      RoundedPercentage(|matching|, |normalizedRequired|)
  }

  lemma {:induction false} MatchingMonotone(u1: seq<string>, u2: seq<string>, req: seq<string>)
    requires forall x :: x in u1 ==> x in u2
    ensures |MatchingSkills(u1, req)| <= |MatchingSkills(u2, req)|
  {
    if req != [] {
      MatchingMonotone(u1, u2, req[1..]);
    }
  }

  lemma {:induction false} MatchingAll(u: seq<string>, req: seq<string>)
    requires forall x :: x in req ==> x in u
    ensures |MatchingSkills(u, req)| == |req|
  {
    if req != [] {
      MatchingAll(u, req[1..]);
    }
  }

  /** A score only depends on which lower-cased skills the user holds. */
  lemma ScoreBySkillSet(u1: seq<string>, u2: seq<string>, req: seq<string>)
    requires forall x :: x in LowerAll(u1) ==> x in LowerAll(u2)
    ensures CalculateMatchScore(u1, req) <= CalculateMatchScore(u2, req)
  {
    if req != [] {
      MatchingMonotone(LowerAll(u1), LowerAll(u2), LowerAll(req));
      RoundedPercentageMonotone(
        |MatchingSkills(LowerAll(u1), LowerAll(req))|,
        |MatchingSkills(LowerAll(u2), LowerAll(req))|, |req|);
    }
  }

  /** Adding user skills never lowers a score. */
  lemma ScoreMonotone(userSkills: seq<string>, extra: seq<string>, req: seq<string>)
    ensures CalculateMatchScore(userSkills, req) <= CalculateMatchScore(userSkills + extra, req)
  {
    MapAppend(userSkills, extra, Lower);
    ScoreBySkillSet(userSkills, userSkills + extra, req);
  }

  /** Repeating a user skill does not change a score. */
  lemma ScoreIgnoresDuplicates(userSkills: seq<string>, i: nat, req: seq<string>)
    requires i < |userSkills|
    ensures CalculateMatchScore(userSkills + [userSkills[i]], req) == CalculateMatchScore(userSkills, req)
  {
    var longer := userSkills + [userSkills[i]];
    MapAppend(userSkills, [userSkills[i]], Lower);
    assert LowerAll(longer)[|userSkills|] == LowerAll(userSkills)[i];
    ScoreBySkillSet(userSkills, longer, req);
    ScoreBySkillSet(longer, userSkills, req);
  }

  /** Changing the letter case of any user or required skill changes nothing. */
  lemma ScoreCaseInsensitive(u1: seq<string>, u2: seq<string>, r1: seq<string>, r2: seq<string>)
    requires |u1| == |u2| && forall i :: 0 <= i < |u1| ==> Lower(u1[i]) == Lower(u2[i])
    requires |r1| == |r2| && forall i :: 0 <= i < |r1| ==> Lower(r1[i]) == Lower(r2[i])
    ensures CalculateMatchScore(u1, r1) == CalculateMatchScore(u2, r2)
  {
    assert LowerAll(u1) == LowerAll(u2);
    assert LowerAll(r1) == LowerAll(r2);
  }

  /** Holding every required skill gives 100. */
  lemma ScoreFullMatch(userSkills: seq<string>, req: seq<string>)
    requires req != []
    requires forall j :: 0 <= j < |req| ==> Lower(req[j]) in LowerAll(userSkills)
    ensures CalculateMatchScore(userSkills, req) == 100
  {
    var u, r := LowerAll(userSkills), LowerAll(req);
    forall x | x in r ensures x in u {
      var j :| 0 <= j < |r| && r[j] == x;
    }
    MatchingAll(u, r);
    RoundedPercentageFull(|req|);
  }

  /** Matching is exact equality, not substring containment. */
  lemma ScoreIsExactMatch()
    ensures CalculateMatchScore(["Java"], ["javascript"]) == 0
  {
    var u, r := LowerAll(["Java"]), LowerAll(["javascript"]);
    assert |u| == 1 && |u[0]| == 4;
    assert |r| == 1 && |r[0]| == 10;
    assert r[0] !in u;
    assert MatchingSkills(u, r) == [];
  }

  // ---------------------------------------------------------------------------
  // getMatchedInternships

  datatype MatchResult = MatchResult(internship: Internship, matchScore: nat)

  function MatchScoreOf(m: MatchResult): int { m.matchScore }

  function InternshipOf(m: MatchResult): Internship { m.internship }

  /** Each catalog internship paired with its match score, in catalog order. */
  function ScoreAll(userSkills: seq<string>, internships: seq<Internship>): seq<MatchResult> {
    Map(internships, (i: Internship) => MatchResult(i, CalculateMatchScore(userSkills, i.requiredSkills)))
  }

  /** `getMatchedInternships(userSkills)` over the catalog `internships`. */
  function GetMatchedInternships(userSkills: seq<string>, internships: seq<Internship>): seq<MatchResult> {
    SortDesc(ScoreAll(userSkills, internships), MatchScoreOf)
  }

  /** Scoring keeps the catalog and pairs each internship with its own score. */
  lemma ScoreAllFacts(userSkills: seq<string>, internships: seq<Internship>)
    ensures Map(ScoreAll(userSkills, internships), InternshipOf) == internships
    ensures forall m :: m in ScoreAll(userSkills, internships) ==>
      m.matchScore == CalculateMatchScore(userSkills, m.internship.requiredSkills)
  {
  }

  /** Every catalog internship appears exactly once, paired with its own score. */
  lemma GetMatchedInternshipsPermutes(userSkills: seq<string>, internships: seq<Internship>)
    ensures var r := GetMatchedInternships(userSkills, internships);
      && |r| == |internships|
      && multiset(Map(r, InternshipOf)) == multiset(internships)
      && (forall k :: 0 <= k < |r| ==>
            r[k].matchScore == CalculateMatchScore(userSkills, r[k].internship.requiredSkills))
  {
    var scored := ScoreAll(userSkills, internships);
    var r := SortDesc(scored, MatchScoreOf);
    ScoreAllFacts(userSkills, internships);
    SortDescLength(scored, MatchScoreOf);
    SortDescPermutes(scored, MatchScoreOf);
    SortDescPermutesMap(scored, MatchScoreOf, InternshipOf);
    forall k | 0 <= k < |r|
      ensures r[k].matchScore == CalculateMatchScore(userSkills, r[k].internship.requiredSkills)
    {
      assert r[k] in multiset(scored);
    }
  }

  /** Scores never increase along the list, and equal scores keep catalog order. */
  lemma GetMatchedInternshipsOrdered(userSkills: seq<string>, internships: seq<Internship>)
    ensures var r := GetMatchedInternships(userSkills, internships);
      && (forall i, j :: 0 <= i < j < |r| ==> r[i].matchScore >= r[j].matchScore)
      && (forall score ::
            WithKey(r, MatchScoreOf, score) == WithKey(ScoreAll(userSkills, internships), MatchScoreOf, score))
  {
    var scored := ScoreAll(userSkills, internships);
    SortDescSorted(scored, MatchScoreOf);
    forall score ensures WithKey(SortDesc(scored, MatchScoreOf), MatchScoreOf, score) == WithKey(scored, MatchScoreOf, score) {
      SortDescStable(scored, MatchScoreOf, score);
    }
  }

  // ---------------------------------------------------------------------------
  // analyzeSkillGaps

  datatype Importance = High | Medium | Low

  datatype SkillGap = SkillGap(skill: string, importance: Importance)

  /** One row of the occurrence table with its label, before the count is dropped. */
  datatype SkillCount = SkillCount(skill: string, count: nat, importance: Importance)

  /** The label of a count: High from 4 occurrences, Medium from 2, Low below. */
  function ImportanceFor(count: nat): Importance {
    if count >= 4 then High else if count >= 2 then Medium else Low
  }

  /** The order of the labels: High above Medium above Low. */
  function Rank(i: Importance): nat {
    match i
    case High => 2
    case Medium => 1
    case Low => 0
  }

  function CountOf(e: SkillCount): int { e.count }

  function GapOf(e: SkillCount): SkillGap { SkillGap(e.skill, e.importance) }

  function SkillOf(e: SkillCount): string { e.skill }

  function EntryFor(skill: string, count: nat): SkillCount {
    SkillCount(skill, count, ImportanceFor(count))
  }

  /** Every required skill of the catalog, lower-cased, in the order the nested
      `forEach` loops visit them. */
  function DemandedSkills(internships: seq<Internship>): seq<string> {
    if internships == [] then []
    else
      var init := internships[..|internships| - 1];
      DemandedSkills(init) + LowerAll(internships[|internships| - 1].requiredSkills)
  }

  /** The visited skills that the user does not hold. */
  function Missing(normalizedUser: seq<string>, visited: seq<string>): seq<string> {
    if visited == [] then []
    else
      var init, last := visited[..|visited| - 1], visited[|visited| - 1];
      Missing(normalizedUser, init) + (if last in normalizedUser then [] else [last])
  }

  /** How many times the catalog asks for `skill` (already lower-cased). */
  function Occurrences(internships: seq<Internship>, skill: string): nat {
    multiset(DemandedSkills(internships))[skill]
  }

  /** The labelled entries of the occurrence table, in first-occurrence order. */
  function GapTable(userSkills: seq<string>, internships: seq<Internship>): seq<SkillCount> {
    var missing := Missing(LowerAll(userSkills), DemandedSkills(internships));
    Map(Dedup(missing), (k: string) => EntryFor(k, multiset(missing)[k]))
  }

  /** The table entries sorted by count (the list before `slice(0, 10)`). */
  function RankedGaps(userSkills: seq<string>, internships: seq<Internship>): seq<SkillCount> {
    SortDesc(GapTable(userSkills, internships), CountOf)
  }

  /** What `analyzeSkillGaps(userSkills)` resolves to over the catalog `internships`. */
  function SkillGapsOf(userSkills: seq<string>, internships: seq<Internship>): seq<SkillGap> {
    TopGaps(RankedGaps(userSkills, internships))
  }

  /** The first ten ranked rows (or all, when fewer), each without its count. */
  function TopGaps(ranked: seq<SkillCount>): (gaps: seq<SkillGap>)
    ensures |gaps| == if |ranked| < 10 then |ranked| else 10
    ensures forall k :: 0 <= k < |gaps| ==> gaps[k] == GapOf(ranked[k])
  {
    Map(ranked[..if |ranked| < 10 then |ranked| else 10], GapOf)
  }

  /** `keys` lists the distinct skills of `missing` in first-occurrence
      order and `counts` maps each of them to its number of occurrences. */
  ghost predicate TableOf(missing: seq<string>, keys: seq<string>, counts: map<string, nat>) {
    && keys == Dedup(missing)
    && (forall k :: k in counts <==> k in missing)
    && (forall k :: k in counts ==> counts[k] == multiset(missing)[k])
  }

  ghost predicate Tallied(normalizedUser: seq<string>, visited: seq<string>, keys: seq<string>, counts: map<string, nat>) {
    TableOf(Missing(normalizedUser, visited), keys, counts)
  }

  lemma MissingSnoc(normalizedUser: seq<string>, visited: seq<string>, s: string)
    ensures Missing(normalizedUser, visited + [s])
         == Missing(normalizedUser, visited) + (if s in normalizedUser then [] else [s])
  {
    assert (visited + [s])[..|visited|] == visited;
  }

  lemma CountAgain(missing: seq<string>, counts: map<string, nat>, s: string)
    requires forall k :: k in counts ==> counts[k] == multiset(missing)[k]
    requires s in counts
    ensures forall k :: k in counts[s := counts[s] + 1] ==>
      counts[s := counts[s] + 1][k] == multiset(missing + [s])[k]
  {
    assert multiset(missing + [s]) == multiset(missing) + multiset{s};
  }

  /** One more occurrence of a listed skill increments its count. */
  lemma TableOfAgain(missing: seq<string>, keys: seq<string>, counts: map<string, nat>, s: string)
    requires TableOf(missing, keys, counts) && s in counts
    ensures TableOf(missing + [s], keys, counts[s := counts[s] + 1])
  {
    assert s in missing;
    DedupSnoc(missing, s);
    CountAgain(missing, counts, s);
  }

  lemma CountNew(missing: seq<string>, counts: map<string, nat>, s: string)
    requires forall k :: k in counts ==> counts[k] == multiset(missing)[k]
    requires s !in missing
    ensures forall k :: k in counts[s := 1] ==> counts[s := 1][k] == multiset(missing + [s])[k]
  {
    assert multiset(missing + [s]) == multiset(missing) + multiset{s};
  }

  /** A first occurrence appends a new key with count 1. */
  lemma TableOfNew(missing: seq<string>, keys: seq<string>, counts: map<string, nat>, s: string)
    requires TableOf(missing, keys, counts) && s !in counts
    ensures TableOf(missing + [s], keys + [s], counts[s := 1])
  {
    assert s !in missing;
    DedupSnoc(missing, s);
    CountNew(missing, counts, s);
  }

  /** Visiting a skill the user holds leaves the table as it is. */
  lemma TallyHeld(normalizedUser: seq<string>, visited: seq<string>, keys: seq<string>, counts: map<string, nat>, s: string)
    requires Tallied(normalizedUser, visited, keys, counts) && s in normalizedUser
    ensures Tallied(normalizedUser, visited + [s], keys, counts)
  {
    var missing := Missing(normalizedUser, visited);
    MissingSnoc(normalizedUser, visited, s);
    assert missing + [] == missing;
    assert Missing(normalizedUser, visited + [s]) == missing;
  }

  /** Visiting a missing skill already in the table increments its count. */
  lemma TallyAgain(normalizedUser: seq<string>, visited: seq<string>, keys: seq<string>, counts: map<string, nat>, s: string)
    requires Tallied(normalizedUser, visited, keys, counts) && s !in normalizedUser && s in counts
    ensures Tallied(normalizedUser, visited + [s], keys, counts[s := counts[s] + 1])
  {
    MissingSnoc(normalizedUser, visited, s);
    TableOfAgain(Missing(normalizedUser, visited), keys, counts, s);
  }

  /** Visiting a missing skill seen for the first time appends a new key with count 1. */
  lemma TallyNew(normalizedUser: seq<string>, visited: seq<string>, keys: seq<string>, counts: map<string, nat>, s: string)
    requires Tallied(normalizedUser, visited, keys, counts) && s !in normalizedUser && s !in counts
    ensures Tallied(normalizedUser, visited + [s], keys + [s], counts[s := 1])
  {
    MissingSnoc(normalizedUser, visited, s);
    TableOfNew(Missing(normalizedUser, visited), keys, counts, s);
  }

  /** One labelled row per key of the occurrence table, in key order. */
  function TableEntries(keys: seq<string>, counts: map<string, nat>): (r: seq<SkillCount>)
    requires forall k :: k in keys ==> k in counts
    ensures |r| == |keys|
    ensures forall i :: 0 <= i < |keys| ==> r[i] == EntryFor(keys[i], counts[keys[i]])
  {
    seq(|keys|, i requires 0 <= i < |keys| => EntryFor(keys[i], counts[keys[i]]))
  }

  lemma TalliedEntries(normalizedUser: seq<string>, visited: seq<string>, keys: seq<string>, counts: map<string, nat>)
    requires Tallied(normalizedUser, visited, keys, counts)
    ensures forall k :: k in keys ==> k in counts
    ensures var missing := Missing(normalizedUser, visited);
      TableEntries(keys, counts) == Map(Dedup(missing), (k: string) => EntryFor(k, multiset(missing)[k]))
  {
  }

  lemma DemandedSnoc(internships: seq<Internship>, i: nat)
    requires i < |internships|
    ensures DemandedSkills(internships[..i + 1])
         == DemandedSkills(internships[..i]) + LowerAll(internships[i].requiredSkills)
  {
    assert internships[..i + 1][..i] == internships[..i];
  }

  /** One visit of the loop body: a skill the user lacks gets its count
      incremented, or is appended as a new key with count 1. */
  function TallyVisit(normalizedUser: seq<string>, table: (seq<string>, map<string, nat>), s: string)
    : (seq<string>, map<string, nat>)
  {
    var (keys, counts) := table;
    if s in normalizedUser then table
    else if s in counts then (keys, counts[s := counts[s] + 1])
    else (keys + [s], counts[s := 1])
  }

  /** The table after visiting `visited` in order, starting from an empty one. */
  function Tally(normalizedUser: seq<string>, visited: seq<string>): (seq<string>, map<string, nat>) {
    if visited == [] then ([], map[])
    else TallyVisit(normalizedUser, Tally(normalizedUser, visited[..|visited| - 1]), visited[|visited| - 1])
  }

  lemma TallySnoc(normalizedUser: seq<string>, visited: seq<string>, s: string)
    ensures Tally(normalizedUser, visited + [s]) == TallyVisit(normalizedUser, Tally(normalizedUser, visited), s)
  {
    assert (visited + [s])[..|visited|] == visited;
  }

  /** The table built visit by visit is the de-duplicated missing skills with their counts. */
  lemma {:induction false} TallyCorrect(normalizedUser: seq<string>, visited: seq<string>)
    ensures Tallied(normalizedUser, visited, Tally(normalizedUser, visited).0, Tally(normalizedUser, visited).1)
  {
    if visited != [] {
      var init, s := visited[..|visited| - 1], visited[|visited| - 1];
      assert visited == init + [s];
      TallyCorrect(normalizedUser, init);
      var (keys, counts) := Tally(normalizedUser, init);
      if s in normalizedUser {
        TallyHeld(normalizedUser, init, keys, counts, s);
      } else if s in counts {
        TallyAgain(normalizedUser, init, keys, counts, s);
      } else {
        TallyNew(normalizedUser, init, keys, counts, s);
      }
    }
  }

  lemma LowerAllStep(before: seq<string>, required: seq<string>, j: nat)
    requires j < |required|
    ensures before + LowerAll(required[..j + 1]) == (before + LowerAll(required[..j])) + [Lower(required[j])]
  {
    assert required[..j + 1] == required[..j] + [required[j]];
    MapAppend(required[..j], [required[j]], Lower);
  }

  /** The inner `forEach` of `analyzeSkillGaps`: visits one internship's
      required skills and updates the occurrence table in place. */
  method TallyRequired(normalizedUser: seq<string>, required: seq<string>, ghost before: seq<string>,
                       keys0: seq<string>, counts0: map<string, nat>)
    returns (keys: seq<string>, counts: map<string, nat>)
    requires (keys0, counts0) == Tally(normalizedUser, before)
    ensures (keys, counts) == Tally(normalizedUser, before + LowerAll(required))
  {
    keys, counts := keys0, counts0;
    var j := 0;
    ghost var visited := before;
    assert before + LowerAll(required[..j]) == before;
    while j < |required|
      invariant 0 <= j <= |required|
      invariant visited == before + LowerAll(required[..j])
      invariant (keys, counts) == Tally(normalizedUser, visited)
    {
      var normalizedSkill := Lower(required[j]);
      TallySnoc(normalizedUser, visited, normalizedSkill);
      LowerAllStep(before, required, j);
      visited := visited + [normalizedSkill];
      if normalizedSkill !in normalizedUser {
        if normalizedSkill in counts {
          counts := counts[normalizedSkill := counts[normalizedSkill] + 1];
        } else {
          keys := keys + [normalizedSkill];
          counts := counts[normalizedSkill := 1];
        }
      }
      j := j + 1;
    }
    assert required[..j] == required;
  }

  /** The outer `forEach` of `analyzeSkillGaps`, which fills the occurrence
      table `skillOccurrences` in place, internship by internship. */
  method TallyOccurrences(normalizedUser: seq<string>, internships: seq<Internship>)
    returns (keys: seq<string>, counts: map<string, nat>)
    ensures (keys, counts) == Tally(normalizedUser, DemandedSkills(internships))
  {
    keys, counts := [], map[];
    var i := 0;
    while i < |internships|
      invariant 0 <= i <= |internships|
      invariant (keys, counts) == Tally(normalizedUser, DemandedSkills(internships[..i]))
    {
      keys, counts := TallyRequired(normalizedUser, internships[i].requiredSkills,
                                    DemandedSkills(internships[..i]), keys, counts);
      DemandedSnoc(internships, i);
      i := i + 1;
    }
    assert internships[..i] == internships;
  }

  /** `analyzeSkillGaps(userSkills)` over the catalog `internships`: count the
      missing skills, label the table's entries, sort them by count and keep
      the first ten. */
  method AnalyzeSkillGaps(userSkills: seq<string>, internships: seq<Internship>) returns (gaps: seq<SkillGap>)
    ensures gaps == SkillGapsOf(userSkills, internships)
  {
    var normalizedUser := LowerAll(userSkills);
    var keys, counts := TallyOccurrences(normalizedUser, internships);
    TallyCorrect(normalizedUser, DemandedSkills(internships));
    TalliedEntries(normalizedUser, DemandedSkills(internships), keys, counts);
    var entries := TableEntries(keys, counts);
    var ranked := SortDesc(entries, CountOf);
    gaps := Map(ranked[..if |ranked| < 10 then |ranked| else 10], GapOf);
  }

  // ---------------------------------------------------------------------------
  // What analyzeSkillGaps promises

  lemma {:induction false} MissingFacts(normalizedUser: seq<string>, visited: seq<string>)
    ensures forall x :: x in Missing(normalizedUser, visited) ==> x in visited && x !in normalizedUser
    ensures forall x :: x !in normalizedUser ==>
      multiset(Missing(normalizedUser, visited))[x] == multiset(visited)[x]
  {
    if visited != [] {
      var init, last := visited[..|visited| - 1], visited[|visited| - 1];
      assert visited == init + [last];
      MissingFacts(normalizedUser, init);
    }
  }

  /** Every demanded skill is the lower-cased form of some internship's required skill. */
  lemma {:induction false} DemandedFacts(internships: seq<Internship>)
    ensures forall x :: x in DemandedSkills(internships) ==> IsLowerCase(x)
    ensures forall x :: x in DemandedSkills(internships) ==>
      exists i, j :: 0 <= i < |internships| && 0 <= j < |internships[i].requiredSkills|
                  && x == Lower(internships[i].requiredSkills[j])
  {
    if internships != [] {
      var init, last := internships[..|internships| - 1], internships[|internships| - 1];
      DemandedFacts(init);
      forall x | x in DemandedSkills(internships)
        ensures IsLowerCase(x)
        ensures exists i, j :: 0 <= i < |internships| && 0 <= j < |internships[i].requiredSkills|
                            && x == Lower(internships[i].requiredSkills[j])
      {
        if x in DemandedSkills(init) {
          var i, j :| 0 <= i < |init| && 0 <= j < |init[i].requiredSkills|
                   && x == Lower(init[i].requiredSkills[j]);
          assert internships[i] == init[i];
        } else {
          var lowered := LowerAll(last.requiredSkills);
          var j :| 0 <= j < |lowered| && lowered[j] == x;
          LowerIsLowerCase(last.requiredSkills[j]);
          assert internships[|internships| - 1] == last;
        }
      }
    }
  }

  /** Conversely, every required skill of every internship, lower-cased, is demanded. */
  lemma {:induction false} DemandedComplete(internships: seq<Internship>, i: nat, j: nat)
    requires i < |internships| && j < |internships[i].requiredSkills|
    ensures Lower(internships[i].requiredSkills[j]) in DemandedSkills(internships)
  {
    var init, last := internships[..|internships| - 1], internships[|internships| - 1];
    if i < |init| {
      assert init[i] == internships[i];
      DemandedComplete(init, i, j);
    } else {
      assert LowerAll(last.requiredSkills)[j] == Lower(internships[i].requiredSkills[j]);
    }
  }

  /** The table's skills are the missing skills, each once, in first-occurrence order. */
  lemma GapTableSkills(userSkills: seq<string>, internships: seq<Internship>)
    ensures Map(GapTable(userSkills, internships), SkillOf)
         == Dedup(Missing(LowerAll(userSkills), DemandedSkills(internships)))
  {
  }

  /** Each table entry is a missing skill with its catalog-wide count and label;
      the table lists every missing skill once, in first-occurrence order. */
  lemma GapTableFacts(userSkills: seq<string>, internships: seq<Internship>)
    ensures var table := GapTable(userSkills, internships);
      && Map(table, SkillOf) == Dedup(Missing(LowerAll(userSkills), DemandedSkills(internships)))
      && forall k :: 0 <= k < |table| ==>
           && table[k].skill in DemandedSkills(internships)
           && table[k].skill !in LowerAll(userSkills)
           && table[k].count == Occurrences(internships, table[k].skill)
           && table[k].importance == ImportanceFor(table[k].count)
  {
    var normalizedUser := LowerAll(userSkills);
    var demanded := DemandedSkills(internships);
    MissingFacts(normalizedUser, demanded);
    var table := GapTable(userSkills, internships);
    assert Map(table, SkillOf) == Dedup(Missing(normalizedUser, demanded));
  }

  /** No skill occurs twice in the ranked list. */
  lemma RankedGapsDistinct(userSkills: seq<string>, internships: seq<Internship>)
    ensures Distinct(Map(RankedGaps(userSkills, internships), SkillOf))
  {
    var table := GapTable(userSkills, internships);
    GapTableFacts(userSkills, internships);
    SortDescPermutesMap(table, CountOf, SkillOf);
    DistinctPermutation(Map(table, SkillOf), Map(RankedGaps(userSkills, internships), SkillOf));
  }

  /** Counts never increase along the ranked list, and equal counts keep the
      table's first-occurrence order. */
  lemma RankedGapsOrdered(userSkills: seq<string>, internships: seq<Internship>)
    ensures var ranked := RankedGaps(userSkills, internships);
      && (forall i, j :: 0 <= i < j < |ranked| ==> ranked[i].count >= ranked[j].count)
      && (forall n :: WithKey(ranked, CountOf, n) == WithKey(GapTable(userSkills, internships), CountOf, n))
  {
    var table := GapTable(userSkills, internships);
    SortDescSorted(table, CountOf);
    forall n ensures WithKey(RankedGaps(userSkills, internships), CountOf, n) == WithKey(table, CountOf, n) {
      SortDescStable(table, CountOf, n);
    }
  }

  /** Each ranked entry is a missing skill with its catalog-wide count and label. */
  lemma RankedGapsEntries(userSkills: seq<string>, internships: seq<Internship>)
    ensures var ranked := RankedGaps(userSkills, internships);
      forall k :: 0 <= k < |ranked| ==>
        && ranked[k].skill in DemandedSkills(internships)
        && ranked[k].skill !in LowerAll(userSkills)
        && ranked[k].count == Occurrences(internships, ranked[k].skill)
        && ranked[k].importance == ImportanceFor(ranked[k].count)
  {
    var table := GapTable(userSkills, internships);
    var ranked := RankedGaps(userSkills, internships);
    GapTableFacts(userSkills, internships);
    SortDescPermutes(table, CountOf);
    forall k | 0 <= k < |ranked|
      ensures ranked[k].skill in DemandedSkills(internships)
      ensures ranked[k].skill !in LowerAll(userSkills)
      ensures ranked[k].count == Occurrences(internships, ranked[k].skill)
      ensures ranked[k].importance == ImportanceFor(ranked[k].count)
    {
      assert ranked[k] in multiset(table);
      var p :| 0 <= p < |table| && table[p] == ranked[k];
    }
  }

  /** Every demanded skill the user lacks is in the ranked list. */
  lemma RankedGapsComplete(userSkills: seq<string>, internships: seq<Internship>, x: string)
    requires x in DemandedSkills(internships) && x !in LowerAll(userSkills)
    ensures exists k :: 0 <= k < |RankedGaps(userSkills, internships)| && RankedGaps(userSkills, internships)[k].skill == x
  {
    var table := GapTable(userSkills, internships);
    var ranked := RankedGaps(userSkills, internships);
    GapTableHasSkill(userSkills, internships, x);
    SortDescPermutesMap(table, CountOf, SkillOf);
    assert x in multiset(Map(ranked, SkillOf));
    var k :| 0 <= k < |ranked| && Map(ranked, SkillOf)[k] == x;
  }

  lemma GapTableHasSkill(userSkills: seq<string>, internships: seq<Internship>, x: string)
    requires x in DemandedSkills(internships) && x !in LowerAll(userSkills)
    ensures x in Map(GapTable(userSkills, internships), SkillOf)
  {
    var missing := Missing(LowerAll(userSkills), DemandedSkills(internships));
    GapTableSkills(userSkills, internships);
    MissingFacts(LowerAll(userSkills), DemandedSkills(internships));
    assert x in missing;
  }

  /** `analyzeSkillGaps` returns at most ten gaps, with no skill twice. */
  lemma SkillGapsDistinct(userSkills: seq<string>, internships: seq<Internship>)
    ensures var gaps := SkillGapsOf(userSkills, internships);
      && |gaps| <= 10
      && forall i, j :: 0 <= i < j < |gaps| ==> gaps[i].skill != gaps[j].skill
  {
    var ranked := RankedGaps(userSkills, internships);
    var gaps := SkillGapsOf(userSkills, internships);
    RankedGapsDistinct(userSkills, internships);
    var names := Map(ranked, SkillOf);
    forall i, j | 0 <= i < j < |gaps| ensures gaps[i].skill != gaps[j].skill {
      assert gaps[i].skill == names[i] && gaps[j].skill == names[j];
    }
  }

  /** Each gap is a lower-case skill the user lacks, required by some
      internship, labelled High from 4 occurrences, Medium from 2, else Low. */
  lemma SkillGapsEntries(userSkills: seq<string>, internships: seq<Internship>)
    ensures var gaps := SkillGapsOf(userSkills, internships);
      forall k :: 0 <= k < |gaps| ==>
        && IsLowerCase(gaps[k].skill)
        && gaps[k].skill !in LowerAll(userSkills)
        && (exists i, j :: 0 <= i < |internships| && 0 <= j < |internships[i].requiredSkills|
                        && gaps[k].skill == Lower(internships[i].requiredSkills[j]))
        && gaps[k].importance == ImportanceFor(Occurrences(internships, gaps[k].skill))
  {
    var ranked := RankedGaps(userSkills, internships);
    RankedGapsEntries(userSkills, internships);
    DemandedFacts(internships);
    var gaps := SkillGapsOf(userSkills, internships);
    forall k | 0 <= k < |gaps| ensures gaps[k].skill == ranked[k].skill && gaps[k].importance == ranked[k].importance {
    }
  }

  /** The ranked rows carry their skill's number of occurrences and its label. */
  ghost predicate CountsAreOccurrences(internships: seq<Internship>, ranked: seq<SkillCount>) {
    forall k :: 0 <= k < |ranked| ==>
      ranked[k].count == Occurrences(internships, ranked[k].skill)
      && ranked[k].importance == ImportanceFor(ranked[k].count)
  }

  ghost predicate CountsNonIncreasing(ranked: seq<SkillCount>) {
    forall i, j :: 0 <= i < j < |ranked| ==> ranked[i].count >= ranked[j].count
  }

  lemma RankedGapsWellFormed(userSkills: seq<string>, internships: seq<Internship>)
    ensures CountsAreOccurrences(internships, RankedGaps(userSkills, internships))
    ensures CountsNonIncreasing(RankedGaps(userSkills, internships))
  {
    RankedGapsEntries(userSkills, internships);
    RankedGapsOrdered(userSkills, internships);
  }

  lemma TopGapsOrdered(internships: seq<Internship>, ranked: seq<SkillCount>)
    requires CountsAreOccurrences(internships, ranked) && CountsNonIncreasing(ranked)
    ensures var gaps := TopGaps(ranked);
      forall i, j :: 0 <= i < j < |gaps| ==>
        && Occurrences(internships, gaps[i].skill) >= Occurrences(internships, gaps[j].skill)
        && Rank(gaps[i].importance) >= Rank(gaps[j].importance)
  {
  }

  lemma TopGapsTopTen(internships: seq<Internship>, ranked: seq<SkillCount>, p: nat)
    requires CountsAreOccurrences(internships, ranked) && CountsNonIncreasing(ranked)
    requires p < |ranked|
    requires forall k :: 0 <= k < |TopGaps(ranked)| ==> TopGaps(ranked)[k].skill != ranked[p].skill
    ensures var gaps := TopGaps(ranked);
      && |gaps| == 10
      && forall k :: 0 <= k < |gaps| ==> Occurrences(internships, gaps[k].skill) >= Occurrences(internships, ranked[p].skill)
  {
    var gaps := TopGaps(ranked);
    assert |gaps| <= p by {
      assert forall k :: 0 <= k < |gaps| ==> ranked[k].skill != ranked[p].skill;
    }
  }

  /** Gaps are sorted by non-increasing count, hence every High before every
      Medium and every Medium before every Low. */
  lemma SkillGapsOrdered(userSkills: seq<string>, internships: seq<Internship>)
    ensures var gaps := SkillGapsOf(userSkills, internships);
      forall i, j :: 0 <= i < j < |gaps| ==>
        && Occurrences(internships, gaps[i].skill) >= Occurrences(internships, gaps[j].skill)
        && Rank(gaps[i].importance) >= Rank(gaps[j].importance)
  {
    RankedGapsWellFormed(userSkills, internships);
    TopGapsOrdered(internships, RankedGaps(userSkills, internships));
  }

  /** The gaps are the most frequent ones: when some internship requires a
      skill the user lacks and that skill is not listed, ten gaps are listed,
      each required at least as often. */
  lemma SkillGapsTopTen(userSkills: seq<string>, internships: seq<Internship>, i: nat, j: nat)
    requires i < |internships| && j < |internships[i].requiredSkills|
    requires Lower(internships[i].requiredSkills[j]) !in LowerAll(userSkills)
    requires forall k :: 0 <= k < |SkillGapsOf(userSkills, internships)| ==>
      SkillGapsOf(userSkills, internships)[k].skill != Lower(internships[i].requiredSkills[j])
    ensures var gaps := SkillGapsOf(userSkills, internships);
      && |gaps| == 10
      && forall k :: 0 <= k < |gaps| ==>
           Occurrences(internships, gaps[k].skill) >= Occurrences(internships, Lower(internships[i].requiredSkills[j]))
  {
    var x := Lower(internships[i].requiredSkills[j]);
    DemandedComplete(internships, i, j);
    var ranked := RankedGaps(userSkills, internships);
    RankedGapsComplete(userSkills, internships, x);
    var p :| 0 <= p < |ranked| && ranked[p].skill == x;
    var gaps := SkillGapsOf(userSkills, internships);
    assert gaps == TopGaps(ranked);
    assert forall k :: 0 <= k < |gaps| ==> gaps[k].skill != ranked[p].skill;
    RankedGapsWellFormed(userSkills, internships);
    TopGapsTopTen(internships, ranked, p);
  }
}
