/** The course service (src/services/courseService.ts): courses by skill and
    course recommendations for skill gaps. The catalog that `getAllCourses`
    returns after a simulated delay is a parameter here. */
module CourseService {
  import opened Wrappers
  import opened Text
  import opened Seqs

  datatype Course = Course(
    id: int,
    title: string,
    platform: string,
    duration: string,
    courseUrl: string,
    imageUrl: Option<string>,
    skills: seq<string>)

  /** A gap as `getRecommendedCourses` receives it; `importance` is a free string. */
  datatype Gap = Gap(skill: string, importance: string)

  /** The catalog that `getAllCourses` serves. */
  const MockCourses: seq<Course> := [
    Course(1, "Machine Learning Fundamentals", "Coursera", "8 weeks", "https://example.com/course", None,
      ["machine learning", "python", "data analysis", "numpy", "pandas"]),
    Course(2, "React.js Complete Guide", "Udemy", "24 hours", "https://example.com/course", None,
      ["react", "javascript", "html", "css", "redux"]),
    Course(3, "Docker for Developers", "Pluralsight", "6 hours", "https://example.com/course", None,
      ["docker", "devops", "containers", "kubernetes"]),
    Course(4, "AWS Certified Developer", "AWS Training", "12 weeks", "https://example.com/course", None,
      ["aws", "cloud", "serverless", "lambda", "s3", "ec2"]),
    Course(5, "TypeScript Masterclass", "Frontend Masters", "8 hours", "https://example.com/course", None,
      ["typescript", "javascript", "react", "node.js"]),
    Course(6, "GraphQL API Development", "egghead.io", "4 hours", "https://example.com/course", None,
      ["graphql", "api", "node.js", "apollo"]),
    Course(7, "Python for Data Science", "DataCamp", "20 hours", "https://example.com/course", None,
      ["python", "data analysis", "pandas", "matplotlib", "jupyter"]),
    Course(8, "Full Stack Web Development", "Codecademy", "12 weeks", "https://example.com/course", None,
      ["javascript", "html", "css", "node.js", "express", "mongodb"]),
    Course(9, "UI/UX Design Principles", "Interaction Design Foundation", "8 weeks", "https://example.com/course", None,
      ["ui/ux", "figma", "user research", "wireframing", "prototyping"]),
    Course(10, "DevOps Engineering", "Linux Academy", "10 weeks", "https://example.com/course", None,
      ["devops", "ci/cd", "jenkins", "docker", "kubernetes", "git"])
  ]

  /** The loop stops once this many courses are recommended. */
  const MaxRecommendations := 6

  /** Some skill of the course, lower-cased, contains the (lower-cased) query:
      one direction only, the course skill contains the query. */
  predicate Teaches(course: Course, normalizedSkill: string) {
    exists k | 0 <= k < |course.skills| :: Contains(Lower(course.skills[k]), normalizedSkill)
  }

  // ---------------------------------------------------------------------------
  // getCoursesBySkill

  /** The courses that teach the skill, in catalog order. */
  function CoursesTeaching(courses: seq<Course>, normalizedSkill: string): (r: seq<Course>)
    ensures forall c :: c in r <==> c in courses && Teaches(c, normalizedSkill)
  {
    if courses == [] then []
    else
      var init, last := courses[..|courses| - 1], courses[|courses| - 1];
      assert courses == init + [last];
      CoursesTeaching(init, normalizedSkill) + (if Teaches(last, normalizedSkill) then [last] else [])
  }

  /** `getCoursesBySkill(skill)` over the catalog `courses`. */
  function GetCoursesBySkill(courses: seq<Course>, skill: string): seq<Course> {
    CoursesTeaching(courses, Lower(skill))
  }

  /** Exactly the courses with a skill that contains the lower-cased query. */
  lemma GetCoursesBySkillMembers(courses: seq<Course>, skill: string, c: Course)
    ensures c in GetCoursesBySkill(courses, skill) <==>
      c in courses && exists k :: 0 <= k < |c.skills| && Contains(Lower(c.skills[k]), Lower(skill))
  {
  }

  lemma {:induction false} CoursesTeachingSubsequence(courses: seq<Course>, normalizedSkill: string)
    ensures IsSubsequence(CoursesTeaching(courses, normalizedSkill), courses)
  {
    if courses == [] {
      SubsequenceRefl(courses);
    } else {
      var init, last := courses[..|courses| - 1], courses[|courses| - 1];
      assert courses == init + [last];
      CoursesTeachingSubsequence(init, normalizedSkill);
      SubsequenceSnoc(CoursesTeaching(init, normalizedSkill), init, last);
      if !Teaches(last, normalizedSkill) {
        assert CoursesTeaching(courses, normalizedSkill) == CoursesTeaching(init, normalizedSkill);
      }
    }
  }

  /** The result keeps catalog order. */
  lemma GetCoursesBySkillOrder(courses: seq<Course>, skill: string)
    ensures IsSubsequence(GetCoursesBySkill(courses, skill), courses)
  {
    CoursesTeachingSubsequence(courses, Lower(skill));
  }

  /** Lower-casing the query first changes nothing. */
  lemma GetCoursesBySkillCaseInsensitive(courses: seq<Course>, skill: string)
    ensures GetCoursesBySkill(courses, Lower(skill)) == GetCoursesBySkill(courses, skill)
  {
    LowerIdempotent(skill);
  }

  // ---------------------------------------------------------------------------
  // getRecommendedCourses

  /** The gaps whose importance string is exactly `level`, in input order. */
  function WithImportance(gaps: seq<Gap>, level: string): (r: seq<Gap>)
    ensures forall g :: g in r <==> g in gaps && g.importance == level
    ensures forall g :: multiset(r)[g] == if g.importance == level then multiset(gaps)[g] else 0
    ensures |r| <= |gaps|
  {
    if gaps == [] then []
    else
      var init, last := gaps[..|gaps| - 1], gaps[|gaps| - 1];
      assert gaps == init + [last];
      WithImportance(init, level) + (if last.importance == level then [last] else [])
  }

  /** The filter keeps input order. */
  lemma {:induction false} WithImportanceSubsequence(gaps: seq<Gap>, level: string)
    ensures IsSubsequence(WithImportance(gaps, level), gaps)
  {
    if gaps == [] {
      SubsequenceRefl(gaps);
    } else {
      var init, last := gaps[..|gaps| - 1], gaps[|gaps| - 1];
      assert gaps == init + [last];
      WithImportanceSubsequence(init, level);
      SubsequenceSnoc(WithImportance(init, level), init, last);
      if last.importance != level {
        assert WithImportance(gaps, level) == WithImportance(init, level);
      }
    }
  }

  predicate KnownImportance(g: Gap) {
    g.importance == "High" || g.importance == "Medium" || g.importance == "Low"
  }

  /** `prioritizedSkillGaps`: the High gaps, then the Medium ones, then the Low
      ones, each group in input order. */
  function Prioritize(gaps: seq<Gap>): seq<Gap> {
    WithImportance(gaps, "High") + WithImportance(gaps, "Medium") + WithImportance(gaps, "Low")
  }

  /** Gaps with any other importance string are dropped; the rest are kept,
      and the result is no longer than the input. */
  lemma PrioritizeMembers(gaps: seq<Gap>)
    ensures forall g :: g in Prioritize(gaps) <==> g in gaps && KnownImportance(g)
    ensures |Prioritize(gaps)| <= |gaps|
  {
    var high, medium, low := WithImportance(gaps, "High"), WithImportance(gaps, "Medium"), WithImportance(gaps, "Low");
    var known := WithKnown(gaps);
    assert multiset(Prioritize(gaps)) == multiset(known) by {
      PrioritizeCounts(gaps);
    }
    assert |Prioritize(gaps)| == |multiset(known)|;
    forall g ensures g in Prioritize(gaps) <==> g in multiset(known) {
    }
  }

  /** The gaps with a known level, in input order. */
  function WithKnown(gaps: seq<Gap>): (r: seq<Gap>)
    ensures forall g :: g in r <==> g in gaps && KnownImportance(g)
    ensures forall g :: multiset(r)[g] == if KnownImportance(g) then multiset(gaps)[g] else 0
    ensures |r| <= |gaps|
  {
    if gaps == [] then []
    else
      var init, last := gaps[..|gaps| - 1], gaps[|gaps| - 1];
      assert gaps == init + [last];
      WithKnown(init) + (if KnownImportance(last) then [last] else [])
  }

  /** The filter keeps input order. */
  lemma {:induction false} WithKnownSubsequence(gaps: seq<Gap>)
    ensures IsSubsequence(WithKnown(gaps), gaps)
  {
    if gaps == [] {
      SubsequenceRefl(gaps);
    } else {
      var init, last := gaps[..|gaps| - 1], gaps[|gaps| - 1];
      assert gaps == init + [last];
      WithKnownSubsequence(init);
      SubsequenceSnoc(WithKnown(init), init, last);
      if !KnownImportance(last) {
        assert WithKnown(gaps) == WithKnown(init);
      }
    }
  }

  /** The processing order of a level: High first, then Medium, then Low. */
  function LevelRank(importance: string): nat {
    if importance == "High" then 2 else if importance == "Medium" then 1 else 0
  }

  /** `p` is `high`, then `medium`, then `low`, and the level never rises along `p`. */
  ghost predicate InLevelOrder(p: seq<Gap>, high: seq<Gap>, medium: seq<Gap>, low: seq<Gap>) {
    && |high| + |medium| <= |p|
    && p[..|high|] == high
    && p[|high|..|high| + |medium|] == medium
    && p[|high| + |medium|..] == low
    && forall i, j :: 0 <= i < j < |p| ==> LevelRank(p[i].importance) >= LevelRank(p[j].importance)
  }

  /** The prioritised list is the High gaps, then the Medium ones, then the Low
      ones, each group in input order; hence levels never rise along it. */
  lemma PrioritizeOrder(gaps: seq<Gap>)
    ensures InLevelOrder(Prioritize(gaps), WithImportance(gaps, "High"), WithImportance(gaps, "Medium"), WithImportance(gaps, "Low"))
    ensures IsSubsequence(WithImportance(gaps, "High"), gaps)
    ensures IsSubsequence(WithImportance(gaps, "Medium"), gaps)
    ensures IsSubsequence(WithImportance(gaps, "Low"), gaps)
  {
    WithImportanceSubsequence(gaps, "High");
    WithImportanceSubsequence(gaps, "Medium");
    WithImportanceSubsequence(gaps, "Low");
    LevelsDescend(WithImportance(gaps, "High"), WithImportance(gaps, "Medium"), WithImportance(gaps, "Low"));
  }

  /** Three groups of one level each, concatenated High, Medium, Low. */
  lemma LevelsDescend(high: seq<Gap>, medium: seq<Gap>, low: seq<Gap>)
    requires forall g :: g in high ==> g.importance == "High"
    requires forall g :: g in medium ==> g.importance == "Medium"
    requires forall g :: g in low ==> g.importance == "Low"
    ensures InLevelOrder(high + medium + low, high, medium, low)
  {
    var p := high + medium + low;
    forall i | 0 <= i < |p|
      ensures LevelRank(p[i].importance) == if i < |high| then 2 else if i < |high| + |medium| then 1 else 0
    {
      if i < |high| {
        assert p[i] == high[i];
      } else if i < |high| + |medium| {
        assert p[i] == medium[i - |high|];
      } else {
        assert p[i] == low[i - |high| - |medium|];
      }
    }
  }

  lemma PrioritizeCounts(gaps: seq<Gap>)
    ensures multiset(Prioritize(gaps)) == multiset(WithKnown(gaps))
  {
    var high, medium, low := WithImportance(gaps, "High"), WithImportance(gaps, "Medium"), WithImportance(gaps, "Low");
    assert multiset(Prioritize(gaps)) == multiset(high) + multiset(medium) + multiset(low);
    forall g ensures multiset(Prioritize(gaps))[g] == multiset(WithKnown(gaps))[g] {
    }
  }


  /** Some recommended course already has this id. */
  predicate Chosen(recommendations: seq<Course>, id: int) {
    exists k | 0 <= k < |recommendations| :: recommendations[k].id == id
  }

  /** `relevantCourses`: the catalog courses teaching the skill whose id is not chosen yet. */
  function Relevant(courses: seq<Course>, normalizedSkill: string, recommendations: seq<Course>): (r: seq<Course>)
    ensures forall c :: c in r <==> c in courses && Teaches(c, normalizedSkill) && !Chosen(recommendations, c.id)
  {
    if courses == [] then []
    else
      var rest := Relevant(courses[1..], normalizedSkill, recommendations);
      assert courses == [courses[0]] + courses[1..];
      if Teaches(courses[0], normalizedSkill) && !Chosen(recommendations, courses[0].id)
      then [courses[0]] + rest else rest
  }

  /** `relevantCourses[0]` is the first catalog course that teaches the skill
      and is not chosen yet. */
  lemma {:induction false} RelevantFirst(courses: seq<Course>, normalizedSkill: string, recommendations: seq<Course>)
    requires Relevant(courses, normalizedSkill, recommendations) != []
    ensures exists i :: (0 <= i < |courses|
      && courses[i] == Relevant(courses, normalizedSkill, recommendations)[0]
      && forall j :: 0 <= j < i ==>
           !(Teaches(courses[j], normalizedSkill) && !Chosen(recommendations, courses[j].id)))
  {
    var first := Relevant(courses, normalizedSkill, recommendations)[0];
    if Teaches(courses[0], normalizedSkill) && !Chosen(recommendations, courses[0].id) {
      assert courses[0] == first;
    } else {
      RelevantFirst(courses[1..], normalizedSkill, recommendations);
      var i :| 0 <= i < |courses[1..]| && courses[1..][i] == first
        && forall j :: 0 <= j < i ==>
             !(Teaches(courses[1..][j], normalizedSkill) && !Chosen(recommendations, courses[1..][j].id));
      assert courses[i + 1] == first;
      forall j | 0 <= j < i + 1
        ensures !(Teaches(courses[j], normalizedSkill) && !Chosen(recommendations, courses[j].id))
      {
        if j > 0 {
          assert courses[j] == courses[1..][j - 1];
        }
      }
    }
  }

  /** One pass of the loop body: the first relevant course for `gap`, if
      any, is added to the recommendations. */
  function Pick(courses: seq<Course>, gap: Gap, recommendations: seq<Course>): seq<Course> {
    var relevant := Relevant(courses, Lower(gap.skill), recommendations);
    if |relevant| > 0 then recommendations + [relevant[0]] else recommendations
  }

  /** The loop of `getRecommendedCourses` as a function: `pending` are the
      prioritized gaps not visited yet, `recommendations` the courses chosen so far. */
  function Recommend(courses: seq<Course>, pending: seq<Gap>, recommendations: seq<Course>): seq<Course>
    decreases |pending|
  {
    if pending == [] then recommendations
    else
      var next := Pick(courses, pending[0], recommendations);
      if |next| >= MaxRecommendations then next else Recommend(courses, pending[1..], next)
  }

  lemma RecommendStep(courses: seq<Course>, prioritized: seq<Gap>, i: nat, recommendations: seq<Course>)
    requires i < |prioritized|
    ensures var next := Pick(courses, prioritized[i], recommendations);
      Recommend(courses, prioritized[i..], recommendations)
      == if |next| >= MaxRecommendations then next else Recommend(courses, prioritized[i + 1..], next)
  {
    assert prioritized[i..][0] == prioritized[i] && prioritized[i..][1..] == prioritized[i + 1..];
  }

  /** `getRecommendedCourses(skillGaps)` over the catalog `courses`. */
  method GetRecommendedCourses(courses: seq<Course>, skillGaps: seq<Gap>) returns (recommendations: seq<Course>)
    ensures recommendations == Recommend(courses, Prioritize(skillGaps), [])
  {
    var prioritized := Prioritize(skillGaps);
    recommendations := [];
    var i := 0;
    assert prioritized[0..] == prioritized;
    while i < |prioritized|
      invariant 0 <= i <= |prioritized|
      invariant Recommend(courses, prioritized[i..], recommendations) == Recommend(courses, prioritized, [])
    {
      RecommendStep(courses, prioritized, i, recommendations);
      var normalizedSkill := Lower(prioritized[i].skill);
      var relevant := Relevant(courses, normalizedSkill, recommendations);
      if |relevant| > 0 {
        recommendations := recommendations + [relevant[0]];
      }
      if |recommendations| >= MaxRecommendations {
        break;
      }
      i := i + 1;
    }
  }

  /** No course id is recommended twice. */
  ghost predicate DistinctIds(recommendations: seq<Course>) {
    forall i, j :: 0 <= i < j < |recommendations| ==> recommendations[i].id != recommendations[j].id
  }

  lemma {:induction false} RecommendDistinctIds(courses: seq<Course>, pending: seq<Gap>, recommendations: seq<Course>)
    requires DistinctIds(recommendations)
    ensures DistinctIds(Recommend(courses, pending, recommendations))
    decreases |pending|
  {
    if pending != [] {
      var relevant := Relevant(courses, Lower(pending[0].skill), recommendations);
      var next := Pick(courses, pending[0], recommendations);
      if |relevant| > 0 {
        assert relevant[0] in relevant;
        forall i | 0 <= i < |recommendations| ensures recommendations[i].id != relevant[0].id {
        }
      }
      if |next| < MaxRecommendations {
        RecommendDistinctIds(courses, pending[1..], next);
      }
    }
  }

  /** At most one new course per visited gap, and never more than six in all. */
  lemma {:induction false} RecommendBounded(courses: seq<Course>, pending: seq<Gap>, recommendations: seq<Course>)
    requires |recommendations| < MaxRecommendations
    ensures |Recommend(courses, pending, recommendations)| <= MaxRecommendations
    ensures |Recommend(courses, pending, recommendations)| <= |recommendations| + |pending|
    decreases |pending|
  {
    if pending != [] {
      var relevant := Relevant(courses, Lower(pending[0].skill), recommendations);
      var next := Pick(courses, pending[0], recommendations);
      if |next| < MaxRecommendations {
        RecommendBounded(courses, pending[1..], next);
      }
    }
  }

  /** `r[k]` is the first course, in catalog order, relevant to some gap of
      `gaps` at the moment the first `k` courses were chosen. */
  ghost predicate PickedFor(courses: seq<Course>, gaps: seq<Gap>, r: seq<Course>, k: int)
    requires 0 <= k < |r|
  {
    exists g :: g in gaps && FirstRelevant(courses, g, r[..k], r[k])
  }

  predicate FirstRelevant(courses: seq<Course>, g: Gap, chosen: seq<Course>, c: Course) {
    var relevant := Relevant(courses, Lower(g.skill), chosen);
    relevant != [] && c == relevant[0]
  }

  /** The chosen courses stay, and each added course is, for one of the
      visited gaps, the first relevant course at the moment it was picked. */
  lemma {:induction false} RecommendPicksFirstRelevant(courses: seq<Course>, pending: seq<Gap>, recommendations: seq<Course>)
    ensures var r := Recommend(courses, pending, recommendations);
      && |recommendations| <= |r| && r[..|recommendations|] == recommendations
      && forall k :: |recommendations| <= k < |r| ==> PickedFor(courses, pending, r, k)
    decreases |pending|
  {
    if pending != [] {
      var g := pending[0];
      var relevant := Relevant(courses, Lower(g.skill), recommendations);
      var next := Pick(courses, g, recommendations);
      var r := Recommend(courses, pending, recommendations);
      if |next| < MaxRecommendations {
        RecommendPicksFirstRelevant(courses, pending[1..], next);
      }
      assert |next| <= |r| && r[..|next|] == next;
      forall k | |recommendations| <= k < |r|
        ensures PickedFor(courses, pending, r, k)
      {
        if k < |next| {
          assert k == |recommendations| && r[..k] == recommendations && r[k] == next[k];
          assert FirstRelevant(courses, g, r[..k], r[k]);
        } else {
          assert PickedFor(courses, pending[1..], r, k);
          var h :| h in pending[1..] && FirstRelevant(courses, h, r[..k], r[k]);
          assert h in pending;
        }
      }
    }
  }

  /** `getRecommendedCourses`: catalog courses without a repeated id, at most
      six and at most one per gap; each is, for some gap of level High,
      Medium or Low, the first catalog course that teaches that gap's skill
      among those not yet chosen. */
  lemma GetRecommendedCoursesCorrect(courses: seq<Course>, skillGaps: seq<Gap>)
    ensures var r := Recommend(courses, Prioritize(skillGaps), []);
      && DistinctIds(r)
      && |r| <= MaxRecommendations
      && |r| <= |skillGaps|
      && forall k :: 0 <= k < |r| ==> r[k] in courses && PickedFor(courses, WithKnown(skillGaps), r, k)
  {
    var p := Prioritize(skillGaps);
    var r := Recommend(courses, p, []);
    PrioritizeMembers(skillGaps);
    RecommendDistinctIds(courses, p, []);
    RecommendBounded(courses, p, []);
    RecommendPicksFirstRelevant(courses, p, []);
    forall k | 0 <= k < |r|
      ensures r[k] in courses && PickedFor(courses, WithKnown(skillGaps), r, k)
    {
      assert PickedFor(courses, p, r, k);
      var g :| g in p && FirstRelevant(courses, g, r[..k], r[k]);
      assert r[k] in Relevant(courses, Lower(g.skill), r[..k]);
      assert g in WithKnown(skillGaps);
    }
  }
}
