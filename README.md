# InternHunt core in Dafny

InternHunt is a React front end that helps students find internships. It
reads skills from an uploaded resume or from free text and scores a catalog
of internships against them. It then lists the skills the user is missing,
ranked by how often the catalog asks for them, and recommends courses for
those gaps. This project models that logic and proves properties of it:

- `InternshipService` (`internship_service.dfy`) covers:
  - the match score: the share of required skills the user holds, rounded to a whole percentage;
  - ranking the catalog by that score with a stable sort;
  - the skill-gap analysis: a frequency table of missing skills, labelled High/Medium/Low, sorted by frequency and cut to ten.
- `CourseService` (`course_service.dfy`) covers:
  - the substring lookup of courses by skill;
  - the greedy recommendation loop over prioritised gaps.
- `ResumeParser` (`resume_parser.dfy`) covers:
  - the fixed list of 76 common skills;
  - skill extraction from resume text;
  - the MIME dispatch and error wrapping of resume parsing.
- `ProfilePage`, `MatchesPage` and `UploadPage` are classes whose fields are the page state. Their methods are the event handlers of the profile, matches and upload pages.
- `Text`, `Seqs`, `Sorting` and `Wrappers` are helper modules:
  - lower-casing, substring search and JavaScript `trim`;
  - dedupe, filter-out and subsequences;
  - the stable insertion sort that stands in for `Array.prototype.sort`;
  - `Option` and `Result`.

Catalogs are parameters. The two hard-coded catalogs are given as the
constants `InternshipService.MockInternships` and `CourseService.MockCourses`.

Matching rules, as the code has them:
- A user skill matches a required skill only when the two lower-cased strings are equal.
- The course lookup is a one-way substring test: a lower-cased course skill must contain the lower-cased query.
- Gap labels use fixed count thresholds: High from 4 occurrences, Medium from 2, Low below.
- The gap list keeps at most ten entries, and reports skills in lower case.

The page handlers are loop-free state updates, so each is a method that
changes exactly the fields the source sets. Two source loops become
`while` loops, each proved against a specification function:
- the frequency table of `analyzeSkillGaps` (`TallyRequired`, `TallyOccurrences`);
- the `for … break` of `getRecommendedCourses`.

## Model

| member | source | states |
|---|---|---|
| InternshipService.MatchingSkills | src/services/internshipService.ts:108-110 | keeps exactly the required positions held by the user: each skill the user holds keeps its multiplicity among the required skills, any other skill is dropped |
| InternshipService.RoundedPercentage | src/services/internshipService.ts:113-115 | p is 100·m/n rounded half up: 2n·p ≤ 200m+n < 2n·(p+1), and p ≤ 100 when m ≤ n |
| InternshipService.RoundedPercentageMonotone | src/services/internshipService.ts:113-115 | more matches never give a lower rounded percentage |
| InternshipService.RoundedPercentageFull | src/services/internshipService.ts:113-115 | n matches out of n round to exactly 100 |
| InternshipService.CalculateMatchScore | src/services/internshipService.ts:100-116 | the score is in [0,100]; it is 0 when nothing is required; otherwise it is the rounded percentage of required positions whose lower-case form equals a lower-cased user skill |
| InternshipService.MatchingMonotone | src/services/internshipService.ts:108-110 | a larger set of user skills matches at least as many required skills |
| InternshipService.MatchingAll | src/services/internshipService.ts:108-110 | when the user holds every required skill, all of them match |
| InternshipService.ScoreBySkillSet | src/services/internshipService.ts:104-110 | the score depends only on the set of lower-cased user skills and grows with that set |
| InternshipService.ScoreMonotone | src/services/internshipService.ts:108-110 | adding user skills never lowers the score |
| InternshipService.ScoreIgnoresDuplicates | src/services/internshipService.ts:108-110 | repeating a user skill does not change the score |
| InternshipService.ScoreCaseInsensitive | src/services/internshipService.ts:104-105 | changing the letter case of any user or required skill leaves the score unchanged |
| InternshipService.ScoreFullMatch | src/services/internshipService.ts:101-115 | a user holding every required skill (up to case) scores 100 |
| InternshipService.ScoreIsExactMatch | src/services/internshipService.ts:109 | matching is exact, not substring: "Java" scores 0 against "javascript" |
| InternshipService.ScoreAll | src/services/internshipService.ts:139-142 | defines the scored catalog: each internship with its calculateMatchScore, in catalog order (facts in ScoreAllFacts) |
| InternshipService.GetMatchedInternships | src/services/internshipService.ts:134-146 | defines getMatchedInternships as the stable descending sort of the scored catalog by score (facts in GetMatchedInternshipsPermutes and GetMatchedInternshipsOrdered) |
| InternshipService.ScoreAllFacts | src/services/internshipService.ts:139-142 | scoring keeps the catalog in order and pairs each internship with its own score |
| InternshipService.GetMatchedInternshipsPermutes | src/services/internshipService.ts:134-145 | the result is a permutation of the catalog, each entry with its calculateMatchScore |
| InternshipService.GetMatchedInternshipsOrdered | src/services/internshipService.ts:145 | scores are non-increasing, and entries with equal scores keep catalog order (stable sort) |
| InternshipService.TopGaps | src/services/internshipService.ts:182 | keeps the first min(n,10) ranked rows without their counts |
| InternshipService.GapTable | src/services/internshipService.ts:161-178 | defines the labelled occurrence table: the distinct missing skills in first-occurrence order, each with its count among the missing ones (facts in GapTableFacts) |
| InternshipService.RankedGaps | src/services/internshipService.ts:179 | defines the table sorted stably by non-increasing count (facts in RankedGapsOrdered, RankedGapsEntries) |
| InternshipService.SkillGapsOf | src/services/internshipService.ts:153-183 | defines what analyzeSkillGaps returns: the top ten ranked rows without counts (facts in SkillGapsEntries, SkillGapsOrdered, SkillGapsTopTen) |
| InternshipService.TableOfAgain | src/services/internshipService.ts:166-167 | raising an existing key's count records one more occurrence of it |
| InternshipService.TableOfNew | src/services/internshipService.ts:166-167 | a first occurrence adds the key at the end of the key order with count 1 |
| InternshipService.TallyHeld | src/services/internshipService.ts:166 | a skill the user holds leaves the table alone |
| InternshipService.TallyAgain | src/services/internshipService.ts:165-167 | a missing skill already in the table has its count raised by one |
| InternshipService.TallyNew | src/services/internshipService.ts:165-167 | a missing skill not yet in the table enters it with count 1 |
| InternshipService.TableEntries | src/services/internshipService.ts:173-178 | row i is key i with its count and the label for that count |
| InternshipService.TalliedEntries | src/services/internshipService.ts:161-178 | a table built that way has one row per missing skill in first-occurrence order; each row's count is its number of occurrences |
| InternshipService.TallySnoc | src/services/internshipService.ts:163-170 | visiting one more required skill is one step of the table update |
| InternshipService.TallyCorrect | src/services/internshipService.ts:161-170 | after the visits, the table's keys are the distinct missing skills in first-occurrence order and its counts are their multiplicities |
| InternshipService.TallyRequired | src/services/internshipService.ts:164-169 | the inner loop over one internship's required skills updates the table as the specification function does |
| InternshipService.TallyOccurrences | src/services/internshipService.ts:161-170 | the nested loops build the occurrence table of the whole catalog |
| InternshipService.AnalyzeSkillGaps | src/services/internshipService.ts:153-183 | the method returns the specified gap list (normalise, tally, label, stable sort, top ten) |
| InternshipService.MissingFacts | src/services/internshipService.ts:165-166 | a skill is counted exactly when it was required and is not a lower-cased user skill |
| InternshipService.DemandedFacts | src/services/internshipService.ts:163-165 | every visited skill is lower case and is the lower-case form of some internship's required skill |
| InternshipService.DemandedComplete | src/services/internshipService.ts:163-165 | every required skill of every internship, lower-cased, is visited |
| InternshipService.GapTableSkills | src/services/internshipService.ts:161-173 | the table lists the distinct missing skills in first-occurrence order |
| InternshipService.GapTableFacts | src/services/internshipService.ts:161-178 | each table row is a required, missing skill with its catalog-wide count and the label for that count |
| InternshipService.RankedGapsDistinct | src/services/internshipService.ts:173-179 | no skill appears twice after sorting |
| InternshipService.RankedGapsOrdered | src/services/internshipService.ts:179 | counts are non-increasing; equal counts keep first-occurrence order |
| InternshipService.RankedGapsEntries | src/services/internshipService.ts:173-179 | sorting keeps each row's skill, count and label facts |
| InternshipService.GapTableHasSkill | src/services/internshipService.ts:163-170 | every required skill the user lacks gets a table row |
| InternshipService.RankedGapsComplete | src/services/internshipService.ts:163-179 | every required skill the user lacks appears in the ranked list |
| InternshipService.SkillGapsDistinct | src/services/internshipService.ts:173-182 | at most ten gaps, no skill twice |
| InternshipService.SkillGapsEntries | src/services/internshipService.ts:158-182 | each gap is a lower-case required skill the user lacks, labelled High iff its count is ≥ 4, Medium iff 2 ≤ count < 4, else Low |
| InternshipService.RankedGapsWellFormed | src/services/internshipService.ts:173-179 | ranked rows carry occurrence counts and labels, in non-increasing count |
| InternshipService.TopGapsOrdered | src/services/internshipService.ts:179-182 | a prefix of a well-formed ranking is ordered by count, hence by label |
| InternshipService.TopGapsTopTen | src/services/internshipService.ts:179-182 | a ranked row left out of the prefix means ten rows were kept, each at least as frequent |
| InternshipService.SkillGapsOrdered | src/services/internshipService.ts:173-182 | gaps are non-increasing by count, hence every High before every Medium and every Medium before every Low |
| InternshipService.SkillGapsTopTen | src/services/internshipService.ts:163-182 | when some internship requires a skill the user lacks and it is not listed, ten gaps are listed, each required at least as often |
| CourseService.CoursesTeaching | src/services/courseService.ts:123-125 | a course is kept iff some course skill, lower-cased, contains the query |
| CourseService.GetCoursesBySkill | src/services/courseService.ts:118-128 | defines getCoursesBySkill as the courses teaching the lower-cased query (facts in GetCoursesBySkillMembers, GetCoursesBySkillOrder) |
| CourseService.GetCoursesBySkillMembers | src/services/courseService.ts:118-128 | getCoursesBySkill(q) keeps exactly the courses with a skill whose lower-case form contains lower(q) |
| CourseService.CoursesTeachingSubsequence | src/services/courseService.ts:123 | the filter keeps catalog order |
| CourseService.GetCoursesBySkillOrder | src/services/courseService.ts:123-127 | the result is a subsequence of the catalog |
| CourseService.GetCoursesBySkillCaseInsensitive | src/services/courseService.ts:122 | the lookup for q equals the lookup for lower(q) |
| CourseService.WithImportance | src/services/courseService.ts:143-145 | keeps exactly the gaps of one importance string, each as often as in the input |
| CourseService.WithImportanceSubsequence | src/services/courseService.ts:143-145 | the filter keeps input order |
| CourseService.Prioritize | src/services/courseService.ts:142-146 | defines the prioritised gaps as the High, then Medium, then Low filters concatenated (facts in PrioritizeOrder, PrioritizeMembers) |
| CourseService.PrioritizeOrder | src/services/courseService.ts:142-146 | the list is the High gaps, then the Medium ones, then the Low ones, each group a subsequence of the input; levels never rise along it |
| CourseService.LevelsDescend | src/services/courseService.ts:142-146 | three single-level groups concatenated High, Medium, Low are ordered by level |
| CourseService.PrioritizeMembers | src/services/courseService.ts:142-146 | the prioritised list holds exactly the gaps labelled High, Medium or Low, and no more entries than the input |
| CourseService.WithKnown | src/services/courseService.ts:142-146 | keeps exactly the gaps labelled High, Medium or Low, each as often as in the input |
| CourseService.WithKnownSubsequence | src/services/courseService.ts:142-146 | the known-level gaps keep input order |
| CourseService.PrioritizeCounts | src/services/courseService.ts:142-146 | the prioritised list is a reordering of the known-label gaps, each kept as often as it occurs |
| CourseService.Relevant | src/services/courseService.ts:153-156 | a course is relevant iff it teaches the gap's skill and its id is not yet chosen |
| CourseService.RelevantFirst | src/services/courseService.ts:153-160 | the first relevant course is the first catalog course that teaches the skill and is not yet chosen |
| CourseService.Pick | src/services/courseService.ts:150-161 | defines one gap's step: push the first relevant course, if any (facts in RelevantFirst, RecommendPicksFirstRelevant) |
| CourseService.Recommend | src/services/courseService.ts:149-165 | defines the loop as recursion over the pending gaps, stopping at six (facts in RecommendDistinctIds, RecommendBounded, RecommendPicksFirstRelevant) |
| CourseService.RecommendStep | src/services/courseService.ts:149-165 | one loop iteration: push the first relevant course if any, and stop at six |
| CourseService.GetRecommendedCourses | src/services/courseService.ts:135-168 | the loop returns the specified greedy recommendation over the prioritised gaps |
| CourseService.RecommendDistinctIds | src/services/courseService.ts:155-160 | pushing only unchosen ids keeps ids distinct |
| CourseService.RecommendBounded | src/services/courseService.ts:159-164 | no more than six courses and no more than one per visited gap |
| CourseService.RecommendPicksFirstRelevant | src/services/courseService.ts:149-161 | earlier picks stay, and each new course is the first relevant one for some visited gap when it was picked |
| CourseService.GetRecommendedCoursesCorrect | src/services/courseService.ts:135-168 | catalog courses with distinct ids, at most six and at most one per gap; each is the first course, not yet chosen, teaching some gap of known importance |
| ResumeParser.FoundSkills | src/utils/resumeParser.ts:85-87 | keeps exactly the candidates whose lower-case form occurs in the lower-cased text |
| ResumeParser.FoundSkillsSubsequence | src/utils/resumeParser.ts:85 | the filter keeps list order |
| ResumeParser.ExtractSkills | src/utils/resumeParser.ts:81-90 | defines extractSkills: nothing for empty text, else the de-duplicated found skills (facts in ExtractSkillsCorrect) |
| ResumeParser.ExtractSkillsEmpty | src/utils/resumeParser.ts:82 | the empty text yields no skills |
| ResumeParser.ExtractSkillsCorrect | src/utils/resumeParser.ts:81-90 | exactly the common skills occurring in the lower-cased non-empty text, without duplicates, in list order |
| ResumeParser.ExtractSkillsCaseInsensitive | src/utils/resumeParser.ts:84 | extractSkills(t) equals extractSkills(lower(t)) |
| ResumeParser.ExtractSkillsMonotone | src/utils/resumeParser.ts:85-87 | adding text before or after never loses a found skill |
| ResumeParser.ExtractSkillsMember | src/utils/resumeParser.ts:82-87 | a common skill is found iff the text is non-empty and contains it, up to case |
| ResumeParser.JavaFoundWithJavascript | src/utils/resumeParser.ts:85-87 | finding "javascript" always finds "java" too |
| ResumeParser.SkillRFoundWithLetterR | src/utils/resumeParser.ts:85-87 | the skill "r" is found iff the text contains the letter r or R |
| ResumeParser.ExtractTextFromResume | src/utils/resumeParser.ts:64-74 | PDF files give the PDF extractor's outcome and DOCX files the DOCX extractor's; any other type fails with "Unsupported file format" |
| ResumeParser.ParseResume | src/utils/resumeParser.ts:97-105 | defines parseResume: the skills of the extracted text, or the single wrapped error (facts in ParseResumeOutcome) |
| ResumeParser.ParseResumeOutcome | src/utils/resumeParser.ts:97-105 | success iff the type is supported and extraction succeeds, and then the skills of the text; every failure is "Failed to parse resume" |
| ProfilePage.AddSkill | src/pages/Profile.tsx:39-45 | defines the skill list and input box after handleAddSkill (facts in AddSkillEffect) |
| ProfilePage.Toggled | src/pages/Profile.tsx:179-184 | defines the tag list after a tag click (facts in ToggledMembership) |
| ProfilePage.AddSkillEffect | src/pages/Profile.tsx:39-45 | a non-blank trimmed input not yet listed is appended and the box cleared; otherwise nothing changes; the appended entry is trimmed |
| ProfilePage.AddBlankSkill | src/pages/Profile.tsx:41 | blank input never changes the list or the box |
| ProfilePage.AddSkillKeepsDistinct | src/pages/Profile.tsx:41-42 | adding keeps the skill list free of duplicates |
| ProfilePage.AddSkillTwice | src/pages/Profile.tsx:41-42 | adding the same input again changes nothing |
| ProfilePage.RemoveSkillEffect | src/pages/Profile.tsx:47-49 | the removed skill is gone; every other entry keeps its multiplicity and order; a duplicate-free list stays so |
| ProfilePage.ToggledMembership | src/pages/Profile.tsx:179-184 | a toggle flips the tag's membership and leaves every other tag as it was |
| ProfilePage.ToggledKeepsOptions | src/pages/Profile.tsx:176-184 | toggling an offered tag keeps the selection a duplicate-free set of offered tags |
| ProfilePage.ToggleTwice | src/pages/Profile.tsx:179-184 | selecting an unselected tag and deselecting it restores the selection |
| ProfilePage.ProfilePage.constructor | src/pages/Profile.tsx:12-13 | starts with the given skills, an empty box and the tags Tech and Remote |
| ProfilePage.ProfilePage.SetNewSkill | src/pages/Profile.tsx:13 | typing sets only the input box |
| ProfilePage.ProfilePage.HandleAddSkill | src/pages/Profile.tsx:39-45 | the skills and box become AddSkill of the old ones; the tags are unchanged |
| ProfilePage.ProfilePage.HandleRemoveSkill | src/pages/Profile.tsx:47-49 | the skills lose every entry equal to the argument; nothing else changes |
| ProfilePage.ProfilePage.ToggleTag | src/pages/Profile.tsx:179-184 | the tags are toggled; nothing else changes |
| MatchesPage.Checked | src/pages/Matches.tsx:92-94 | defines a list filter after its box changes (facts in CheckedEffect) |
| MatchesPage.FilterChange | src/pages/Matches.tsx:84-104 | defines the filters after a change event (facts in FilterChangeFields) |
| MatchesPage.CheckedEffect | src/pages/Matches.tsx:92-94 | checking appends the value with no dedupe; unchecking drops every equal entry and keeps the rest in order |
| MatchesPage.FilterChangeFields | src/pages/Matches.tsx:84-104 | remote sets the flag, location and industry update their own list, any other name changes nothing; each branch leaves the other fields alone |
| MatchesPage.CheckUncheck | src/pages/Matches.tsx:87-102 | checking an unchecked box and unchecking it restores the filters |
| MatchesPage.UncheckIdempotent | src/pages/Matches.tsx:87-102 | unchecking twice equals unchecking once |
| MatchesPage.MatchesPage.constructor | src/pages/Matches.tsx:64-68 | filters start with remote off and empty lists |
| MatchesPage.MatchesPage.HandleFilterChange | src/pages/Matches.tsx:84-104 | the filters become FilterChange of the old filters |
| UploadPage.Accept | src/pages/Upload.tsx:45-62 | defines file and fileError after files are dropped or chosen (facts in AcceptEffect) |
| UploadPage.AnalyzeStarts | src/pages/Upload.tsx:77-95 | defines whether handleAnalyze passes its guards (facts in AnalyzeStartsIff) |
| UploadPage.Tick | src/pages/Upload.tsx:99-107 | defines one interval tick (facts in TickEffect) |
| UploadPage.Ticks | src/pages/Upload.tsx:98-108 | defines n ticks in a row (facts in TicksFromStart) |
| UploadPage.AcceptEffect | src/pages/Upload.tsx:45-62 | only the first file counts; a PDF or DOCX is stored; any other type leaves the file alone and sets the error message |
| UploadPage.AnalyzeStartsIff | src/pages/Upload.tsx:77-95 | analysis starts iff a file is there with manual entry off, or manual entry is on and the skills text has a non-space character |
| UploadPage.TickEffect | src/pages/Upload.tsx:99-107 | below 100 a tick adds 10; at 100 it stays 100, ends processing and sets processed; progress stays a multiple of 10 in [0,100] |
| UploadPage.TicksFromStart | src/pages/Upload.tsx:95-107 | from 0, n ≤ 10 ticks give progress 10n still processing; later ticks give 100 and processed |
| UploadPage.UploadPage.constructor | src/pages/Upload.tsx:9-17 | the initial field values |
| UploadPage.UploadPage.HandleDragOver | src/pages/Upload.tsx:31-34 | sets only isDragging |
| UploadPage.UploadPage.HandleDragLeave | src/pages/Upload.tsx:36-39 | clears only isDragging |
| UploadPage.UploadPage.HandleDrop | src/pages/Upload.tsx:41-53 | clears isDragging and applies Accept to the dropped files; nothing else changes |
| UploadPage.UploadPage.HandleFileChange | src/pages/Upload.tsx:55-64 | applies Accept to the chosen files; nothing else changes |
| UploadPage.UploadPage.HandleAnalyze | src/pages/Upload.tsx:76-95 | without a file or valid manual skills nothing changes; otherwise only isProcessing becomes true |
| UploadPage.UploadPage.ProgressTick | src/pages/Upload.tsx:99-107 | progress, isProcessing and processed become one Tick of the old values; progress stays valid |
| UploadPage.UploadPage.HandleRemoveFile | src/pages/Upload.tsx:111-115 | clears the file, resets progress to 0 and processed to false, nothing else |
| UploadPage.UploadPage.ToggleManualEntry | src/pages/Upload.tsx:192 | flips only manualEntry |
| UploadPage.UploadPage.SetSkills | src/pages/Upload.tsx:182 | sets only the skills text |
| Text.Lower | src/services/internshipService.ts:104-105 | each character is lower-cased: A–Z map to a–z, all else is kept |
| Text.LowerIdempotent | src/services/internshipService.ts:104-105 | lower-casing twice is lower-casing once |
| Text.ContainsWithin | src/utils/resumeParser.ts:86 | text containing a part still contains it with more text around it |
| Text.ContainsTransitive | src/utils/resumeParser.ts:86 | containment is transitive |
| Text.Trim | src/pages/Profile.tsx:41 | the result is the slice of the input between its leading and its trailing white space; every dropped character is white space and the result neither starts nor ends with it |
| Text.TrimEmptyIffBlank | src/pages/Upload.tsx:86 | trim gives "" iff every character is white space |
| Seqs.Dedup | src/utils/resumeParser.ts:89 | same members, no duplicates |
| Seqs.DedupSubsequence | src/utils/resumeParser.ts:89 | the de-duplicated list is a subsequence of the input |
| Seqs.DedupFirstOccurrences | src/utils/resumeParser.ts:89 | the de-duplicated list sits in the input at exactly the positions where an element first occurs, in increasing order |
| Seqs.RemoveAll | src/pages/Profile.tsx:48 | the value is gone and every other value keeps its multiplicity |
| Sorting.SortDescPermutes | src/services/internshipService.ts:145 | the sort is a permutation |
| Sorting.SortDescSorted | src/services/internshipService.ts:145 | the result is non-increasing in the key |
| Sorting.SortDescStable | src/services/internshipService.ts:145 | the elements with any one key keep their input order |

## Left out

- The simulated network delay and the `async` wrappers (`getAllInternships`, `getAllCourses`): the operations are synchronous and the catalog is a parameter.
- Timers: the 300 ms interval of `handleAnalyze` is not scheduled. The caller calls `UploadPage.UploadPage.ProgressTick` once per tick, and a second overlapping interval is not modelled.
- `handleRefresh` on the matches page only toggles a flag around a timeout and a toast, so it is not modelled.
- PDF and DOCX text extraction (pdf-lib and the File API). Their outcomes are `Result` parameters of `ResumeParser.ExtractTextFromResume`.
- `localStorage` persistence in the user context, the JSON export download, the profile name/email fields and `handleSave`. These are browser I/O or display only.
- Toasts, navigation, rendering. Two outcomes have no effect in the model:
  - the `useEffect` on the upload page that clears `fileError` after showing it; the model keeps the message;
  - the success toast when processing ends.
- The `disabled={isProcessing}` attribute of the Analyze button is not modelled. `HandleAnalyze` can be called while processing, as the handler itself allows.
- The fixed `matchScore` values and gaps hard-coded on the matches and skill-gap pages are not computed by the services. They are not modelled.
- Floating-point display arithmetic: the file size, progress bar width and SVG circle.
- InternshipService.CalculateMatchScore: `Math.round` over a float quotient is modelled as exact round-half-up. Binary floating point is not modelled.
- Text.Lower: lower-cases ASCII A–Z only. Unicode case mapping (`toLowerCase` on non-ASCII letters) is not modelled.
- InternshipService.GapTable: the occurrence table is kept in insertion order. `Object.entries` lists integer-like keys first; the catalog has none, so this order difference is not modelled.
- InternshipService.GapTable: the occurrence table counts every skill the same way. In the source it is a plain object literal, so keys that name inherited `Object` members behave differently there, and the model does not capture this. For `"constructor"`, the first increment reads the inherited function and gives a string instead of a number, and that entry then gets the label Low and sorts unpredictably. A `"__proto__"` key never becomes an entry at all. The mock catalog has no such skill.
