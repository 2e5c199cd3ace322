# Admission requirements and merit scores, in Dafny

A model of the admission-requirement and merit-score engine of
*Interpret-grading-documents*: the grade table and requirement logic of
`RequirementChecker` and the two computational helpers of `HomeController`
that merge a student's transcripts and compute their merit average.

The engine takes a transcript (subject name, course code, grade token,
credit points as text) and two configurations: a requirement tree
(subjects holding courses with a level, a required grade, alternatives and
an "include in average" flag) and a list of courses for the merit average.
It answers:

- what a grade token is worth on a common 0–20 scale (three grading systems);
- which courses can stand in for a required course (same subject, same or
  higher level, plus declared alternatives);
- whether each required course is met, failed or missing, and by which
  course (direct, alternative at the same level, or higher level);
- the credit-weighted average grade over the flagged courses and over the
  configured merit courses, and a per-course merit table;
- one merged transcript, keeping the best grade per subject name.

## Layout

| file | module | models |
|---|---|---|
| `wrappers.dfy` | `Wrappers` | `Option` for C# `null`, `Result` for the exceptions |
| `text.dfy` | `Text` | `Trim`, `ToUpper`, `ToLower`, ordinal case-insensitive equality |
| `numbers.dfy` | `Numbers` | `int.Parse`/`int.TryParse` on 32-bit integers, `Math.Round(x, 2)` |
| `records.dfy` | `Records` | `CourseEquivalents`, `Subject`, `Course`, `AlternativeCourse`, the transcript, the result records |
| `grades.dfy` | `GradeScale` | `GradeMappings` and `GetGradeValue` |
| `scan.dfy` | `Scan` | the "first element that passes" shape of `FirstOrDefault` and early-exit loops |
| `equivalence.dfy` | `Equivalence` | `GetEquivalentCourses` |
| `evaluation.dfy` | `Evaluation` | the transcript scan of one required course and its report |
| `requirements.dfy` | `Requirements` | `DoesStudentMeetRequirement` over the whole tree |
| `weighted.dfy` | `Weighted` | running credit-weighted sums shared by both averages |
| `averagegrade.dfy` | `AverageGrade` | `CalculateAverageGrade` |
| `merittable.dfy` | `MeritTable` | `GetCourseMeritPoints` |
| `merge.dfy` | `Merge` | `HomeController.MergeDocuments` |
| `meritaverage.dfy` | `MeritAverage` | `HomeController.CalculateAverageMeritPoints` |

Each loop of the source is a `method` with a `while`/`for` loop proved equal
to a specification function (`Equivalents`, `Evaluate`, `RequirementsMet`,
`AverageOf`, `MeritPoints`, `MergeOf`, `AverageMeritPoints`); the lemmas
state what the source promises about those functions.

Grade values are exact `real`s (20, 17.5, 15, 12.5, 10, 0). Exceptions
become `Result.Err`: `MissingConfiguration` for the `InvalidOperationException`
on a null subject list, `NoMatchingElement` for `Enumerable.First` finding
nothing, `InvalidFormat` for `int.Parse` refusing the points text, and
`DuplicateKey` for `ToDictionary` meeting a repeated catalog code.
A case-insensitive dictionary is a map from the upper-cased key to the key
as first written and the value, since writing under a key already present
keeps the first spelling and replaces only the value. The
configuration files, the blob store and `ValidationData.GetCombinedCourses()`
are parameters: an optional list of merit courses and a list of catalog
courses.

Behaviour of the code worth noting:

- A grade-0 match through an equivalent course forces "not met" at any level,
  a higher-level one included (`RequirementChecker.cs:182-186`), not only for
  the course itself or a same-level alternative.
- An empty subject list is not refused: only a null one is
  (`RequirementChecker.cs:109-110`); an empty list gives an empty result.
- The fulfilling-course lookup after an alternative pass
  (`RequirementChecker.cs:210`) can throw when no equivalence entry carries the
  recorded name exactly (ignoring case, not trimming); the model returns
  `NoMatchingElement` there and `EvaluateFailsOnlyWhenNameUnlisted` says when.
- `CalculateAverageGrade` reads the points with `int.Parse`, which throws on
  text that is not a number; only the merit average defaults such text to 0.

## Model

| member | source | states |
|---|---|---|
| `GradeScale.GradeValue` | Interpret-grading-documents/Services/RequirementChecker.cs:235-245 | total; the value is one of 0, 10, 12.5, 15, 17.5, 20; a token whose trimmed upper-case form is not in the table is worth 0, one that is has its table value |
| `GradeScale.TableKeysAreUpperCase` | Interpret-grading-documents/Services/RequirementChecker.cs:56-76 | every key of the grade table is its own upper-case form, so the case-insensitive dictionary finds exactly the upper-cased token |
| `GradeScale.GradeValueIgnoresCaseAndPadding` | Interpret-grading-documents/Services/RequirementChecker.cs:235-245 | tokens equal ignoring case, with any white padding around the first, have the same value |
| `GradeScale.GradeValueOfLowerCase` | Interpret-grading-documents/Services/RequirementChecker.cs:237 | a lower-case spelling is worth what the upper-case one is |
| `GradeScale.ValueOfTableToken` | Interpret-grading-documents/Services/RequirementChecker.cs:56-76 | every table token, as written, is worth its table value (the three scales do not collide) |
| `GradeScale.TopLetterGrade` | Interpret-grading-documents/Services/RequirementChecker.cs:58 | "A" in any case and padding is worth 20 |
| `Text.TrimIdempotent` | Interpret-grading-documents/Services/RequirementChecker.cs:237 | trimming a trimmed string changes nothing |
| `Text.UpperTrimCommute` | Interpret-grading-documents/Services/RequirementChecker.cs:237 | trimming then upper-casing equals upper-casing then trimming |
| `Text.LoweredKeysCompareExactly` | Interpret-grading-documents/Controllers/HomeController.cs:261-267 | lower-cased keys are equal under the case-insensitive comparer exactly when they are equal |
| `Numbers.ParseInt32` | Interpret-grading-documents/Controllers/HomeController.cs:324 | every value the parse yields lies in the 32-bit range; `ParseInt32OfText` is its round trip with printing |
| `Numbers.ParseInt32OfText` | Interpret-grading-documents/Services/RequirementChecker.cs:319 | the decimal text of any non-negative 32-bit value, with white padding, parses back to that value |
| `Numbers.ParseInt32OfNegativeText` | Interpret-grading-documents/Services/RequirementChecker.cs:319 | a minus sign and the digits of a negative 32-bit value parse back to it |
| `Numbers.Round2` | Interpret-grading-documents/Controllers/HomeController.cs:350 | rounding to two decimals moves the value by at most 0.005 |
| `Numbers.RoundHalfEven` | Interpret-grading-documents/Services/RequirementChecker.cs:343 | the nearest integer, halves to the even one, integers unchanged |
| `Numbers.Round2KeepsCents` | Interpret-grading-documents/Controllers/HomeController.cs:350 | a value with two decimals is left as it is |
| `Numbers.Round2WithinGradeRange` | Interpret-grading-documents/Services/RequirementChecker.cs:343 | rounding keeps a value in [0, 20] inside [0, 20] |
| `Equivalence.FirstAnswering` | Interpret-grading-documents/Services/RequirementChecker.cs:259-265 | the first course of a subject whose name, code, or an alternative's name or code equals the query after trimming, ignoring case; none exactly when no course does |
| `Equivalence.FirstAnsweringSubject` | Interpret-grading-documents/Services/RequirementChecker.cs:257-267 | the first subject holding an answering course; none exactly when no subject does |
| `Equivalence.Equivalents` | Interpret-grading-documents/Services/RequirementChecker.cs:247-293 | the equivalence list is never empty |
| `Equivalence.GetEquivalentCourses` | Interpret-grading-documents/Services/RequirementChecker.cs:247-293 | a null subject list is refused; otherwise the loops build exactly the specified equivalence list |
| `Equivalence.AppendHigherOrEqual` | Interpret-grading-documents/Services/RequirementChecker.cs:271-281 | appends, in order, each course of level at least the pivot followed by its alternatives at that course's level |
| `Equivalence.FallbackWhenUnmatched` | Interpret-grading-documents/Services/RequirementChecker.cs:286-290 | when no course of any subject answers, the list is exactly the query as name and code at level 0 |
| `Equivalence.ResolvedByFirstMatch` | Interpret-grading-documents/Services/RequirementChecker.cs:257-283 | the list is the expansion of the first answering subject around its first answering course's level, and holds that course |
| `Equivalence.ExpandMembership` | Interpret-grading-documents/Services/RequirementChecker.cs:271-281 | an entry is in the expansion exactly when it is a course of level at least the pivot or one of that course's alternatives |
| `Equivalence.BlockEntries` | Interpret-grading-documents/Services/RequirementChecker.cs:275-279 | each entry of a course's block is the course or one of its alternatives, at the course's level |
| `Equivalence.EntriesComeFromMatchedSubject` | Interpret-grading-documents/Services/RequirementChecker.cs:267-282 | every entry comes from the first matching subject, at a level no lower than the matched course's, alternatives at their parent's level |
| `Equivalence.ExpandLayout` | Interpret-grading-documents/Services/RequirementChecker.cs:273-281 | each kept course sits immediately before its alternatives, after the blocks of the courses before it |
| `Equivalence.TreeCourseResolves` | Interpret-grading-documents/Services/RequirementChecker.cs:118-123 | a course of the tree always answers its own name, so resolving it never falls back |
| `Evaluation.FirstMatchingEquivalent` | Interpret-grading-documents/Services/RequirementChecker.cs:159-163 | the first entry whose name or code equals the line's trimmed name or code; none exactly when no entry does |
| `Evaluation.Classify` | Interpret-grading-documents/Services/RequirementChecker.cs:138-192 | a line is a direct match exactly when its trimmed name or code equals the requirement's name; otherwise it matches an entry it answers to with no earlier entry answering (the first one wins); no match exactly when neither |
| `Evaluation.FirstNamed` | Interpret-grading-documents/Services/RequirementChecker.cs:210 | the first entry whose name equals the given one ignoring case; none exactly when no entry does |
| `Evaluation.ScanLine` | Interpret-grading-documents/Services/RequirementChecker.cs:136-195 | one transcript line updates the flags and strings exactly as the step function says, stopping at the first matching entry |
| `Evaluation.EvaluateRequirement` | Interpret-grading-documents/Services/RequirementChecker.cs:118-226 | the scan of the whole transcript and the report equal the specified verdict |
| `Evaluation.FailureOverrides` | Interpret-grading-documents/Services/RequirementChecker.cs:150-206 | any matching line of grade value 0, direct or by an equivalent at any level, makes the course not met with grade "F", whatever passed before or after |
| `Evaluation.MetExactly` | Interpret-grading-documents/Services/RequirementChecker.cs:144-201 | met exactly when some direct or same-level equivalent line has a grade at least the required one and above 0, and no matching line has grade 0 |
| `Evaluation.HigherAloneNeverMeets` | Interpret-grading-documents/Services/RequirementChecker.cs:175-180 | without a direct or same-level pass the course is not met, even with a higher-level pass |
| `Evaluation.HigherReported` | Interpret-grading-documents/Services/RequirementChecker.cs:222-224 | the higher-level flag is set exactly by a pass above the required level; its name and grade are present exactly under the flag, the name that of an entry above the required level |
| `Evaluation.AlternativeReported` | Interpret-grading-documents/Services/RequirementChecker.cs:219-221 | the alternative flag is set exactly by a same-level equivalent pass; its name and grade are present exactly under the flag; when met that way the name is an entry's name |
| `Evaluation.UnmatchedReport` | Interpret-grading-documents/Services/RequirementChecker.cs:125-134 | with no matching line the result is not met, grade "N/A", the requirement's own name, no flags and no notes |
| `Evaluation.EvaluateFailsOnlyWhenNameUnlisted` | Interpret-grading-documents/Services/RequirementChecker.cs:208-211 | the fulfilling-name lookup throws only when the course was met by a same-level equivalent, nothing failed, and no entry carries the requirement's name |
| `Requirements.CourseVerdict` | Interpret-grading-documents/Services/RequirementChecker.cs:118-123 | one course's equivalents and verdict, as specified |
| `Requirements.GatherCourses` | Interpret-grading-documents/Services/RequirementChecker.cs:116-227 | the inner loop stores each course's verdict under its name, a later name equal ignoring case overwriting the value but not the key's spelling, the first failure aborting |
| `Requirements.DoesStudentMeetRequirement` | Interpret-grading-documents/Services/RequirementChecker.cs:107-231 | a null subject list is refused; otherwise the result is the specified verdict dictionary |
| `Requirements.AllCoursesMembership` | Interpret-grading-documents/Services/RequirementChecker.cs:114-116 | the evaluated courses are exactly the courses of the subjects |
| `Requirements.ResultOkExactly` | Interpret-grading-documents/Services/RequirementChecker.cs:210 | the result exists exactly when every course's verdict does |
| `Requirements.ResultKeys` | Interpret-grading-documents/Services/RequirementChecker.cs:112 | one key per course name of the tree, ignoring case, and no other key |
| `Requirements.ResultHoldsLastVerdict` | Interpret-grading-documents/Services/RequirementChecker.cs:213-226 | a course's key holds its verdict when no later course has the same name ignoring case |
| `Requirements.ResultKeepsFirstSpelling` | Interpret-grading-documents/Services/RequirementChecker.cs:112-213 | a key is spelled as the first course of the tree with that name (ignoring case) spells it; later writes change only the value |
| `Weighted.AddWithinScale` | Interpret-grading-documents/Services/RequirementChecker.cs:321-322 | adding a share on the grade scale keeps the weighted sum between 0 and 20 times the points |
| `Weighted.MeanWithinScale` | Interpret-grading-documents/Services/RequirementChecker.cs:340-343 | the rounded mean of sums on the scale is in [0, 20] |
| `AverageGrade.FirstAnsweringLine` | Interpret-grading-documents/Services/RequirementChecker.cs:312-316 | the first transcript line answering to some entry; none exactly when no line does |
| `AverageGrade.CourseShare` | Interpret-grading-documents/Services/RequirementChecker.cs:308-331 | the loop for one course gives its specified contribution |
| `AverageGrade.AccumulateCourses` | Interpret-grading-documents/Services/RequirementChecker.cs:306-334 | the inner loop adds each course's contribution to the sums; the first parse failure aborts |
| `AverageGrade.CalculateAverageGrade` | Interpret-grading-documents/Services/RequirementChecker.cs:296-344 | a null subject list is refused; otherwise the result is the specified rounded mean |
| `AverageGrade.ContributionMeaning` | Interpret-grading-documents/Services/RequirementChecker.cs:308-322 | a course adds nothing exactly when unflagged or unanswered; otherwise the first answering line's grade value and parsed points, or a format error when the points are not a number |
| `AverageGrade.ContributionInScale` | Interpret-grading-documents/Services/RequirementChecker.cs:318-319 | a counted share is on the grade scale when points are not negative |
| `AverageGrade.AverageOkExactly` | Interpret-grading-documents/Services/RequirementChecker.cs:319 | the average exists exactly when no counted line's points fail to parse |
| `AverageGrade.ZeroWhenNothingCounts` | Interpret-grading-documents/Services/RequirementChecker.cs:337-338 | with no flagged course answered on the transcript the average is 0 |
| `AverageGrade.AverageWithinScale` | Interpret-grading-documents/Services/RequirementChecker.cs:337-343 | with points that are not negative the average lies in [0, 20] |
| `AverageGrade.TotalErrSticks` | Interpret-grading-documents/Services/RequirementChecker.cs:319 | once a parse failure is met, no later course changes the outcome |
| `MeritTable.CodesOf` | Interpret-grading-documents/Services/RequirementChecker.cs:354-356 | the entry's own code first, then each alternative's code in order |
| `MeritTable.FirstMatchingLine` | Interpret-grading-documents/Services/RequirementChecker.cs:360-384 | the first line whose trimmed code is one of the entry's codes ignoring case; none exactly when no line's is |
| `MeritTable.MeritEntry` | Interpret-grading-documents/Services/RequirementChecker.cs:352-400 | the loop for one configured course yields its specified key and record |
| `MeritTable.GetCourseMeritPoints` | Interpret-grading-documents/Services/RequirementChecker.cs:346-404 | no configuration gives an empty table; otherwise the table of the entries stored in order |
| `MeritTable.UnmatchedEntry` | Interpret-grading-documents/Services/RequirementChecker.cs:386-400 | an entry matching no line is keyed by its own name, grade "N/A", merit 0 |
| `MeritTable.MatchedEntry` | Interpret-grading-documents/Services/RequirementChecker.cs:360-383 | a matching entry is keyed by the first matching line's name and worth that line's grade value |
| `MeritTable.ListedCodeMatches` | Interpret-grading-documents/Services/RequirementChecker.cs:363 | a line carrying the entry's code or an alternative's code, ignoring case, matches |
| `MeritTable.EntryOnScale` | Interpret-grading-documents/Services/RequirementChecker.cs:365-366 | every merit point is a grade value |
| `MeritTable.TableEntries` | Interpret-grading-documents/Services/RequirementChecker.cs:352-403 | the table holds the key of every configured course, and each stored pair is some course's entry |
| `MeritTable.TableOnScale` | Interpret-grading-documents/Services/RequirementChecker.cs:366 | every merit point in the table is a grade value |
| `MeritTable.TableHoldsLastEntry` | Interpret-grading-documents/Services/RequirementChecker.cs:380 | a course's entry is in the table when no later course has the same key |
| `Merge.KeepAll` | Interpret-grading-documents/Controllers/HomeController.cs:261-284 | the dictionary lists each key once, holds exactly the listed keys, each under its own key |
| `Merge.KeepAllKeys` | Interpret-grading-documents/Controllers/HomeController.cs:267-282 | a key is kept exactly when some input line has it |
| `Merge.KeepAllBest` | Interpret-grading-documents/Controllers/HomeController.cs:269-282 | the line kept under a key is an input line of that key with the highest grade value, the first such |
| `Merge.KeepLine` | Interpret-grading-documents/Controllers/HomeController.cs:267-282 | one line is added under a new key, or replaces the kept one only when strictly better |
| `Merge.KeepLines` | Interpret-grading-documents/Controllers/HomeController.cs:265-283 | the inner loop keeps the lines of one document after the earlier documents' |
| `Merge.MergeDocuments` | Interpret-grading-documents/Controllers/HomeController.cs:250-289 | the loops build exactly the specified merged document |
| `Merge.MergedKeysDistinct` | Interpret-grading-documents/Controllers/HomeController.cs:261-286 | no two merged lines share a trimmed lower-case subject name |
| `Merge.MergedCoversInput` | Interpret-grading-documents/Controllers/HomeController.cs:263-286 | every input key has a merged line |
| `Merge.MergedKeepsBest` | Interpret-grading-documents/Controllers/HomeController.cs:269-286 | every merged line is an input line with the highest grade value of its key, the first such in document order |
| `Merge.MergedHeader` | Interpret-grading-documents/Controllers/HomeController.cs:252-259 | name, personal id and degree flag are the first document's, and absent (null) when there is no document |
| `MeritAverage.FirstCatalogued` | Interpret-grading-documents/Controllers/HomeController.cs:329-331 | the first of the codes whose trimmed form the catalog holds; none exactly when none is held |
| `MeritAverage.BuildCatalog` | Interpret-grading-documents/Controllers/HomeController.cs:300-302 | the loop builds the specified catalog dictionary or refuses a duplicate key |
| `MeritAverage.CatalogOkExactly` | Interpret-grading-documents/Controllers/HomeController.cs:300-302 | the catalog is built exactly when no two courses with a code share a trimmed case-insensitive code |
| `MeritAverage.CatalogHolds` | Interpret-grading-documents/Controllers/HomeController.cs:300-302 | a built catalog holds every course with a code under that code |
| `MeritAverage.CatalogFrom` | Interpret-grading-documents/Controllers/HomeController.cs:301 | every catalog key is the code of a course with a non-empty code |
| `MeritAverage.EntryShare` | Interpret-grading-documents/Controllers/HomeController.cs:307-343 | the loop body finds a share exactly when the entry is on the transcript or in the catalog, and that share is the specified one |
| `MeritAverage.SumEntries` | Interpret-grading-documents/Controllers/HomeController.cs:304-347 | the running sums after the loop are the specified sums of the shares of all configured entries, skipped entries adding nothing |
| `MeritAverage.CalculateAverageMeritPoints` | Interpret-grading-documents/Controllers/HomeController.cs:291-351 | no configuration gives 0; otherwise the loop's sums give the specified rounded mean |
| `MeritAverage.MatchedShare` | Interpret-grading-documents/Controllers/HomeController.cs:320-325 | an entry found on the transcript adds the first matching line's grade value and parsed points, 0 points when they are not a number |
| `MeritAverage.CataloguedShare` | Interpret-grading-documents/Controllers/HomeController.cs:326-337 | an entry absent from the transcript adds grade 0 with the first catalogued code's points, 0 when it has none |
| `MeritAverage.SkippedShare` | Interpret-grading-documents/Controllers/HomeController.cs:338-342 | an entry in neither place adds nothing |
| `MeritAverage.SkipChangesNothing` | Interpret-grading-documents/Controllers/HomeController.cs:341 | a skipped entry changes neither sum: dropping it gives the same sums |
| `MeritAverage.SumSharesConcat` | Interpret-grading-documents/Controllers/HomeController.cs:345-346 | the sums of two runs of entries add up |
| `MeritAverage.NoConfigurationGivesZero` | Interpret-grading-documents/Controllers/HomeController.cs:293-294 | without a configuration the average is 0 |
| `MeritAverage.AverageOkExactly` | Interpret-grading-documents/Controllers/HomeController.cs:300-302 | the average is refused exactly when there is a configuration and the catalog has a duplicate code |
| `MeritAverage.AllSkippedGivesZero` | Interpret-grading-documents/Controllers/HomeController.cs:338-350 | when every entry is skipped the average is 0, not an error |
| `MeritAverage.SingleTopGrade` | Interpret-grading-documents/Controllers/HomeController.cs:345-350 | one contributing entry with value 20 and positive points, the rest skipped, gives exactly 20 |
| `MeritAverage.TopGradeLine` | Interpret-grading-documents/Controllers/HomeController.cs:320-324 | an entry whose first matching line has grade "A" and points p adds value 20 with p points |
| `MeritAverage.AverageWithinScale` | Interpret-grading-documents/Controllers/HomeController.cs:345-350 | with points that are not negative on the transcript and in the catalog the average lies in [0, 20] |

## Left out

- File and JSON loading (`LoadCourseEquivalents`, `LoadCoursesForAverage`, the path-taking overload of `DoesStudentMeetRequirement`, `LoadCoursesForAverageAsync`): the parsed structures are parameters, `None` standing for a missing file or a null list.
- `ValidationData.GetCombinedCourses()` is not part of this model: its values are a parameter, a sequence of catalog courses with a code and optional points, in the dictionary's enumeration order.
- Azure blob storage, controller actions, cookies, the session store and the GPT extraction step: I/O and plumbing outside the engine.
- `Console.WriteLine` tracing in `CalculateAverageGrade`.
- The merged document's `Id = Guid.NewGuid()`: randomness; the model's document has no id.
- `null` below the top level (a null course list, name, code or grade, a null alternatives list): only a null subject list of the requirement tree and the optional header fields and points are modelled; the C# `?.` guards and the exceptions a null would raise elsewhere are not.
- `Numbers.Round2`: models `Math.Round(x, 2)` on exact reals with halves to even; the binary rounding of `double` arithmetic before it is not modelled.
- `Text.Upper`, `Text.Lower`, `Text.Trim`: case folding covers ASCII letters only and trimming covers space and U+0009..U+000D, not the full Unicode sets of .NET.
- 32-bit wrap-around of the `int` point totals in both averages: the sums are unbounded integers (it takes more than 2^31 points to differ).
- The enumeration order of the merged subjects: the model keeps the insertion order of keys, but no contract promises an order.
- The unawaited `CalculateAverageMeritPoints` call in `CheckRequirements` (caller glue).
