/** The records the core reads and produces: the requirement tree of
    `RequirementChecker.cs`, the transcript, and the result records. */
module Records {
  import opened Wrappers

  // ---------------------------------------------------------------------------
  // Requirement tree (`CourseEquivalents` and its parts)

  /** A course that is fully interchangeable with its parent course. */
  datatype AlternativeCourse = AlternativeCourse(name: string, code: string)

  /** One required course: its level orders the courses of a subject. */
  datatype Course = Course(
    name: string,
    code: string,
    level: int,
    alternatives: seq<AlternativeCourse>,
    requiredGrade: string,
    includeInAverage: bool)

  datatype Subject = Subject(name: string, courses: seq<Course>)

  /** The root of the tree; `subjects` is `None` when the configuration left it null. */
  datatype CourseEquivalents = CourseEquivalents(subjects: Option<seq<Subject>>)

  /** An entry of an equivalence list: the `Course { Name, Code, Level }` records
      `GetEquivalentCourses` builds. */
  datatype Equivalent = Equivalent(name: string, code: string, level: int)

  // ---------------------------------------------------------------------------
  // Transcript (`GPTService.GraduationDocument` and `GPTService.Subject`)

  /** One line of a transcript; the credit weight is text, as extracted. */
  datatype StudentSubject = StudentSubject(
    subjectName: string,
    courseCode: string,
    grade: string,
    gymnasiumPoints: string)

  datatype GraduationDocument = GraduationDocument(
    fullName: Option<string>,
    personalId: Option<string>,
    hasValidDegree: Option<bool>,
    documentName: string,
    subjects: seq<StudentSubject>)

  // ---------------------------------------------------------------------------
  // Results

  /** The verdict on one required course; the optional fields are C# `null`s. */
  datatype RequirementResult = RequirementResult(
    courseName: string,
    requiredGrade: string,
    isMet: bool,
    studentGrade: string,
    metByAlternativeCourse: bool,
    alternativeCourseName: Option<string>,
    alternativeCourseGrade: Option<string>,
    metByHigherLevelCourse: bool,
    higherLevelCourseName: Option<string>,
    higherLevelCourseGrade: Option<string>,
    otherGradesInAlternatives: seq<string>)

  datatype MeritPointResult = MeritPointResult(
    courseName: string,
    studentGrade: string,
    meritPoint: real,
    originalCourseGrade: string,
    alternativeCourseGrade: Option<string>,
    otherGradesInAlternatives: seq<string>)

  // ---------------------------------------------------------------------------
  // Merit-average configuration and the course catalog

  /** One entry of the courses-for-average list. */
  datatype CourseForAverage = CourseForAverage(
    code: string,
    name: string,
    alternativeCourses: seq<AlternativeCourse>)

  /** A catalog course with its nominal credit points (`int?`). */
  datatype CourseDetail = CourseDetail(courseCode: string, points: Option<int>)
}
