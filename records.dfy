/** The shapes of the analysis results that the pipeline passes between
    its stages. The service answers in JSON; once decoded, each analysis
    mode has a small closed set of record shapes, given here. A field that
    the code tests for presence is an `Option`. */
module Records {
  import opened Common

  /** A lesson slide related to an exam question (jokbo-centric mode):
      `lesson_filename`, `lesson_page`, `relevance_score` (0 when absent). */
  datatype Slide = Slide(lessonFilename: string, lessonPage: Option<int>, relevanceScore: int)

  /** One exam question with the slides related to it. */
  datatype Question = Question(
    number: string,
    text: string,
    answer: string,
    explanation: string,
    slides: seq<Slide>)

  /** One page of the exam (`jokbo_page`) with the questions found on it. */
  datatype JokboPage = JokboPage(page: int, questions: seq<Question>)

  /** An exam question referenced from a lesson slide (lesson-centric mode). */
  datatype JokboRef = JokboRef(number: string, jokboPage: int, jokboFilename: string)

  /** A lesson slide with the exam questions related to it (lesson-centric mode). */
  datatype LessonSlide = LessonSlide(
    lessonFilename: string,
    lessonPage: Option<int>,
    importanceScore: Option<int>,
    keyConcepts: seq<string>,
    questions: seq<JokboRef>)

  datatype Warnings = Warnings(failedChunks: nat, partial: bool)

  /** The result of analysing one chunk or one pair of documents. */
  datatype AnalysisResult = AnalysisResult(
    error: Option<string>,
    jokboPages: Option<seq<JokboPage>>,
    relatedSlides: Option<seq<LessonSlide>>,
    warnings: Option<Warnings>)

  /** `"error" in result`. */
  predicate HasError(r: AnalysisResult) { r.error.Some? }

  /** `result.get("error")` is truthy: present and not the empty string. */
  predicate ErrorSet(r: AnalysisResult) { r.error.Some? && r.error.value != "" }

  function ErrorResult(msg: string): AnalysisResult
  {
    AnalysisResult(Some(msg), None, None, None)
  }

  function JokboResult(pages: seq<JokboPage>): AnalysisResult
  {
    AnalysisResult(None, Some(pages), None, None)
  }

  function LessonResult(slides: seq<LessonSlide>): AnalysisResult
  {
    AnalysisResult(None, None, Some(slides), None)
  }

  /** Total number of questions over a list of pages. */
  function QuestionCount(pages: seq<JokboPage>): nat
  {
    if pages == [] then 0 else |pages[0].questions| + QuestionCount(pages[1..])
  }

  /** Total number of slides over a list of questions. */
  function SlideCount(qs: seq<Question>): nat
  {
    if qs == [] then 0 else |qs[0].slides| + SlideCount(qs[1..])
  }
}
