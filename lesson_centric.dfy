/** The lesson-centric analyser (`LessonCentricAnalyzer`): a long lesson is
    analysed chunk by chunk, one level deep, and the lesson pages the
    service reports for a chunk are moved by the chunk's offset. */
module LessonCentric {
  import opened Common
  import opened Records
  import Validators
  import PdfOperations

  // ---------------------------------------------------------------------
  // When to chunk, and how deep
  // ---------------------------------------------------------------------

  /** Lessons longer than this are analysed in chunks. */
  const MaxLessonPages := 40

  /** The chunk size `split_pdf_for_chunks` uses by default. */
  const ChunkPages := 30

  /** `_should_chunk_lesson`. */
  predicate ShouldChunkLesson(pageCount: int)
  {
    pageCount > MaxLessonPages
  }

  /** A lesson that is chunked is cut into at least two chunks. */
  lemma ChunkedIntoSeveral(total: int, chunks: seq<PdfOperations.Chunk>)
    requires PdfOperations.Tiles(chunks, total, ChunkPages)
    requires ShouldChunkLesson(total)
    ensures |chunks| >= 2
  {
  }

  /** The chunk ranges `analyze(jokbo, lesson, chunk_info=chunkInfo)`
      reaches the service with. `pageCount` is the lesson's page count and
      `chunks` what `split_pdf_for_chunks` cuts it into; a call made for
      a chunk is given the chunk's own page count and no chunks, which it
      never consults since its `chunkInfo` is present. */
  function Analyses(chunkInfo: Option<(int, int)>, pageCount: int, chunks: seq<PdfOperations.Chunk>)
    : seq<Option<(int, int)>>
    decreases if chunkInfo.None? then 1 else 0, 0
  {
    if chunkInfo.None? && ShouldChunkLesson(pageCount) then ChunkAnalyses(chunks)
    else [chunkInfo]
  }

  /** The loop of `_analyze_with_chunks`: each chunk analysed in turn. */
  function ChunkAnalyses(chunks: seq<PdfOperations.Chunk>): seq<Option<(int, int)>>
    decreases 0, |chunks| + 1
  {
    if chunks == [] then []
    else
      var c := chunks[|chunks| - 1];
      ChunkAnalyses(chunks[..|chunks| - 1]) + Analyses(Some((c.start, c.end)), c.end - c.start + 1, [])
  }

  lemma {:induction false} ChunkAnalysesDirect(chunks: seq<PdfOperations.Chunk>)
    ensures var r := ChunkAnalyses(chunks);
      |r| == |chunks| && forall i :: 0 <= i < |r| ==> r[i] == Some((chunks[i].start, chunks[i].end))
  {
    if chunks != [] {
      var n := |chunks| - 1;
      ChunkAnalysesDirect(chunks[..n]);
      var c := chunks[n];
      assert Analyses(Some((c.start, c.end)), c.end - c.start + 1, []) == [Some((c.start, c.end))];
    }
  }

  /** There is no re-chunking: an analysis of a chunk goes to the service
      as it is, and an analysis of a whole lesson goes either as it is or
      as one analysis per chunk, each carrying its chunk's range. */
  lemma AnalysesSpec(chunkInfo: Option<(int, int)>, pageCount: int, chunks: seq<PdfOperations.Chunk>)
    ensures var r := Analyses(chunkInfo, pageCount, chunks);
      && (chunkInfo.Some? || !ShouldChunkLesson(pageCount) ==> r == [chunkInfo])
      && (chunkInfo.None? && ShouldChunkLesson(pageCount) ==>
            |r| == |chunks| && forall i :: 0 <= i < |r| ==> r[i] == Some((chunks[i].start, chunks[i].end)))
  {
    if chunkInfo.None? && ShouldChunkLesson(pageCount) {
      ChunkAnalysesDirect(chunks);
    }
  }

  // ---------------------------------------------------------------------
  // Chunk offsets (`_post_process_results`)
  // ---------------------------------------------------------------------

  /** A slide with a lesson page has it moved by `offset`; one without is
      left as it is (`get("lesson_page", 0)` is only reached when the key
      is there, and `None + offset` raises and skips the slide). */
  function ShiftSlide(s: LessonSlide, offset: int): LessonSlide
  {
    if s.lessonPage.Some? then s.(lessonPage := Some(s.lessonPage.value + offset)) else s
  }

  function ShiftSlides(slides: seq<LessonSlide>, offset: int): (r: seq<LessonSlide>)
    ensures |r| == |slides|
  {
    seq(|slides|, i requires 0 <= i < |slides| => ShiftSlide(slides[i], offset))
  }

  /** `_post_process_results(result, chunk_info)`: with a chunk starting at
      `start`, every lesson page moves by `start - 1`, not bounded below. */
  function PostProcess(result: AnalysisResult, chunkInfo: Option<(int, int)>): AnalysisResult
  {
    if chunkInfo.None? || result.relatedSlides.None? then result
    else result.(relatedSlides := Some(ShiftSlides(result.relatedSlides.value, chunkInfo.value.0 - 1)))
  }

  /** `_post_process_results`, rewriting the slides in place. */
  method PostProcessResults(result: AnalysisResult, chunkInfo: Option<(int, int)>) returns (r: AnalysisResult)
    ensures r == PostProcess(result, chunkInfo)
  {
    if chunkInfo.None? {
      return result;
    }
    var (start, _) := chunkInfo.value;
    var offset := start - 1;
    if result.relatedSlides.None? {
      return result;
    }
    var slides := result.relatedSlides.value;
    ghost var target := ShiftSlides(slides, offset);
    var i := 0;
    while i < |slides|
      invariant 0 <= i <= |slides| == |result.relatedSlides.value|
      invariant forall k :: 0 <= k < i ==> slides[k] == target[k]
      invariant forall k :: i <= k < |slides| ==> slides[k] == result.relatedSlides.value[k]
    {
      var s := slides[i];
      assert target[i] == ShiftSlide(s, offset);
      if s.lessonPage.Some? {
        slides := slides[i := s.(lessonPage := Some(s.lessonPage.value + offset))];
      }
      i := i + 1;
    }
    assert slides == target;
    r := result.(relatedSlides := Some(slides));
  }

  /** Without a chunk, or without slides, nothing changes; with a chunk
      starting at `start`, each slide keeps its place and everything but
      its lesson page, which, when present, grows by exactly `start - 1`;
      the rest of the answer stays. */
  lemma PostProcessSpec(result: AnalysisResult, chunkInfo: Option<(int, int)>)
    ensures var r := PostProcess(result, chunkInfo);
      && (chunkInfo.None? || result.relatedSlides.None? ==> r == result)
      && r.(relatedSlides := None) == result.(relatedSlides := None)
      && r.relatedSlides.Some? == result.relatedSlides.Some?
      && (chunkInfo.Some? && result.relatedSlides.Some? ==>
            var a, b := result.relatedSlides.value, r.relatedSlides.value;
            && |b| == |a|
            && forall i :: 0 <= i < |a| ==>
                 && b[i].(lessonPage := None) == a[i].(lessonPage := None)
                 && b[i].lessonPage.Some? == a[i].lessonPage.Some?
                 && (a[i].lessonPage.Some? ==>
                       b[i].lessonPage.value == a[i].lessonPage.value + chunkInfo.value.0 - 1))
  {
  }

  /** Moving by `a` and then by `b` is moving by `a + b`; in particular the
      first chunk (offset 0) is left as it is. */
  lemma ShiftComposes(slides: seq<LessonSlide>, a: int, b: int)
    ensures ShiftSlides(ShiftSlides(slides, a), b) == ShiftSlides(slides, a + b)
    ensures ShiftSlides(slides, 0) == slides
  {
    var l, r := ShiftSlides(ShiftSlides(slides, a), b), ShiftSlides(slides, a + b);
    forall i | 0 <= i < |slides| ensures l[i] == r[i] {
      if slides[i].lessonPage.Some? {
        assert ShiftSlides(slides, a)[i].lessonPage.value == slides[i].lessonPage.value + a;
      }
    }
  }

  /** For a chunk `start..end` of a lesson of `total` pages, a page given
      relative to the chunk moves to the page `validate_and_adjust_page_number`
      accepts for it: its page in the whole lesson. */
  lemma ShiftAgreesWithValidator(s: LessonSlide, start: int, end: int, total: int)
    requires 1 <= start <= end <= total
    requires s.lessonPage.Some? && 1 <= s.lessonPage.value <= end - start + 1
    ensures Some(ShiftSlide(s, start - 1).lessonPage.value) ==
      Validators.ValidateAndAdjustPageNumber(s.lessonPage.value, start, end, total)
  {
  }
}
