/** `MultiAPIAnalyzer.analyze_with_chunk_retry`: the chunks of one file are
    handed out to the API keys as tasks, the answers come back in whatever
    order the workers finish, and are put back in chunk order, filled in
    where missing, and merged. The distribution itself (`distribute_tasks`,
    modelled in `MultiApi`) is an input here: the list of entries it
    returns. */
module MultiApiAnalysis {
  import opened Common
  import opened Records
  import ResultMerger
  import PdfOperations
  import LessonCentric
  import Validators

  // ---------------------------------------------------------------------
  // Tasks and workers
  // ---------------------------------------------------------------------

  /** `max_workers`: one per task, but no more than there are keys, and at
      least one. */
  function ChunkWorkers(tasks: nat, keys: nat): (w: int)
    ensures w >= 1
    ensures tasks >= 1 && keys >= 1 ==> w <= tasks && w <= keys && (w == tasks || w == keys)
    ensures tasks == 0 || keys == 0 ==> w == 1
  {
    var m := Min(tasks, keys);
    if m <= 0 then 1 else m
  }

  /** The chunk range handed to the chunk's analysis, as written: only the
      exam-centric analyser is told where its chunk starts. */
  function ChunkInfoForAsWritten(mode: string, c: PdfOperations.Chunk): Option<(int, int)>
  {
    if mode == "lesson-centric" then None else Some((c.start, c.end))
  }

  /** As written, a lesson-centric chunk that starts at page 31 reports a
      slide on its first page as page 1 of the lesson, where the lesson's
      own page is 31. */
  lemma LessonChunkPageStaysRelative(result: AnalysisResult, s: LessonSlide)
    requires result.relatedSlides == Some([s]) && s.lessonPage == Some(1)
    ensures var c := PdfOperations.Chunk("chunk.pdf", 31, 60);
      var r := LessonCentric.PostProcess(result, ChunkInfoForAsWritten("lesson-centric", c));
      && r.relatedSlides.value[0].lessonPage == Some(1)
      && Validators.ValidateAndAdjustPageNumber(1, 31, 60, 70) == Some(31)
  {
  }

  /** The chunk range handed to the chunk's analysis, as the lesson-centric
      analyser's own chunk loop passes it: in both modes. */
  function ChunkInfoFor(mode: string, c: PdfOperations.Chunk): (r: Option<(int, int)>)
    ensures r.Some? && r.value.0 == c.start
  {
    Some((c.start, c.end))
  }

  /** With the range passed, a lesson page given relative to its chunk
      becomes the lesson's own page, in both modes. */
  lemma ChunkPagesBecomeAbsolute(mode: string, c: PdfOperations.Chunk, result: AnalysisResult, total: int)
    requires 1 <= c.start <= c.end <= total && result.relatedSlides.Some?
    requires forall i :: 0 <= i < |result.relatedSlides.value| ==>
      var p := result.relatedSlides.value[i].lessonPage;
      p.Some? && 1 <= p.value <= c.end - c.start + 1
    ensures var r := LessonCentric.PostProcess(result, ChunkInfoFor(mode, c)).relatedSlides.value;
      forall i :: 0 <= i < |r| ==>
        Some(r[i].lessonPage.value) ==
          Validators.ValidateAndAdjustPageNumber(result.relatedSlides.value[i].lessonPage.value, c.start, c.end, total)
  {
    var a := result.relatedSlides.value;
    LessonCentric.PostProcessSpec(result, ChunkInfoFor(mode, c));
    forall i | 0 <= i < |a|
      ensures Some(a[i].lessonPage.value + c.start - 1) ==
        Validators.ValidateAndAdjustPageNumber(a[i].lessonPage.value, c.start, c.end, total)
    {
      LessonCentric.ShiftAgreesWithValidator(a[i], c.start, c.end, total);
    }
  }

  // ---------------------------------------------------------------------
  // Putting the answers back in chunk order
  // ---------------------------------------------------------------------

  /** An entry of `distribute_tasks`' answer: the operation's `(index,
      result)` pair; the `{"error": ..., "task": ...}` dict of a task that
      failed on every key, with its error when it has one and the index of
      its task when that can be read; or anything else. */
  datatype RawEntry =
    | Pair(idx: int, result: AnalysisResult)
    | TaskError(error: Option<string>, taskIdx: Option<int>)
    | Other

  /** The slot an entry fills and what it puts there, if any. */
  function Target(e: RawEntry): Option<(int, AnalysisResult)>
  {
    match e
    case Pair(idx, result) => Some((idx, result))
    case TaskError(error, taskIdx) =>
      if taskIdx.Some? then
        Some((taskIdx.value, ErrorResult(if error.Some? then error.value else "Unknown error")))
      else None
    case Other => None
  }

  predicate Targets(e: RawEntry, i: int)
  {
    Target(e).Some? && Target(e).value.0 == i
  }

  /** `[None] * n`. */
  function Nones(n: nat): (r: seq<Option<AnalysisResult>>)
    ensures |r| == n && forall i :: 0 <= i < n ==> r[i].None?
  {
    seq(n, _ => None)
  }

  /** The slots after the entries have been placed one after the other;
      an index outside the slots is ignored. */
  function Place(slots: seq<Option<AnalysisResult>>, raw: seq<RawEntry>): (r: seq<Option<AnalysisResult>>)
    ensures |r| == |slots|
  {
    if raw == [] then slots
    else
      var s := Place(slots, raw[..|raw| - 1]);
      var t := Target(raw[|raw| - 1]);
      if t.Some? && 0 <= t.value.0 < |s| then s[t.value.0 := Some(t.value.1)] else s
  }

  /** The collection loop. */
  method OrderResults(n: nat, raw: seq<RawEntry>) returns (ordered: seq<Option<AnalysisResult>>)
    ensures ordered == Place(Nones(n), raw)
  {
    ordered := Nones(n);
    var k := 0;
    while k < |raw|
      invariant 0 <= k <= |raw|
      invariant ordered == Place(Nones(n), raw[..k])
    {
      assert raw[..k + 1][..k] == raw[..k];
      match raw[k] {
        case Pair(idx, result) =>
          if 0 <= idx < |ordered| {
            ordered := ordered[idx := Some(result)];
          }
        case TaskError(error, taskIdx) =>
          if taskIdx.Some? && 0 <= taskIdx.value < |ordered| {
            var msg := if error.Some? then error.value else "Unknown error";
            ordered := ordered[taskIdx.value := Some(ErrorResult(msg))];
          }
        case Other =>
      }
      k := k + 1;
    }
    assert raw[..k] == raw;
  }

  /** A slot no entry names keeps what it held. */
  lemma {:induction false} PlaceUntouched(slots: seq<Option<AnalysisResult>>, raw: seq<RawEntry>, i: int)
    requires 0 <= i < |slots|
    requires forall j :: 0 <= j < |raw| ==> !Targets(raw[j], i)
    ensures Place(slots, raw)[i] == slots[i]
  {
    if raw != [] {
      var n := |raw| - 1;
      forall j | 0 <= j < n ensures !Targets(raw[..n][j], i) {
        assert raw[..n][j] == raw[j];
      }
      PlaceUntouched(slots, raw[..n], i);
    }
  }

  /** A slot named by some entry holds what the last entry naming it
      carries. */
  lemma {:induction false} PlaceLast(slots: seq<Option<AnalysisResult>>, raw: seq<RawEntry>, i: int, j: int)
    requires 0 <= i < |slots| && 0 <= j < |raw| && Targets(raw[j], i)
    requires forall k :: j < k < |raw| ==> !Targets(raw[k], i)
    ensures Place(slots, raw)[i] == Some(Target(raw[j]).value.1)
  {
    var n := |raw| - 1;
    if j < n {
      forall k | j < k < n ensures !Targets(raw[..n][k], i) {
        assert raw[..n][k] == raw[k];
      }
      assert raw[..n][j] == raw[j];
      PlaceLast(slots, raw[..n], i, j);
    }
  }

  /** No two entries name the same slot. */
  predicate DistinctTargets(raw: seq<RawEntry>)
  {
    forall j, k :: 0 <= j < k < |raw| && Target(raw[j]).Some? && Target(raw[k]).Some? ==>
      Target(raw[j]).value.0 != Target(raw[k]).value.0
  }

  /** When each chunk's answer comes back once, slot `i` holds `r` exactly
      when some entry carries `r` for index `i`. */
  lemma PlaceDistinct(n: nat, raw: seq<RawEntry>, i: int, r: AnalysisResult)
    requires DistinctTargets(raw) && 0 <= i < n
    ensures Place(Nones(n), raw)[i] == Some(r) <==> exists j :: 0 <= j < |raw| && Target(raw[j]) == Some((i, r))
  {
    if exists j :: 0 <= j < |raw| && Targets(raw[j], i) {
      var j :| 0 <= j < |raw| && Targets(raw[j], i);
      PlaceLast(Nones(n), raw, i, j);
    } else {
      PlaceUntouched(Nones(n), raw, i);
    }
  }

  /** The order in which the workers finish does not matter: two answers
      holding the same entries, each chunk answered once, give the same
      slots. */
  lemma PlaceOrderFree(n: nat, raw1: seq<RawEntry>, raw2: seq<RawEntry>)
    requires multiset(raw1) == multiset(raw2)
    requires DistinctTargets(raw1) && DistinctTargets(raw2)
    ensures Place(Nones(n), raw1) == Place(Nones(n), raw2)
  {
    var a, b := Place(Nones(n), raw1), Place(Nones(n), raw2);
    forall i | 0 <= i < n ensures a[i] == b[i] {
      if a[i].Some? {
        PlaceDistinct(n, raw1, i, a[i].value);
        PlaceDistinct(n, raw2, i, a[i].value);
        var j :| 0 <= j < |raw1| && Target(raw1[j]) == Some((i, a[i].value));
        assert raw1[j] in multiset(raw2);
      }
      if b[i].Some? {
        PlaceDistinct(n, raw1, i, b[i].value);
        PlaceDistinct(n, raw2, i, b[i].value);
        var j :| 0 <= j < |raw2| && Target(raw2[j]) == Some((i, b[i].value));
        assert raw2[j] in multiset(raw1);
      }
    }
  }

  // ---------------------------------------------------------------------
  // Lesson names and missing answers
  // ---------------------------------------------------------------------

  function RenameQuestion(q: Question, name: string): Question
  {
    q.(slides := seq(|q.slides|, k requires 0 <= k < |q.slides| => q.slides[k].(lessonFilename := name)))
  }

  function RenamePage(p: JokboPage, name: string): JokboPage
  {
    p.(questions := seq(|p.questions|, j requires 0 <= j < |p.questions| => RenameQuestion(p.questions[j], name)))
  }

  /** Every slide of every exam page of an answer names the lesson `name`. */
  function RenameResult(r: AnalysisResult, name: string): AnalysisResult
  {
    if r.jokboPages.None? then r
    else
      var ps := r.jokboPages.value;
      r.(jokboPages := Some(seq(|ps|, i requires 0 <= i < |ps| => RenamePage(ps[i], name))))
  }

  /** Renaming touches only the file names of the slides, and afterwards
      every slide names the lesson. */
  lemma RenameResultSpec(r: AnalysisResult, name: string)
    ensures var x := RenameResult(r, name);
      && x.(jokboPages := None) == r.(jokboPages := None)
      && x.jokboPages.Some? == r.jokboPages.Some?
      && (r.jokboPages.Some? ==>
            var a, b := r.jokboPages.value, x.jokboPages.value;
            && |b| == |a|
            && forall i :: 0 <= i < |a| ==>
                 && b[i].page == a[i].page && |b[i].questions| == |a[i].questions|
                 && forall j :: 0 <= j < |a[i].questions| ==>
                      && b[i].questions[j].(slides := []) == a[i].questions[j].(slides := [])
                      && |b[i].questions[j].slides| == |a[i].questions[j].slides|
                      && forall k :: 0 <= k < |a[i].questions[j].slides| ==>
                           b[i].questions[j].slides[k] == a[i].questions[j].slides[k].(lessonFilename := name))
  {
  }

  /** The slots once the exam-centric answers carry the original lesson's
      name (`Path(file_path).name`) instead of the chunk file's. */
  function Normalise(ordered: seq<Option<AnalysisResult>>, mode: string, filePath: string)
    : (r: seq<Option<AnalysisResult>>)
    ensures |r| == |ordered|
  {
    if mode == "jokbo-centric" then
      seq(|ordered|, i requires 0 <= i < |ordered| =>
        if ordered[i].Some? then Some(RenameResult(ordered[i].value, BaseName(filePath))) else None)
    else ordered
  }

  /** An empty slot becomes `{"error": "No result"}`. */
  function Fill(ordered: seq<Option<AnalysisResult>>): (r: seq<AnalysisResult>)
    ensures |r| == |ordered|
  {
    seq(|ordered|, i requires 0 <= i < |ordered| =>
      if ordered[i].Some? then ordered[i].value else ErrorResult("No result"))
  }

  /** The per-chunk answers handed to the merge. */
  function ChunkResults(mode: string, filePath: string, chunkCount: nat, raw: seq<RawEntry>): seq<AnalysisResult>
  {
    Fill(Normalise(Place(Nones(chunkCount), raw), mode, filePath))
  }

  /** There is one answer per chunk; a chunk no entry answers is a failed
      chunk, so the merged answer reports at least one failure; and a chunk
      answered once holds that answer (its lesson renamed in exam-centric
      mode). */
  lemma ChunkResultsSpec(mode: string, filePath: string, chunkCount: nat, raw: seq<RawEntry>, i: int)
    requires 0 <= i < chunkCount
    ensures |ChunkResults(mode, filePath, chunkCount, raw)| == chunkCount
    ensures (forall j :: 0 <= j < |raw| ==> !Targets(raw[j], i)) ==>
      ChunkResults(mode, filePath, chunkCount, raw)[i] == ErrorResult("No result") &&
      ResultMerger.FailedCount(ChunkResults(mode, filePath, chunkCount, raw)) >= 1
    ensures forall j, r :: 0 <= j < |raw| && Target(raw[j]) == Some((i, r)) && DistinctTargets(raw) ==>
      ChunkResults(mode, filePath, chunkCount, raw)[i] ==
        (if mode == "jokbo-centric" then RenameResult(r, BaseName(filePath)) else r)
  {
    if forall j :: 0 <= j < |raw| ==> !Targets(raw[j], i) {
      PlaceUntouched(Nones(chunkCount), raw, i);
    }
    forall j, r | 0 <= j < |raw| && Target(raw[j]) == Some((i, r)) && DistinctTargets(raw)
      ensures Place(Nones(chunkCount), raw)[i] == Some(r)
    {
      PlaceDistinct(chunkCount, raw, i, r);
    }
  }

  /** The renaming loop, in place. */
  method NormaliseLoop(slots: seq<Option<AnalysisResult>>, mode: string, filePath: string)
    returns (ordered: seq<Option<AnalysisResult>>)
    ensures ordered == Normalise(slots, mode, filePath)
  {
    ordered := slots;
    if mode != "jokbo-centric" {
      return;
    }
    var name := BaseName(filePath);
    ghost var target := Normalise(slots, mode, filePath);
    var i := 0;
    while i < |ordered|
      invariant 0 <= i <= |ordered| == |target|
      invariant forall k :: 0 <= k < i ==> ordered[k] == target[k]
      invariant forall k :: i <= k < |ordered| ==> ordered[k] == slots[k]
    {
      if ordered[i].Some? {
        ordered := ordered[i := Some(RenameResult(ordered[i].value, name))];
      }
      i := i + 1;
    }
  }

  /** The loop replacing each empty slot. */
  method FillLoop(ordered: seq<Option<AnalysisResult>>) returns (results: seq<AnalysisResult>)
    ensures results == Fill(ordered)
  {
    results := [];
    var i := 0;
    while i < |ordered|
      invariant 0 <= i <= |ordered|
      invariant results == Fill(ordered)[..i]
    {
      results := results + [if ordered[i].Some? then ordered[i].value else ErrorResult("No result")];
      i := i + 1;
    }
  }

  /** `analyze_with_chunk_retry(mode, file_path, center_file_path, chunks)`
      once `distribute_tasks` has answered `raw`: the per-chunk answers, in
      chunk order, and their merge. */
  method AnalyzeWithChunkRetry(mode: string, filePath: string, chunkCount: nat, raw: seq<RawEntry>)
    returns (results: seq<AnalysisResult>, merged: AnalysisResult)
    ensures results == ChunkResults(mode, filePath, chunkCount, raw)
    ensures chunkCount == 0 ==> merged == ResultMerger.EmptyResult
    ensures chunkCount > 0 && mode == "jokbo-centric" ==>
      merged == ResultMerger.WithWarnings(JokboResult(SortBy(ResultMerger.AllPages(results), ResultMerger.PageKey)),
                                          ResultMerger.FailedCount(results))
    ensures chunkCount > 0 && mode != "jokbo-centric" ==>
      merged == ResultMerger.WithWarnings(
        LessonResult(SortBy(FirstPerKey(ResultMerger.AllSlides(results), ResultMerger.SlideKey, ResultMerger.PositivePage),
                            ResultMerger.SlidePage)),
        ResultMerger.FailedCount(results))
  {
    var ordered := OrderResults(chunkCount, raw);
    ordered := NormaliseLoop(ordered, mode, filePath);
    results := FillLoop(ordered);
    merged := ResultMerger.MergeChunkResults(results, mode);
  }
}
