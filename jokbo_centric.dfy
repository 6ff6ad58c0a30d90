/** The exam-centric analyser (`JokboCentricAnalyzer`): when a long lesson
    is analysed chunk by chunk, the lesson pages the service reports for a
    chunk are turned into pages of the whole lesson; and the answers for
    one exam against several lessons are merged into one list of exam
    pages, one entry per question, each with its best related slides. */
module JokboCentric {
  import opened Common
  import opened Records
  import Validators
  import ResultMerger
  import PdfOperations

  // ---------------------------------------------------------------------
  // When to chunk
  // ---------------------------------------------------------------------

  /** Lessons longer than this are analysed in chunks. */
  const MaxLessonPages := 30

  /** `_should_chunk_lesson`. */
  predicate ShouldChunkLesson(pageCount: int)
  {
    pageCount > MaxLessonPages
  }

  /** The chunks `split_pdf_for_chunks` cuts with its default of 30 pages:
      a lesson is chunked exactly when cutting it yields more than one
      chunk. */
  lemma ChunkingSplits(total: int, chunks: seq<PdfOperations.Chunk>)
    requires PdfOperations.Tiles(chunks, total, MaxLessonPages)
    ensures ShouldChunkLesson(total) <==> |chunks| > 1
  {
    if |chunks| > 1 {
      PdfOperations.MulMono(1, |chunks| - 1, MaxLessonPages);
    }
  }

  // ---------------------------------------------------------------------
  // Lesson file names
  // ---------------------------------------------------------------------

  /** `[\s_\-]`. */
  predicate IsSep(c: char)
  {
    IsSpace(c) || c == '_' || c == '-'
  }

  /** The end of the run of separators starting at `i`. */
  function SkipSeps(s: string, i: nat): (j: nat)
    requires i <= |s|
    ensures i <= j <= |s| && (j == |s| || !IsSep(s[j]))
    ensures forall k :: i <= k < j ==> IsSep(s[k])
    decreases |s| - i
  {
    if i < |s| && IsSep(s[i]) then SkipSeps(s, i + 1) else i
  }

  /** `s` starts with the word `w`, ignoring ASCII case, followed by a
      separator. */
  predicate WordThenSep(s: string, w: string)
  {
    |w| < |s| && Lower(s[..|w|]) == w && IsSep(s[|w|])
  }

  /** The length of the word matched by `^(강의자료|강의|lesson|lecture)`
      when a separator follows it, the alternatives tried in this order;
      0 when the pattern does not match. */
  function PrefixWord(s: string): (n: nat)
    ensures n <= |s|
  {
    if WordThenSep(s, "강의자료") then 4
    else if WordThenSep(s, "강의") then 2
    else if WordThenSep(s, "lesson") then 6
    else if WordThenSep(s, "lecture") then 7
    else 0
  }

  /** `re.sub(r"^(강의자료|강의|lesson|lecture)[\s_\-]+", "", s, flags=re.IGNORECASE)`. */
  function DropPrefix(s: string): (r: string)
    ensures |r| <= |s|
  {
    var n := PrefixWord(s);
    if n == 0 then s else s[SkipSeps(s, n)..]
  }

  /** A lesson name as the post-processing compares it: the prefix the
      service tends to add removed, then stripped and lower-cased. */
  function Normalize(name: string): string
  {
    Lower(Strip(DropPrefix(name)))
  }

  /** A name carrying one of the prefix words (in any ASCII case) and a run
      of separators compares as the bare name, stripped and lower-cased:
      `강의자료_Anatomy.pdf`, `LESSON - anatomy.pdf` and ` anatomy.PDF` all
      compare as `anatomy.pdf`. */
  lemma NormalizeDropsPrefix(w: string, seps: string, name: string)
    requires w == "강의자료" || w == "강의" || Lower(w) == "lesson" || Lower(w) == "lecture"
    requires |seps| > 0 && forall k :: 0 <= k < |seps| ==> IsSep(seps[k])
    requires name == [] || !IsSep(name[0])
    ensures Normalize(w + seps + name) == Lower(Strip(name))
  {
    var s := w + seps + name;
    PrefixWordMatches(w, seps, name);
    SkipsAllSeps(w, seps, name);
    assert s[|w| + |seps|..] == name;
  }

  /** The separators after the prefix word are skipped up to the name. */
  lemma SkipsAllSeps(w: string, seps: string, name: string)
    requires |seps| > 0 && forall k :: 0 <= k < |seps| ==> IsSep(seps[k])
    requires name == [] || !IsSep(name[0])
    ensures SkipSeps(w + seps + name, |w|) == |w| + |seps|
  {
    var s := w + seps + name;
    var j := SkipSeps(s, |w|);
    forall k | |w| <= k < |w| + |seps| ensures IsSep(s[k]) {
      assert s[k] == seps[k - |w|];
    }
    if name != [] {
      assert s[|w| + |seps|] == name[0];
    }
  }

  /** A word starting with an ASCII `l` is neither Korean prefix. */
  lemma NotKoreanPrefix(s: string)
    requires |s| > 0 && LowerChar(s[0]) == 'l'
    ensures !WordThenSep(s, "강의자료") && !WordThenSep(s, "강의")
  {
    assert "강의자료"[0] == '강' && "강의"[0] == '강';
    if |s| > 4 {
      assert Lower(s[..4])[0] == LowerChar(s[0]);
    }
    if |s| > 2 {
      assert Lower(s[..2])[0] == LowerChar(s[0]);
    }
  }

  /** The prefix word is recognised whole, whichever of them it is. */
  lemma PrefixWordMatches(w: string, seps: string, name: string)
    requires w == "강의자료" || w == "강의" || Lower(w) == "lesson" || Lower(w) == "lecture"
    requires |seps| > 0 && IsSep(seps[0])
    ensures PrefixWord(w + seps + name) == |w|
  {
    var s := w + seps + name;
    assert s[|w|] == seps[0];
    assert s[..|w|] == w;
    if w == "강의" {
      if |s| > 4 {
        assert s[..4][2] == s[2] == seps[0];
        assert "강의자료"[2] == '자';
      }
    } else if w != "강의자료" {
      assert s[0] == w[0] && Lower(w)[0] == LowerChar(w[0]) == 'l';
      NotKoreanPrefix(s);
      if Lower(w) == "lecture" {
        assert Lower(s[..6])[2] == LowerChar(s[2]) == LowerChar(w[2]) == Lower(w)[2] == 'c';
      }
    }
  }

  // ---------------------------------------------------------------------
  // Chunk offsets (`_post_process_results`)
  // ---------------------------------------------------------------------

  /** What the post-processing of one chunk's answer needs: the offset of
      the chunk, the normalised name of the lesson (empty when unknown) and
      its page count (0 when unknown). */
  datatype Context = Context(offset: int, expected: string, total: int)

  /** The normalised name of the lesson being analysed, or "" when there
      is no lesson path. */
  function ExpectedName(contextPath: Option<string>): string
  {
    if contextPath.Some? && contextPath.value != "" then Normalize(BaseName(contextPath.value)) else ""
  }

  /** `_get_total_pages()`: the lesson's page count when the lesson is
      known (`pageCount` is what reading it gave, 0 on failure), else 0. */
  function KnownTotal(contextPath: Option<string>, pageCount: int): int
  {
    if contextPath.Some? && contextPath.value != "" then pageCount else 0
  }

  function MakeContext(start: int, contextPath: Option<string>, pageCount: int): Context
  {
    Context(StartOffset(start), ExpectedName(contextPath), KnownTotal(contextPath, pageCount))
  }

  /** `belongs_here`: a slide belongs to the lesson analysed when the
      lesson's name is unknown, or the slide names no file, or names this
      lesson (names compared normalised). */
  predicate Belongs(s: Slide, expected: string)
  {
    var name := Normalize(Strip(s.lessonFilename));
    expected == "" || name == "" || name == expected
  }

  /** `max(1, min(page, total))` when the total is known. */
  function Clamp(page: int, total: int): int
  {
    if total > 0 then Max(1, Min(page, total)) else page
  }

  /** The slide after post-processing: a slide of this lesson on a
      positive page is moved by the offset and kept within the lesson;
      any other is left as it is. */
  function AdjustSlide(s: Slide, c: Context): Slide
  {
    if s.lessonPage.Some? && Belongs(s, c.expected) && s.lessonPage.value > 0 then
      s.(lessonPage := Some(Clamp(s.lessonPage.value + c.offset, c.total)))
    else s
  }

  function AdjustSlides(slides: seq<Slide>, c: Context): (r: seq<Slide>)
    ensures |r| == |slides|
  {
    seq(|slides|, i requires 0 <= i < |slides| => AdjustSlide(slides[i], c))
  }

  function AdjustQuestion(q: Question, c: Context): Question
  {
    q.(slides := AdjustSlides(q.slides, c))
  }

  function AdjustQuestions(qs: seq<Question>, c: Context): (r: seq<Question>)
    ensures |r| == |qs|
  {
    seq(|qs|, i requires 0 <= i < |qs| => AdjustQuestion(qs[i], c))
  }

  function AdjustPage(p: JokboPage, c: Context): JokboPage
  {
    p.(questions := AdjustQuestions(p.questions, c))
  }

  function AdjustPages(ps: seq<JokboPage>, c: Context): (r: seq<JokboPage>)
    ensures |r| == |ps|
  {
    seq(|ps|, i requires 0 <= i < |ps| => AdjustPage(ps[i], c))
  }

  /** `_post_process_results(result, chunk_info, context_lesson_path)`,
      `pageCount` standing for the lesson's page count as read. */
  function PostProcess(result: AnalysisResult, chunkInfo: Option<(int, int)>,
                       contextPath: Option<string>, pageCount: int): AnalysisResult
  {
    if chunkInfo.None? || result.jokboPages.None? then result
    else
      var c := MakeContext(chunkInfo.value.0, contextPath, pageCount);
      result.(jokboPages := Some(AdjustPages(result.jokboPages.value, c)))
  }

  /** The innermost loop: each slide of one question, rewritten in place. */
  method AdjustSlidesLoop(slides: seq<Slide>, c: Context) returns (out: seq<Slide>)
    ensures out == AdjustSlides(slides, c)
  {
    ghost var target := AdjustSlides(slides, c);
    out := slides;
    var i := 0;
    while i < |out|
      invariant 0 <= i <= |out| == |slides|
      invariant forall k :: 0 <= k < i ==> out[k] == target[k]
      invariant forall k :: i <= k < |out| ==> out[k] == slides[k]
    {
      var s := out[i];
      assert target[i] == AdjustSlide(s, c);
      if s.lessonPage.Some? {
        if Belongs(s, c.expected) {
          var lp := s.lessonPage.value;
          if lp > 0 {
            var newLp := lp + c.offset;
            if c.total > 0 {
              newLp := Max(1, Min(newLp, c.total));
            }
            out := out[i := s.(lessonPage := Some(newLp))];
          }
        }
      }
      i := i + 1;
    }
  }

  /** The loop over the questions of one page. */
  method AdjustQuestionsLoop(qs: seq<Question>, c: Context) returns (out: seq<Question>)
    ensures out == AdjustQuestions(qs, c)
  {
    out := qs;
    var i := 0;
    while i < |out|
      invariant 0 <= i <= |out| == |qs|
      invariant forall k :: 0 <= k < i ==> out[k] == AdjustQuestion(qs[k], c)
      invariant forall k :: i <= k < |out| ==> out[k] == qs[k]
    {
      var slides := AdjustSlidesLoop(out[i].slides, c);
      out := out[i := out[i].(slides := slides)];
      i := i + 1;
    }
  }

  /** The loop over the pages. */
  method AdjustPagesLoop(ps: seq<JokboPage>, c: Context) returns (out: seq<JokboPage>)
    ensures out == AdjustPages(ps, c)
  {
    out := ps;
    var i := 0;
    while i < |out|
      invariant 0 <= i <= |out| == |ps|
      invariant forall k :: 0 <= k < i ==> out[k] == AdjustPage(ps[k], c)
      invariant forall k :: i <= k < |out| ==> out[k] == ps[k]
    {
      var qs := AdjustQuestionsLoop(out[i].questions, c);
      out := out[i := out[i].(questions := qs)];
      i := i + 1;
    }
  }

  /** `_post_process_results`. */
  method PostProcessResults(result: AnalysisResult, chunkInfo: Option<(int, int)>,
                            contextPath: Option<string>, pageCount: int)
    returns (r: AnalysisResult)
    ensures r == PostProcess(result, chunkInfo, contextPath, pageCount)
  {
    if chunkInfo.None? || result.jokboPages.None? {
      return result;
    }
    var c := MakeContext(chunkInfo.value.0, contextPath, pageCount);
    var pages := AdjustPagesLoop(result.jokboPages.value, c);
    r := result.(jokboPages := Some(pages));
  }

  /** The decision for one slide: only a slide with a page, belonging to
      the lesson and on a positive page is moved, by exactly the offset when
      the total is unknown, and into `1..total` when it is known; nothing
      but the page changes. */
  lemma AdjustSlideSpec(s: Slide, c: Context)
    requires c.offset >= 0
    ensures var r := AdjustSlide(s, c);
      && r.lessonFilename == s.lessonFilename && r.relevanceScore == s.relevanceScore
      && (r != s ==> s.lessonPage.Some? && Belongs(s, c.expected) && s.lessonPage.value > 0)
      && (s.lessonPage.Some? && Belongs(s, c.expected) && s.lessonPage.value > 0 ==>
            r.lessonPage.Some?
            && (c.total <= 0 ==> r.lessonPage.value == s.lessonPage.value + c.offset)
            && (c.total > 0 ==> 1 <= r.lessonPage.value <= c.total)
            && (c.total > 0 && s.lessonPage.value + c.offset <= c.total ==>
                  r.lessonPage.value == s.lessonPage.value + c.offset))
  {
  }

  /** Post-processing without a chunk, or of an answer without exam pages,
      changes nothing; otherwise only lesson pages of slides change: the
      pages, their questions and every slide's file and score stay. */
  lemma PostProcessSpec(result: AnalysisResult, chunkInfo: Option<(int, int)>,
                        contextPath: Option<string>, pageCount: int)
    ensures var r := PostProcess(result, chunkInfo, contextPath, pageCount);
      && (chunkInfo.None? || result.jokboPages.None? ==> r == result)
      && r.error == result.error && r.relatedSlides == result.relatedSlides && r.warnings == result.warnings
      && r.jokboPages.Some? == result.jokboPages.Some?
      && (r.jokboPages.Some? ==>
            var a, b := result.jokboPages.value, r.jokboPages.value;
            && |a| == |b|
            && forall i :: 0 <= i < |a| ==>
                 && b[i].page == a[i].page && |b[i].questions| == |a[i].questions|
                 && forall j :: 0 <= j < |a[i].questions| ==>
                      var qa, qb := a[i].questions[j], b[i].questions[j];
                      && qb.(slides := []) == qa.(slides := [])
                      && |qb.slides| == |qa.slides|
                      && forall k :: 0 <= k < |qa.slides| ==>
                           qb.slides[k].(lessonPage := None) == qa.slides[k].(lessonPage := None))
  {
  }

  /** For the chunk `start..end` of a lesson of `total` known pages, a page
      of this lesson given relative to the chunk becomes the page that
      `validate_and_adjust_page_number` gives it: its absolute page. */
  lemma OffsetAgreesWithValidator(s: Slide, start: int, end: int, contextPath: Option<string>, total: int)
    requires 1 <= start <= end <= total
    requires contextPath.Some? && contextPath.value != ""
    requires s.lessonPage.Some? && 1 <= s.lessonPage.value <= end - start + 1
    requires Belongs(s, ExpectedName(contextPath))
    ensures AdjustSlide(s, MakeContext(start, contextPath, total)).lessonPage ==
      Validators.ValidateAndAdjustPageNumber(s.lessonPage.value, start, end, total)
  {
  }

  /** For the first chunk (offset 0) of a lesson whose page count is known,
      post-processing twice is post-processing once. */
  lemma FirstChunkIdempotent(s: Slide, contextPath: Option<string>, pageCount: int)
    requires contextPath.Some? && contextPath.value != "" && pageCount > 0
    ensures var c := MakeContext(1, contextPath, pageCount);
      AdjustSlide(AdjustSlide(s, c), c) == AdjustSlide(s, c)
  {
    var c := MakeContext(1, contextPath, pageCount);
    var r := AdjustSlide(s, c);
    if r != s {
      assert r.lessonFilename == s.lessonFilename;
      assert Belongs(r, c.expected);
    }
  }

  // ---------------------------------------------------------------------
  // Merging the answers for several lessons (`_merge_lesson_results`)
  // ---------------------------------------------------------------------

  /** Slides kept per question after merging. */
  const MaxConnections := 2

  /** `str(n)` for any integer. */
  function IntToString(n: int): (r: string)
    ensures |r| >= 1 && (r[0] == '-' <==> n < 0)
    ensures forall i :: 0 <= i < |r| ==> r[i] != '_'
  {
    if n < 0 then "-" + NatToString(-n) else NatToString(n)
  }

  lemma IntToStringInjective(a: int, b: int)
    requires IntToString(a) == IntToString(b)
    ensures a == b
  {
    if a < 0 {
      assert b < 0;
      assert NatToString(-a) == IntToString(a)[1..] == IntToString(b)[1..] == NatToString(-b);
      NatToStringInjective(-a, -b);
    } else {
      assert b >= 0;
      NatToStringInjective(a, b);
    }
  }

  /** The index of the first `_` in `s`, or `|s|`. */
  function UnderscoreAt(s: string): (r: nat)
    ensures r <= |s|
  {
    if s == [] || s[0] == '_' then 0 else 1 + UnderscoreAt(s[1..])
  }

  lemma {:induction false} UnderscoreAfter(a: string, rest: string)
    requires forall i :: 0 <= i < |a| ==> a[i] != '_'
    ensures UnderscoreAt(a + "_" + rest) == |a|
  {
    if a != [] {
      UnderscoreAfter(a[1..], rest);
      assert (a + "_" + rest)[1..] == a[1..] + "_" + rest;
    }
  }

  /** `f"{jokbo_page}_{question_number}"`. */
  function QuestionId(page: int, number: string): string
  {
    IntToString(page) + "_" + number
  }

  /** Two questions share an identifier exactly when they share their page
      and their number: no page prints with an underscore. */
  lemma QuestionIdInjective(p1: int, n1: string, p2: int, n2: string)
    ensures QuestionId(p1, n1) == QuestionId(p2, n2) <==> p1 == p2 && n1 == n2
  {
    if QuestionId(p1, n1) == QuestionId(p2, n2) {
      var id := QuestionId(p1, n1);
      var a, b := IntToString(p1), IntToString(p2);
      UnderscoreAfter(a, n1);
      UnderscoreAfter(b, n2);
      assert |a| == UnderscoreAt(id) == |b|;
      assert a == id[..|a|] == b;
      IntToStringInjective(p1, p2);
      assert n1 == id[|a| + 1..] == n2;
    }
  }

  /** A question of an exam page, with that page's number. */
  type Entry = (int, Question)

  /** The key a question is merged under. The analyser keys by
      `QuestionId(page, number)`; since that string determines the pair
      and the pair determines it (`QuestionIdInjective`), keying by the
      pair groups exactly the same questions. */
  function EntryId(e: Entry): (int, string) { (e.0, e.1.number) }

  function EntryPage(e: Entry): int { e.0 }

  function EntrySlides(e: Entry): seq<Slide> { e.1.slides }

  function EntryQuestion(e: Entry): seq<Question> { [e.1] }

  function PageEntries(p: JokboPage): seq<Entry>
  {
    seq(|p.questions|, i requires 0 <= i < |p.questions| => (p.page, p.questions[i]))
  }

  /** The questions of a result: none when it carries an error or has no
      exam pages, else those of its pages in order. */
  function ResultEntries(r: AnalysisResult): seq<Entry>
  {
    if HasError(r) || r.jokboPages.None? then [] else FlatMap(r.jokboPages.value, PageEntries)
  }

  /** The questions of every result without an error, in order. */
  function Entries(results: seq<AnalysisResult>): seq<Entry>
  {
    FlatMap(results, ResultEntries)
  }

  /** An entry is a question of a result without an error, paired with
      the number of the page it is on; and each such question is an entry. */
  lemma EntriesSpec(results: seq<AnalysisResult>, i: int, p: int, q: Question)
    requires 0 <= i < |results| && !HasError(results[i]) && results[i].jokboPages.Some?
    requires 0 <= p < |results[i].jokboPages.value|
    requires q in results[i].jokboPages.value[p].questions
    ensures (results[i].jokboPages.value[p].page, q) in Entries(results)
  {
    var ps := results[i].jokboPages.value;
    var j :| 0 <= j < |ps[p].questions| && ps[p].questions[j] == q;
    assert PageEntries(ps[p])[j] == (ps[p].page, q);
    FlatMapSpec(ps, PageEntries, (ps[p].page, q));
    FlatMapSpec(results, ResultEntries, (ps[p].page, q));
  }

  /** Every entry is a question of some page of a result without an error. */
  lemma EntriesFrom(results: seq<AnalysisResult>, e: Entry)
    requires e in Entries(results)
    ensures exists i, p ::
              && 0 <= i < |results| && !HasError(results[i]) && results[i].jokboPages.Some?
              && 0 <= p < |results[i].jokboPages.value|
              && e.0 == results[i].jokboPages.value[p].page
              && e.1 in results[i].jokboPages.value[p].questions
  {
    FlatMapSpec(results, ResultEntries, e);
    var i :| 0 <= i < |results| && e in ResultEntries(results[i]);
    var ps := results[i].jokboPages.value;
    FlatMapSpec(ps, PageEntries, e);
    var p :| 0 <= p < |ps| && e in PageEntries(ps[p]);
    var j :| 0 <= j < |ps[p].questions| && PageEntries(ps[p])[j] == e;
  }

  /** The question merged for the first entry `f` with its identifier: its
      own data, with the best slides gathered from every entry sharing the
      identifier. */
  function MergedQuestion(es: seq<Entry>, f: Entry, minScore: int): Entry
  {
    (f.0, f.1.(slides := ResultMerger.FilterConnectionsByScore(Gather(es, EntryId, EntrySlides, EntryId(f)),
                                                               minScore, MaxConnections)))
  }

  /** One merged question per identifier, in order of first appearance. */
  function MergedEntries(es: seq<Entry>, minScore: int): (r: seq<Entry>)
    ensures |r| == |FirstPerKey(es, EntryId, Always)|
  {
    var firsts := FirstPerKey(es, EntryId, Always);
    seq(|firsts|, i requires 0 <= i < |firsts| => MergedQuestion(es, firsts[i], minScore))
  }

  /** The exam pages of a list of questions: one per page number, in order
      of first appearance, each with its questions in order. */
  function PagesOf(qs: seq<Entry>): (r: seq<JokboPage>)
    ensures |r| == |FirstPerKey(qs, EntryPage, Always)|
  {
    var firsts := FirstPerKey(qs, EntryPage, Always);
    seq(|firsts|, i requires 0 <= i < |firsts| =>
      JokboPage(firsts[i].0, Gather(qs, EntryPage, EntryQuestion, firsts[i].0)))
  }

  /** The merged answer: the pages sorted by page number. */
  function MergedLesson(results: seq<AnalysisResult>, minScore: int): AnalysisResult
  {
    JokboResult(SortBy(PagesOf(MergedEntries(Entries(results), minScore)), ResultMerger.PageKey))
  }

  /** The loop over one result's pages and their questions. */
  method CollectPageEntries(ps: seq<JokboPage>) returns (es: seq<Entry>)
    ensures es == FlatMap(ps, PageEntries)
  {
    es := [];
    var i := 0;
    while i < |ps|
      invariant 0 <= i <= |ps|
      invariant es == FlatMap(ps[..i], PageEntries)
    {
      assert ps[..i + 1][..i] == ps[..i];
      var p := ps[i];
      var j := 0;
      var pe: seq<Entry> := [];
      while j < |p.questions|
        invariant 0 <= j <= |p.questions|
        invariant pe == PageEntries(p)[..j]
      {
        pe := pe + [(p.page, p.questions[j])];
        j := j + 1;
      }
      es := es + pe;
      i := i + 1;
    }
    assert ps[..i] == ps;
  }

  /** The loop over the results, skipping those with an error. */
  method CollectEntries(results: seq<AnalysisResult>) returns (es: seq<Entry>)
    ensures es == Entries(results)
  {
    es := [];
    var i := 0;
    while i < |results|
      invariant 0 <= i <= |results|
      invariant es == FlatMap(results[..i], ResultEntries)
    {
      assert results[..i + 1][..i] == results[..i];
      var r := results[i];
      if !HasError(r) && r.jokboPages.Some? {
        var more := CollectPageEntries(r.jokboPages.value);
        es := es + more;
      }
      i := i + 1;
    }
    assert results[..i] == results;
  }

  /** The first loop of `_merge_lesson_results`: every question with its
      connections gathered under its identifier, then cut down to the
      best. */
  method MergeQuestions(entries: seq<Entry>, minScore: int) returns (qs: seq<Entry>)
    ensures qs == MergedEntries(entries, minScore)
  {
    var firsts, connections := GroupBy(entries, EntryId, EntrySlides);
    assert forall k :: 0 <= k < |firsts| ==> EntryId(firsts[k]) in connections by {
      GroupFirsts(entries, EntryId);
      forall k | 0 <= k < |firsts| ensures EntryId(firsts[k]) in KeySet(firsts, EntryId) { }
    }
    ghost var target := MergedEntries(entries, minScore);
    qs := [];
    var i := 0;
    while i < |firsts|
      invariant 0 <= i <= |firsts| == |target|
      invariant |qs| == i && forall k :: 0 <= k < i ==> qs[k] == target[k]
    {
      var f := firsts[i];
      var filtered := ResultMerger.FilterConnectionsByScore(connections[EntryId(f)], minScore, MaxConnections);
      assert target[i] == MergedQuestion(entries, f, minScore);
      qs := qs + [(f.0, f.1.(slides := filtered))];
      i := i + 1;
    }
  }

  /** The second loop of `_merge_lesson_results`: the questions grouped by
      their page. */
  method GroupPages(qs: seq<Entry>) returns (pages: seq<JokboPage>)
    ensures pages == PagesOf(qs)
  {
    var pageFirsts, finalPages := GroupBy(qs, EntryPage, EntryQuestion);
    GroupFirsts(qs, EntryPage);
    forall j | 0 <= j < |pageFirsts| ensures pageFirsts[j].0 in finalPages {
      assert EntryPage(pageFirsts[j]) in KeySet(pageFirsts, EntryPage);
    }
    pages := seq(|pageFirsts|, j requires 0 <= j < |pageFirsts| =>
      JokboPage(pageFirsts[j].0, finalPages[pageFirsts[j].0]));
  }

  /** `_merge_lesson_results(results, jokbo_path)` with the analyser's
      minimum relevance score `minScore`. */
  method MergeLessonResults(results: seq<AnalysisResult>, minScore: int) returns (merged: AnalysisResult)
    ensures merged == MergedLesson(results, minScore)
  {
    var entries := CollectEntries(results);
    var qs := MergeQuestions(entries, minScore);
    var pages := GroupPages(qs);
    merged := JokboResult(SortBy(pages, ResultMerger.PageKey));
  }

  /** `q` is the question merged for its identifier: the first entry with
      that identifier, its own data kept, carrying only slides gathered
      from the entries with that identifier, each scoring at least
      `minScore`, best first, as many of them as qualify up to two. */
  ghost predicate MergedFrom(es: seq<Entry>, q: Entry, minScore: int)
  {
    var g := Gather(es, EntryId, EntrySlides, EntryId(q));
    var r := q.1.slides;
    && (exists j :: 0 <= j < |es| && es[j] == (q.0, q.1.(slides := es[j].1.slides)) &&
         forall m :: 0 <= m < j ==> EntryId(es[m]) != EntryId(q))
    && (forall k :: 0 <= k < |r| ==> r[k].relevanceScore >= minScore && r[k] in g)
    && (forall k, m :: 0 <= k < m < |r| ==> r[k].relevanceScore >= r[m].relevanceScore)
    && |r| == Min(MaxConnections, |ResultMerger.Qualifying(g, minScore)|)
  }

  lemma MergedQuestionSpec(es: seq<Entry>, f: Entry, minScore: int)
    requires FirstOfKey(es, EntryId, Always, f)
    ensures MergedFrom(es, MergedQuestion(es, f, minScore), minScore)
  {
    var q := MergedQuestion(es, f, minScore);
    var j :| 0 <= j < |es| && es[j] == f && forall m :: 0 <= m < j && Always(es[m]) ==> EntryId(es[m]) != EntryId(f);
    assert es[j] == (q.0, q.1.(slides := es[j].1.slides));
    var g := Gather(es, EntryId, EntrySlides, EntryId(f));
    ResultMerger.FilterConnectionsSpec(g, minScore, MaxConnections);
    var r := q.1.slides;
    forall k | 0 <= k < |r| ensures r[k] in g {
      assert r[k] in multiset(r);
    }
  }

  /** The merged questions: one per identifier, none lost or repeated,
      each merged as `MergedFrom` states. */
  lemma MergedEntriesSpec(es: seq<Entry>, minScore: int)
    ensures var qs := MergedEntries(es, minScore);
      && DistinctKeys(qs, EntryId)
      && KeySet(qs, EntryId) == KeySet(es, EntryId)
      && forall i :: 0 <= i < |qs| ==> MergedFrom(es, qs[i], minScore)
  {
    var firsts := FirstPerKey(es, EntryId, Always);
    var qs := MergedEntries(es, minScore);
    GroupFirsts(es, EntryId);
    assert forall i :: 0 <= i < |qs| ==> EntryId(qs[i]) == EntryId(firsts[i]);
    assert KeySet(qs, EntryId) == KeySet(firsts, EntryId);
    forall i | 0 <= i < |qs| ensures MergedFrom(es, qs[i], minScore) {
      MergedQuestionSpec(es, firsts[i], minScore);
    }
  }

  /** The pages built from the merged questions: one per page number, each
      holding, in order, exactly the questions with that page number. */
  lemma PagesOfSpec(qs: seq<Entry>)
    ensures var ps := PagesOf(qs);
      && DistinctKeys(ps, ResultMerger.PageKey)
      && (forall p :: p in KeySet(ps, ResultMerger.PageKey) <==> p in KeySet(qs, EntryPage))
      && forall i :: 0 <= i < |ps| ==>
           ps[i].questions != [] &&
           forall q :: q in ps[i].questions <==> (ps[i].page, q) in qs
  {
    var firsts := FirstPerKey(qs, EntryPage, Always);
    var ps := PagesOf(qs);
    GroupFirsts(qs, EntryPage);
    assert forall i :: 0 <= i < |ps| ==> ResultMerger.PageKey(ps[i]) == EntryPage(firsts[i]);
    assert KeySet(ps, ResultMerger.PageKey) == KeySet(firsts, EntryPage);
    forall i | 0 <= i < |ps|
      ensures ps[i].questions != []
      ensures forall q :: q in ps[i].questions <==> (ps[i].page, q) in qs
    {
      var f := firsts[i];
      var j :| 0 <= j < |qs| && qs[j] == f && forall m :: 0 <= m < j && Always(qs[m]) ==> EntryPage(qs[m]) != EntryPage(f);
      GatherSpec(qs, EntryPage, EntryQuestion, f.0, f.1);
      assert f.1 in EntryQuestion(qs[j]);
      forall q ensures q in ps[i].questions <==> (ps[i].page, q) in qs {
        GatherSpec(qs, EntryPage, EntryQuestion, f.0, q);
        if (ps[i].page, q) in qs {
          var m :| 0 <= m < |qs| && qs[m] == (ps[i].page, q);
          assert q in EntryQuestion(qs[m]);
        }
      }
    }
  }

  /** The merged answer lists its pages in page order, one page per page
      number, the questions of each page being the merged questions with
      that page number. */
  lemma MergeLessonSpec(results: seq<AnalysisResult>, minScore: int)
    ensures var ps := PagesOf(MergedEntries(Entries(results), minScore));
      var out := MergedLesson(results, minScore).jokboPages.value;
      && SortedBy(out, ResultMerger.PageKey)
      && multiset(out) == multiset(ps)
      && DistinctKeys(ps, ResultMerger.PageKey)
  {
    var ps := PagesOf(MergedEntries(Entries(results), minScore));
    SortBySpec(ps, ResultMerger.PageKey);
    PagesOfSpec(MergedEntries(Entries(results), minScore));
  }
}
