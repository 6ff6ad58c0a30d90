/** The helpers the exam-centric processor calls after a chunk answer is
    decoded (`PDFProcessorHelpers`): every reported lesson page is checked
    by a page validator and adjusted in place, the questions with a page
    the validator refuses are collected, and those questions are then
    removed from the answer. */
module ProcessorHelpers {
  import opened Common
  import opened Records
  import Validators

  /** The validator the caller passes in: page, chunk start, chunk end,
      total pages; `None` refuses the page. */
  type PageValidator = (int, int, int, int) -> Option<int>

  /** The chunk the answer is for, as `start_page`, `end_page`,
      `total_pages`. */
  datatype Bounds = Bounds(start: int, end: int, total: int)

  // ---------------------------------------------------------------------
  // Checking one question (`validate_question_pages`, innermost loop)
  // ---------------------------------------------------------------------

  /** A slide with a lesson page the validator refuses. */
  predicate SlideInvalid(s: Slide, b: Bounds, v: PageValidator)
  {
    s.lessonPage.Some? && v(s.lessonPage.value, b.start, b.end, b.total).None?
  }

  /** A slide after the check: an accepted page is replaced by the
      validator's answer; a refused or missing page is left as it is. */
  function CheckSlide(s: Slide, b: Bounds, v: PageValidator): Slide
  {
    if s.lessonPage.None? then s
    else
      match v(s.lessonPage.value, b.start, b.end, b.total)
      case None => s
      case Some(a) => s.(lessonPage := Some(a))
  }

  function CheckSlides(slides: seq<Slide>, b: Bounds, v: PageValidator): (r: seq<Slide>)
    ensures |r| == |slides|
  {
    seq(|slides|, i requires 0 <= i < |slides| => CheckSlide(slides[i], b, v))
  }

  /** `has_invalid_page` once the question's slides are checked. */
  predicate QuestionInvalid(q: Question, b: Bounds, v: PageValidator)
  {
    exists k :: 0 <= k < |q.slides| && SlideInvalid(q.slides[k], b, v)
  }

  function CheckQuestion(q: Question, b: Bounds, v: PageValidator): Question
  {
    q.(slides := CheckSlides(q.slides, b, v))
  }

  function CheckQuestions(qs: seq<Question>, b: Bounds, v: PageValidator): (r: seq<Question>)
    ensures |r| == |qs|
  {
    seq(|qs|, i requires 0 <= i < |qs| => CheckQuestion(qs[i], b, v))
  }

  function CheckPages(ps: seq<JokboPage>, b: Bounds, v: PageValidator): (r: seq<JokboPage>)
    ensures |r| == |ps|
  {
    seq(|ps|, i requires 0 <= i < |ps| => ps[i].(questions := CheckQuestions(ps[i].questions, b, v)))
  }

  /** The numbers of the invalid questions of one page. */
  function InvalidIn(qs: seq<Question>, b: Bounds, v: PageValidator): set<string>
  {
    if qs == [] then {}
    else
      var q := qs[|qs| - 1];
      InvalidIn(qs[..|qs| - 1], b, v) + (if QuestionInvalid(q, b, v) then {q.number} else {})
  }

  /** The numbers of the invalid questions over all pages. */
  function InvalidNumbers(ps: seq<JokboPage>, b: Bounds, v: PageValidator): set<string>
  {
    if ps == [] then {}
    else InvalidNumbers(ps[..|ps| - 1], b, v) + InvalidIn(ps[|ps| - 1].questions, b, v)
  }

  /** What `validate_question_pages` leaves behind: the answer with its
      pages checked, `retry_needed` and `invalid_questions`. */
  function Validated(result: AnalysisResult, b: Bounds, v: PageValidator): (AnalysisResult, bool, set<string>)
  {
    if result.jokboPages.None? then (result, false, {})
    else
      var ps := result.jokboPages.value;
      var invalid := InvalidNumbers(ps, b, v);
      (result.(jokboPages := Some(CheckPages(ps, b, v))), invalid != {}, invalid)
  }

  // ---------------------------------------------------------------------
  // The loops
  // ---------------------------------------------------------------------

  /** The loop over one question's slides. */
  method CheckSlidesLoop(slides: seq<Slide>, b: Bounds, v: PageValidator) returns (out: seq<Slide>, hasInvalid: bool)
    ensures out == CheckSlides(slides, b, v)
    ensures hasInvalid <==> exists k :: 0 <= k < |slides| && SlideInvalid(slides[k], b, v)
  {
    out := slides;
    hasInvalid := false;
    ghost var target := CheckSlides(slides, b, v);
    var i := 0;
    while i < |out|
      invariant 0 <= i <= |out| == |slides|
      invariant forall k :: 0 <= k < i ==> out[k] == target[k]
      invariant forall k :: i <= k < |out| ==> out[k] == slides[k]
      invariant hasInvalid <==> exists k :: 0 <= k < i && SlideInvalid(slides[k], b, v)
    {
      var s := out[i];
      assert target[i] == CheckSlide(s, b, v);
      if s.lessonPage.Some? {
        var adjusted := v(s.lessonPage.value, b.start, b.end, b.total);
        if adjusted.None? {
          hasInvalid := true;
        } else {
          out := out[i := s.(lessonPage := Some(adjusted.value))];
        }
      }
      i := i + 1;
    }
    assert out == target;
  }

  /** The loop over one page's questions. */
  method CheckQuestionsLoop(qs: seq<Question>, b: Bounds, v: PageValidator) returns (out: seq<Question>, invalid: set<string>)
    ensures out == CheckQuestions(qs, b, v)
    ensures invalid == InvalidIn(qs, b, v)
  {
    out := [];
    invalid := {};
    var i := 0;
    while i < |qs|
      invariant 0 <= i <= |qs|
      invariant out == CheckQuestions(qs[..i], b, v)
      invariant invalid == InvalidIn(qs[..i], b, v)
    {
      assert qs[..i + 1][..i] == qs[..i];
      var q := qs[i];
      var slides, hasInvalid := CheckSlidesLoop(q.slides, b, v);
      if hasInvalid {
        invalid := invalid + {q.number};
      }
      out := out + [q.(slides := slides)];
      i := i + 1;
    }
    assert qs[..i] == qs;
  }

  /** `validate_question_pages(result, start_page, end_page, total_pages,
      validator_func)`. */
  method ValidateQuestionPages(result: AnalysisResult, b: Bounds, v: PageValidator)
    returns (r: AnalysisResult, retryNeeded: bool, invalid: set<string>)
    ensures (r, retryNeeded, invalid) == Validated(result, b, v)
  {
    retryNeeded := false;
    invalid := {};
    if result.jokboPages.None? {
      return result, retryNeeded, invalid;
    }
    var ps := result.jokboPages.value;
    var out: seq<JokboPage> := [];
    var i := 0;
    while i < |ps|
      invariant 0 <= i <= |ps|
      invariant out == CheckPages(ps[..i], b, v)
      invariant invalid == InvalidNumbers(ps[..i], b, v)
      invariant retryNeeded == (invalid != {})
    {
      assert ps[..i + 1][..i] == ps[..i];
      var p := ps[i];
      var qs, more := CheckQuestionsLoop(p.questions, b, v);
      if more != {} {
        retryNeeded := true;
      }
      invalid := invalid + more;
      out := out + [p.(questions := qs)];
      i := i + 1;
    }
    assert ps[..i] == ps;
    r := result.(jokboPages := Some(out));
  }

  // ---------------------------------------------------------------------
  // What the check promises
  // ---------------------------------------------------------------------

  lemma {:induction false} InvalidInSpec(qs: seq<Question>, b: Bounds, v: PageValidator, n: string)
    ensures n in InvalidIn(qs, b, v) <==> exists j :: 0 <= j < |qs| && QuestionInvalid(qs[j], b, v) && qs[j].number == n
  {
    if qs != [] {
      var m := |qs| - 1;
      InvalidInSpec(qs[..m], b, v, n);
      if exists j :: 0 <= j < |qs| && QuestionInvalid(qs[j], b, v) && qs[j].number == n {
        var j :| 0 <= j < |qs| && QuestionInvalid(qs[j], b, v) && qs[j].number == n;
        if j < m {
          assert qs[..m][j] == qs[j];
        }
      }
    }
  }

  /** A number is collected exactly when some question with that number,
      on some page, has a slide whose page the validator refuses. */
  lemma {:induction false} InvalidNumbersSpec(ps: seq<JokboPage>, b: Bounds, v: PageValidator, n: string)
    ensures n in InvalidNumbers(ps, b, v) <==>
      exists i, j :: 0 <= i < |ps| && 0 <= j < |ps[i].questions|
        && QuestionInvalid(ps[i].questions[j], b, v) && ps[i].questions[j].number == n
  {
    if ps != [] {
      var m := |ps| - 1;
      InvalidNumbersSpec(ps[..m], b, v, n);
      InvalidInSpec(ps[m].questions, b, v, n);
      if exists i, j :: 0 <= i < |ps| && 0 <= j < |ps[i].questions|
           && QuestionInvalid(ps[i].questions[j], b, v) && ps[i].questions[j].number == n {
        var i, j :| 0 <= i < |ps| && 0 <= j < |ps[i].questions|
          && QuestionInvalid(ps[i].questions[j], b, v) && ps[i].questions[j].number == n;
        if i < m {
          assert ps[..m][i] == ps[i];
        }
      }
    }
  }

  /** A retry is asked for exactly when some slide's page is refused; the
      numbers collected are those of the questions with such a slide;
      without pages nothing happens. */
  lemma ValidatedRetry(result: AnalysisResult, b: Bounds, v: PageValidator)
    ensures var (r, retry, invalid) := Validated(result, b, v);
      && (result.jokboPages.None? ==> r == result && !retry && invalid == {})
      && (result.jokboPages.Some? ==>
            var ps := result.jokboPages.value;
            && (retry <==>
                  exists i, j, k ::
                    && 0 <= i < |ps| && 0 <= j < |ps[i].questions|
                    && 0 <= k < |ps[i].questions[j].slides|
                    && SlideInvalid(ps[i].questions[j].slides[k], b, v))
            && forall n :: n in invalid <==>
                 exists i, j :: 0 <= i < |ps| && 0 <= j < |ps[i].questions|
                   && QuestionInvalid(ps[i].questions[j], b, v) && ps[i].questions[j].number == n)
  {
    if result.jokboPages.Some? {
      var ps := result.jokboPages.value;
      var (r, retry, invalid) := Validated(result, b, v);
      forall n {
        InvalidNumbersSpec(ps, b, v, n);
      }
      if exists i, j, k :: 0 <= i < |ps| && 0 <= j < |ps[i].questions|
           && 0 <= k < |ps[i].questions[j].slides| && SlideInvalid(ps[i].questions[j].slides[k], b, v) {
        var i, j, k :| 0 <= i < |ps| && 0 <= j < |ps[i].questions|
          && 0 <= k < |ps[i].questions[j].slides| && SlideInvalid(ps[i].questions[j].slides[k], b, v);
        assert ps[i].questions[j].number in invalid;
      }
    }
  }

  /** Every accepted page is replaced by the validator's answer, a refused
      or missing one is left, and nothing else about the answer changes. */
  lemma ValidatedPages(result: AnalysisResult, b: Bounds, v: PageValidator)
    ensures var r := Validated(result, b, v).0;
      && r.(jokboPages := None) == result.(jokboPages := None)
      && (result.jokboPages.Some? ==>
            var ps, out := result.jokboPages.value, r.jokboPages.value;
            && |out| == |ps|
            && forall i, j, k :: 0 <= i < |ps| && 0 <= j < |ps[i].questions| && 0 <= k < |ps[i].questions[j].slides| ==>
                 var s, t := ps[i].questions[j].slides[k], out[i].questions[j].slides[k];
                 && out[i].page == ps[i].page
                 && out[i].questions[j].(slides := []) == ps[i].questions[j].(slides := [])
                 && t.(lessonPage := None) == s.(lessonPage := None)
                 && (s.lessonPage.Some? && !SlideInvalid(s, b, v) ==>
                       t.lessonPage == v(s.lessonPage.value, b.start, b.end, b.total))
                 && (s.lessonPage.None? || SlideInvalid(s, b, v) ==> t == s))
  {
  }

  // ---------------------------------------------------------------------
  // Removing the invalid questions (`remove_invalid_questions`)
  // ---------------------------------------------------------------------

  function NotListed(invalid: set<string>): Question -> bool
  {
    (q: Question) => q.number !in invalid
  }

  function WithoutListed(p: JokboPage, invalid: set<string>): JokboPage
  {
    p.(questions := Keep(p.questions, NotListed(invalid)))
  }

  /** The answer once the listed questions are dropped from every page. */
  function WithoutInvalid(result: AnalysisResult, invalid: set<string>): AnalysisResult
  {
    if result.jokboPages.None? || invalid == {} then result
    else
      var ps := result.jokboPages.value;
      result.(jokboPages := Some(seq(|ps|, i requires 0 <= i < |ps| => WithoutListed(ps[i], invalid))))
  }

  /** `remove_invalid_questions(result, invalid_questions)`, reassigning
      each page's question list. */
  method RemoveInvalidQuestions(result: AnalysisResult, invalid: set<string>) returns (r: AnalysisResult)
    ensures r == WithoutInvalid(result, invalid)
  {
    if result.jokboPages.None? || invalid == {} {
      return result;
    }
    var ps := result.jokboPages.value;
    ghost var target := WithoutInvalid(result, invalid).jokboPages.value;
    var i := 0;
    while i < |ps|
      invariant 0 <= i <= |ps| == |result.jokboPages.value| == |target|
      invariant forall k :: 0 <= k < i ==> ps[k] == target[k]
      invariant forall k :: i <= k < |ps| ==> ps[k] == result.jokboPages.value[k]
    {
      var kept := KeepUnlisted(ps[i].questions, invalid);
      ps := ps[i := ps[i].(questions := kept)];
      i := i + 1;
    }
    assert ps == target;
    r := result.(jokboPages := Some(ps));
  }

  /** The list comprehension over one page's questions. */
  method KeepUnlisted(qs: seq<Question>, invalid: set<string>) returns (kept: seq<Question>)
    ensures kept == Keep(qs, NotListed(invalid))
  {
    kept := [];
    var i := |qs|;
    while i > 0
      invariant 0 <= i <= |qs|
      invariant kept == Keep(qs[i..], NotListed(invalid))
    {
      i := i - 1;
      assert qs[i..][1..] == qs[i + 1..];
      if qs[i].number !in invalid {
        kept := [qs[i]] + kept;
      }
    }
  }

  /** An empty set removes nothing; otherwise every page stays, with its
      number, and keeps, in order, exactly its questions whose number is not
      listed. */
  lemma WithoutInvalidSpec(result: AnalysisResult, invalid: set<string>)
    ensures var r := WithoutInvalid(result, invalid);
      && (invalid == {} || result.jokboPages.None? ==> r == result)
      && r.(jokboPages := None) == result.(jokboPages := None)
      && (result.jokboPages.Some? ==>
            var ps, out := result.jokboPages.value, r.jokboPages.value;
            && |out| == |ps|
            && forall i :: 0 <= i < |ps| ==>
                 && out[i].page == ps[i].page
                 && multiset(out[i].questions) <= multiset(ps[i].questions)
                 && forall q :: q in out[i].questions <==> q in ps[i].questions && q.number !in invalid)
  {
    if result.jokboPages.Some? && invalid != {} {
      var ps := result.jokboPages.value;
      forall i | 0 <= i < |ps|
        ensures multiset(Keep(ps[i].questions, NotListed(invalid))) <= multiset(ps[i].questions)
        ensures forall q :: q in Keep(ps[i].questions, NotListed(invalid)) <==> q in ps[i].questions && q.number !in invalid
      {
        KeepSpec(ps[i].questions, NotListed(invalid));
      }
    } else if result.jokboPages.Some? {
      var ps := result.jokboPages.value;
      assert forall i :: 0 <= i < |ps| ==> multiset(ps[i].questions) <= multiset(ps[i].questions);
    }
  }

  /** The two helpers together, with the validator of `PDFValidator` on a
      chunk `start..end` of a document of `total` pages: every lesson page
      left in the answer lies within the chunk. */
  lemma CleanedPagesInChunk(result: AnalysisResult, b: Bounds)
    requires 1 <= b.start <= b.end <= b.total
    requires result.jokboPages.Some?
    ensures var (r, _, invalid) := Validated(result, b, Validators.ValidateAndAdjustPageNumber);
      var out := WithoutInvalid(r, invalid).jokboPages.value;
      forall i, q, s :: 0 <= i < |out| && q in out[i].questions && s in q.slides && s.lessonPage.Some? ==>
        b.start <= s.lessonPage.value <= b.end
  {
    var v: PageValidator := Validators.ValidateAndAdjustPageNumber;
    var ps := result.jokboPages.value;
    var (r, _, invalid) := Validated(result, b, v);
    var checked := r.jokboPages.value;
    var out := WithoutInvalid(r, invalid).jokboPages.value;
    forall i, q, s | 0 <= i < |out| && q in out[i].questions && s in q.slides && s.lessonPage.Some?
      ensures b.start <= s.lessonPage.value <= b.end
    {
      if invalid != {} {
        KeepSpec(checked[i].questions, NotListed(invalid));
      }
      SurvivorInChunk(ps, b, invalid, i, q, s);
    }
  }

  lemma SurvivorInChunk(ps: seq<JokboPage>, b: Bounds, invalid: set<string>, i: int, q: Question, s: Slide)
    requires 1 <= b.start <= b.end <= b.total
    requires invalid == InvalidNumbers(ps, b, Validators.ValidateAndAdjustPageNumber)
    requires 0 <= i < |ps|
    requires q in CheckQuestions(ps[i].questions, b, Validators.ValidateAndAdjustPageNumber)
    requires q.number !in invalid
    requires s in q.slides && s.lessonPage.Some?
    ensures b.start <= s.lessonPage.value <= b.end
  {
    var v: PageValidator := Validators.ValidateAndAdjustPageNumber;
    var cq := CheckQuestions(ps[i].questions, b, v);
    var j :| 0 <= j < |cq| && cq[j] == q;
    var orig := ps[i].questions[j];
    assert q == CheckQuestion(orig, b, v);
    var k :| 0 <= k < |q.slides| && q.slides[k] == s;
    var o := orig.slides[k];
    assert s == CheckSlide(o, b, v);
    assert !QuestionInvalid(orig, b, v) by {
      InvalidNumbersSpec(ps, b, v, orig.number);
    }
    assert !SlideInvalid(o, b, v);
    Validators.AdjustedPageInChunk(o.lessonPage.value, b.start, b.end, b.total);
  }
}
