/** The lesson-centric analyser of the refactored processor
    (`LessonAnalyzer`): one lesson is analysed against several exams, one
    exam at a time, and the slides the answers report are merged by lesson
    page: questions appended, importance raised to the highest seen, key
    concepts united. The calls to the service are not modelled: each exam's
    decoded answer is an input. */
module LessonAnalysis {
  import opened Common
  import opened Records

  /** The `summary` of one exam's answer: `total_questions` (0 when
      absent) and `key_topics`. */
  datatype AnswerSummary = AnswerSummary(totalQuestions: int, keyTopics: seq<string>)

  /** One exam's decoded answer. */
  datatype Answer = Answer(result: AnalysisResult, summary: Option<AnswerSummary>)

  /** A lesson page after merging. */
  datatype MergedSlide = MergedSlide(lessonPage: int, questions: seq<JokboRef>, importance: int, keyConcepts: set<string>)

  datatype LessonReport = LessonReport(
    slides: seq<MergedSlide>,
    totalRelatedSlides: int,
    totalQuestions: int,
    keyTopics: set<string>)

  /** `slide.get("importance_score", 5)`. */
  const DefaultImportance := 5

  function Importance(s: LessonSlide): int
  {
    if s.importanceScore.None? then DefaultImportance else s.importanceScore.value
  }

  /** `slide["lesson_page"]`, read only once every slide is known to have
      one. */
  function PageOf(s: LessonSlide): int
  {
    if s.lessonPage.None? then 0 else s.lessonPage.value
  }

  function ImportanceOf(s: LessonSlide): seq<int> { [Importance(s)] }

  function QuestionsOf(s: LessonSlide): seq<JokboRef> { s.questions }

  function ConceptsOf(s: LessonSlide): seq<string> { s.keyConcepts }

  /** The slides an answer contributes: none when it holds an error. */
  function AnswerSlides(a: Answer): seq<LessonSlide>
  {
    if HasError(a.result) || a.result.relatedSlides.None? then [] else a.result.relatedSlides.value
  }

  function AllSlides(answers: seq<Answer>): seq<LessonSlide>
  {
    FlatMap(answers, AnswerSlides)
  }

  predicate AllPaged(slides: seq<LessonSlide>)
  {
    forall i :: 0 <= i < |slides| ==> slides[i].lessonPage.Some?
  }

  /** The largest of a non-empty list. */
  function Highest(s: seq<int>): int
    requires s != []
  {
    if |s| == 1 then s[0] else Max(Highest(s[..|s| - 1]), s[|s| - 1])
  }

  lemma {:induction false} HighestSpec(s: seq<int>)
    requires s != []
    ensures Highest(s) in s && forall x :: x in s ==> x <= Highest(s)
  {
    if |s| > 1 {
      var n := |s| - 1;
      HighestSpec(s[..n]);
      assert s == s[..n] + [s[n]];
    }
  }

  lemma GatheredNonEmpty(all: seq<LessonSlide>, k: int)
    requires k in KeySet(all, PageOf)
    ensures Gather(all, PageOf, ImportanceOf, k) != []
  {
    var j :| 0 <= j < |all| && PageOf(all[j]) == k;
    GatherSpec(all, PageOf, ImportanceOf, k, Importance(all[j]));
  }

  /** The merged slide for lesson page `k`. */
  function MergedAt(all: seq<LessonSlide>, k: int): MergedSlide
    requires k in KeySet(all, PageOf)
  {
    GatheredNonEmpty(all, k);
    var concepts := Gather(all, PageOf, ConceptsOf, k);
    MergedSlide(k, Gather(all, PageOf, QuestionsOf, k), Highest(Gather(all, PageOf, ImportanceOf, k)),
                set c | c in concepts)
  }

  /** The lesson pages in the order they were first seen (the order of the
      dict's keys). */
  function PageOrder(all: seq<LessonSlide>): (r: seq<int>)
    ensures |r| == |FirstPerKey(all, PageOf, Always)|
  {
    var firsts := FirstPerKey(all, PageOf, Always);
    seq(|firsts|, i requires 0 <= i < |firsts| => PageOf(firsts[i]))
  }

  function MergedPage(m: MergedSlide): int { m.lessonPage }

  /** `_prepare_final_slides`: one merged slide per page, sorted by page. */
  function FinalSlides(all: seq<LessonSlide>): seq<MergedSlide>
  {
    SortBy(Unsorted(all), MergedPage)
  }

  /** The merged slides in the dict's key order, before sorting. */
  function Unsorted(all: seq<LessonSlide>): (u: seq<MergedSlide>)
    ensures |u| == |PageOrder(all)|
  {
    var order := PageOrder(all);
    PageOrderInKeys(all);
    seq(|order|, i requires 0 <= i < |order| => MergedAt(all, order[i]))
  }

  lemma PageOrderInKeys(all: seq<LessonSlide>)
    ensures forall i :: 0 <= i < |PageOrder(all)| ==> PageOrder(all)[i] in KeySet(all, PageOf)
  {
    var firsts := FirstPerKey(all, PageOf, Always);
    GroupFirsts(all, PageOf);
    forall i | 0 <= i < |firsts| ensures PageOf(firsts[i]) in KeySet(firsts, PageOf) { }
  }

  /** `summary.total_questions` of an answer that counts. */
  function AnswerQuestions(a: Answer): int
  {
    if HasError(a.result) || a.summary.None? then 0 else a.summary.value.totalQuestions
  }

  function AnswerTopics(a: Answer): set<string>
  {
    if HasError(a.result) || a.summary.None? then {} else set t | t in a.summary.value.keyTopics
  }

  function Topics(answers: seq<Answer>): set<string>
  {
    if answers == [] then {} else Topics(answers[..|answers| - 1]) + AnswerTopics(answers[|answers| - 1])
  }

  /** `analyze_pdfs_for_lesson` given each exam's answer: an error when a
      slide of an answer without error has no `lesson_page` (the `KeyError`
      leaves the call); otherwise the merged slides with the summary. */
  function Report(answers: seq<Answer>): Result<LessonReport>
  {
    var all := AllSlides(answers);
    if !AllPaged(all) then Err("lesson_page")
    else
      var slides := FinalSlides(all);
      Ok(LessonReport(slides, |slides|, SumOf(answers, AnswerQuestions), Topics(answers)))
  }

  // ---------------------------------------------------------------------
  // The loops
  // ---------------------------------------------------------------------

  /** The dict `all_related_slides` after the slides `all`: its keys in
      order, and each key's entry. */
  ghost predicate Holds(all: seq<LessonSlide>, order: seq<int>, groups: map<int, MergedSlide>)
  {
    && order == PageOrder(all)
    && groups.Keys == KeySet(all, PageOf)
    && forall k :: k in groups ==> groups[k] == MergedAt(all, k)
  }

  /** The entry a slide opens for a page not yet in the dict. */
  function Fresh(s: LessonSlide): MergedSlide
  {
    MergedSlide(PageOf(s), [], Importance(s), {})
  }

  /** An entry with one more slide merged into it. */
  function Absorb(m: MergedSlide, s: LessonSlide): MergedSlide
  {
    m.(questions := m.questions + s.questions,
       importance := Max(m.importance, Importance(s)),
       keyConcepts := m.keyConcepts + set c | c in s.keyConcepts)
  }

  /** The dict's key order after one more slide. */
  function NextOrder(order: seq<int>, groups: map<int, MergedSlide>, s: LessonSlide): seq<int>
  {
    if PageOf(s) in groups then order else order + [PageOf(s)]
  }

  /** The dict's entries after one more slide. */
  function NextGroups(groups: map<int, MergedSlide>, s: LessonSlide): map<int, MergedSlide>
  {
    var k := PageOf(s);
    groups[k := Absorb(if k in groups then groups[k] else Fresh(s), s)]
  }

  /** `_merge_lesson_results(result, all_related_slides, all_key_topics)`
      for the slides of one answer, the dict given as its key order and
      its entries; `Err` when a slide has no `lesson_page`. */
  method MergeLessonResults(slides: seq<LessonSlide>, ghost before: seq<LessonSlide>,
                            order: seq<int>, groups: map<int, MergedSlide>)
    returns (r: Result<(seq<int>, map<int, MergedSlide>)>)
    requires Holds(before, order, groups)
    ensures r.Ok? <==> AllPaged(slides)
    ensures r.Ok? ==> Holds(before + slides, r.value.0, r.value.1)
  {
    var ord, gs := order, groups;
    var i := 0;
    ghost var seen := before;
    assert before + slides[..0] == before;
    while i < |slides|
      invariant 0 <= i <= |slides|
      invariant seen == before + slides[..i]
      invariant AllPaged(slides[..i])
      invariant Holds(seen, ord, gs)
    {
      var s := slides[i];
      if s.lessonPage.None? {
        assert !AllPaged(slides) by {
          assert slides[i].lessonPage.None?;
        }
        return Err("lesson_page");
      }
      var page := s.lessonPage.value;
      AddSlide(seen, s, ord, gs);
      var entry := if page in gs then gs[page] else MergedSlide(page, [], Importance(s), {});
      if page !in gs {
        ord := ord + [page];
      }
      gs := gs[page := entry.(questions := entry.questions + s.questions,
                              importance := Max(entry.importance, Importance(s)),
                              keyConcepts := entry.keyConcepts + set c | c in s.keyConcepts)];
      assert slides[..i + 1] == slides[..i] + [s];
      seen := seen + [s];
      i := i + 1;
    }
    assert slides[..i] == slides;
    r := Ok((ord, gs));
  }

  /** One slide added to the dict, as the loop body does it. */
  lemma AddSlide(all: seq<LessonSlide>, s: LessonSlide, order: seq<int>, groups: map<int, MergedSlide>)
    requires Holds(all, order, groups) && s.lessonPage.Some?
    ensures Holds(all + [s], NextOrder(order, groups, s), NextGroups(groups, s))
  {
    var k := PageOf(s);
    var all' := all + [s];
    KeySetSnoc(all, s, PageOf);
    OrderAfter(all, s);
    var groups' := NextGroups(groups, s);
    forall j | j in groups' ensures groups'[j] == MergedAt(all', j) {
      if j != k {
        EntryUnchanged(all, s, j);
      } else if k in groups {
        EntryExtended(all, s);
      } else {
        EntryStarted(all, s);
      }
    }
  }

  /** A new page goes to the end of the key order; a known one changes
      nothing. */
  lemma OrderAfter(all: seq<LessonSlide>, s: LessonSlide)
    ensures PageOrder(all + [s]) ==
      if PageOf(s) in KeySet(all, PageOf) then PageOrder(all) else PageOrder(all) + [PageOf(s)]
  {
    var all' := all + [s];
    assert all'[..|all|] == all;
    GroupFirsts(all, PageOf);
    var firsts := FirstPerKey(all, PageOf, Always);
    if PageOf(s) in KeySet(all, PageOf) {
      assert FirstPerKey(all', PageOf, Always) == firsts;
    } else {
      var f' := firsts + [s];
      assert FirstPerKey(all', PageOf, Always) == f';
      assert forall i :: 0 <= i < |f'| ==> PageOrder(all')[i] == PageOf(f'[i]);
    }
  }

  /** The entries of the other pages are left as they were. */
  lemma EntryUnchanged(all: seq<LessonSlide>, s: LessonSlide, j: int)
    requires j in KeySet(all, PageOf) && j != PageOf(s)
    ensures j in KeySet(all + [s], PageOf) && MergedAt(all + [s], j) == MergedAt(all, j)
  {
    var all' := all + [s];
    assert all'[..|all|] == all;
    KeySetSnoc(all, s, PageOf);
    assert Gather(all', PageOf, ImportanceOf, j) == Gather(all, PageOf, ImportanceOf, j);
    assert Gather(all', PageOf, QuestionsOf, j) == Gather(all, PageOf, QuestionsOf, j);
    assert Gather(all', PageOf, ConceptsOf, j) == Gather(all, PageOf, ConceptsOf, j);
  }

  /** A slide on a known page is merged into that page's entry. */
  lemma EntryExtended(all: seq<LessonSlide>, s: LessonSlide)
    requires PageOf(s) in KeySet(all, PageOf)
    ensures PageOf(s) in KeySet(all + [s], PageOf)
    ensures MergedAt(all + [s], PageOf(s)) == Absorb(MergedAt(all, PageOf(s)), s)
  {
    var k := PageOf(s);
    var all' := all + [s];
    assert all'[..|all|] == all;
    KeySetSnoc(all, s, PageOf);
    GatheredNonEmpty(all, k);
    var g := Gather(all, PageOf, ImportanceOf, k);
    assert Gather(all', PageOf, ImportanceOf, k) == g + [Importance(s)];
    assert (g + [Importance(s)])[..|g|] == g;
    var cs := Gather(all, PageOf, ConceptsOf, k);
    assert Gather(all', PageOf, ConceptsOf, k) == cs + s.keyConcepts;
    assert (set c | c in cs + s.keyConcepts) == (set c | c in cs) + (set c | c in s.keyConcepts);
  }

  /** A slide on a new page opens an entry holding only that slide. */
  lemma EntryStarted(all: seq<LessonSlide>, s: LessonSlide)
    requires PageOf(s) !in KeySet(all, PageOf)
    ensures PageOf(s) in KeySet(all + [s], PageOf)
    ensures MergedAt(all + [s], PageOf(s)) == Absorb(Fresh(s), s)
  {
    var k := PageOf(s);
    var all' := all + [s];
    assert all'[..|all|] == all;
    KeySetSnoc(all, s, PageOf);
    GatherAbsent(all, PageOf, ImportanceOf, k);
    GatherAbsent(all, PageOf, QuestionsOf, k);
    GatherAbsent(all, PageOf, ConceptsOf, k);
    assert Gather(all', PageOf, ImportanceOf, k) == [Importance(s)];
    assert Gather(all', PageOf, QuestionsOf, k) == s.questions;
    assert Gather(all', PageOf, ConceptsOf, k) == s.keyConcepts;
  }

  /** The slides, questions and topics after one more answer. */
  lemma AnswerStep(answers: seq<Answer>, i: nat)
    requires i < |answers|
    ensures AllSlides(answers[..i + 1]) == AllSlides(answers[..i]) + AnswerSlides(answers[i])
    ensures SumOf(answers[..i + 1], AnswerQuestions) == SumOf(answers[..i], AnswerQuestions) + AnswerQuestions(answers[i])
    ensures Topics(answers[..i + 1]) == Topics(answers[..i]) + AnswerTopics(answers[i])
  {
    assert answers[..i + 1] == answers[..i] + [answers[i]];
    assert answers[..i + 1][..i] == answers[..i];
    SumOfAppend(answers[..i], [answers[i]], AnswerQuestions);
  }

  /** `analyze_pdfs_for_lesson` over the exams' answers. */
  method AnalyzePdfsForLesson(answers: seq<Answer>) returns (r: Result<LessonReport>)
    ensures r == Report(answers)
  {
    var order: seq<int> := [];
    var groups: map<int, MergedSlide> := map[];
    var totalQuestions := 0;
    var topics: set<string> := {};
    var i := 0;
    ghost var seen: seq<LessonSlide> := [];
    while i < |answers|
      invariant 0 <= i <= |answers|
      invariant seen == AllSlides(answers[..i])
      invariant AllPaged(seen)
      invariant Holds(seen, order, groups)
      invariant totalQuestions == SumOf(answers[..i], AnswerQuestions)
      invariant topics == Topics(answers[..i])
    {
      var a := answers[i];
      AnswerStep(answers, i);
      if a.result.error.Some? {
        assert AnswerSlides(a) == [] && seen + [] == seen;
        i := i + 1;
        continue;
      }
      var slides := if a.result.relatedSlides.None? then [] else a.result.relatedSlides.value;
      assert slides == AnswerSlides(a);
      var merged := MergeLessonResults(slides, seen, order, groups);
      AllPagedAppend(seen, slides);
      if merged.Err? {
        AllPagedPrefix(answers, i + 1);
        return Err("lesson_page");
      }
      order, groups := merged.value.0, merged.value.1;
      if a.summary.Some? {
        totalQuestions := totalQuestions + a.summary.value.totalQuestions;
        topics := topics + set t | t in a.summary.value.keyTopics;
      }
      seen := seen + slides;
      i := i + 1;
    }
    assert answers[..i] == answers;
    r := PrepareFinalSlides(seen, order, groups, totalQuestions, topics);
  }

  /** `_prepare_final_slides`, then the summary. */
  method PrepareFinalSlides(ghost all: seq<LessonSlide>, order: seq<int>, groups: map<int, MergedSlide>,
                            totalQuestions: int, topics: set<string>)
    returns (r: Result<LessonReport>)
    requires Holds(all, order, groups)
    ensures r == Ok(LessonReport(FinalSlides(all), |FinalSlides(all)|, totalQuestions, topics))
  {
    PageOrderInKeys(all);
    var finalSlides := seq(|order|, i requires 0 <= i < |order| => groups[order[i]]);
    assert finalSlides == Unsorted(all);
    finalSlides := SortBy(finalSlides, MergedPage);
    r := Ok(LessonReport(finalSlides, |finalSlides|, totalQuestions, topics));
  }

  lemma AllPagedAppend(a: seq<LessonSlide>, b: seq<LessonSlide>)
    ensures AllPaged(a + b) <==> AllPaged(a) && AllPaged(b)
  {
    if AllPaged(a) && AllPaged(b) {
      forall i | 0 <= i < |a + b| ensures (a + b)[i].lessonPage.Some? {
        if i >= |a| {
          assert (a + b)[i] == b[i - |a|];
        }
      }
    }
    if AllPaged(a + b) {
      forall i | 0 <= i < |b| ensures b[i].lessonPage.Some? {
        assert (a + b)[|a| + i] == b[i];
      }
      forall i | 0 <= i < |a| ensures a[i].lessonPage.Some? {
        assert (a + b)[i] == a[i];
      }
    }
  }

  /** A slide without a page among the first answers is one among all. */
  lemma {:induction false} AllPagedPrefix(answers: seq<Answer>, n: nat)
    requires n <= |answers|
    requires !AllPaged(AllSlides(answers[..n]))
    ensures !AllPaged(AllSlides(answers))
    decreases |answers| - n
  {
    if n < |answers| {
      assert answers[..n + 1] == answers[..n] + [answers[n]];
      assert answers[..n + 1][..n] == answers[..n];
      AllPagedAppend(AllSlides(answers[..n]), AnswerSlides(answers[n]));
      AllPagedPrefix(answers, n + 1);
    } else {
      assert answers[..n] == answers;
    }
  }

  // ---------------------------------------------------------------------
  // What the merge promises
  // ---------------------------------------------------------------------

  /** The merged slide of page `k` carries exactly the questions of the
      slides with that page, in order; exactly their key concepts; and the
      highest importance among them (5 for a slide without one). */
  lemma MergedAtSpec(all: seq<LessonSlide>, k: int)
    requires k in KeySet(all, PageOf)
    ensures var m := MergedAt(all, k);
      && m.lessonPage == k
      && (forall q :: q in m.questions <==> exists i :: 0 <= i < |all| && PageOf(all[i]) == k && q in all[i].questions)
      && (forall c :: c in m.keyConcepts <==> exists i :: 0 <= i < |all| && PageOf(all[i]) == k && c in all[i].keyConcepts)
      && (forall i :: 0 <= i < |all| && PageOf(all[i]) == k ==> Importance(all[i]) <= m.importance)
      && (exists i :: 0 <= i < |all| && PageOf(all[i]) == k && Importance(all[i]) == m.importance)
  {
    var m := MergedAt(all, k);
    forall q {
      GatherSpec(all, PageOf, QuestionsOf, k, q);
    }
    forall c {
      GatherSpec(all, PageOf, ConceptsOf, k, c);
    }
    var g := Gather(all, PageOf, ImportanceOf, k);
    GatheredNonEmpty(all, k);
    HighestSpec(g);
    forall i | 0 <= i < |all| && PageOf(all[i]) == k ensures Importance(all[i]) <= m.importance {
      GatherSpec(all, PageOf, ImportanceOf, k, Importance(all[i]));
      assert Importance(all[i]) in ImportanceOf(all[i]);
    }
    GatherSpec(all, PageOf, ImportanceOf, k, m.importance);
    var i :| 0 <= i < |all| && PageOf(all[i]) == k && m.importance in ImportanceOf(all[i]);
  }

  /** The final slides are sorted by page, one per page that some slide
      has, and no page is lost. */
  lemma FinalSlidesSpec(all: seq<LessonSlide>)
    ensures var r := FinalSlides(all);
      && |r| == |PageOrder(all)|
      && (forall i, j :: 0 <= i < j < |r| ==> r[i].lessonPage < r[j].lessonPage)
      && (forall k :: (exists i :: 0 <= i < |r| && r[i].lessonPage == k) <==> k in KeySet(all, PageOf))
      && forall i :: 0 <= i < |r| ==> r[i].lessonPage in KeySet(all, PageOf) && r[i] == MergedAt(all, r[i].lessonPage)
  {
    var r := FinalSlides(all);
    FinalSlidesContent(all);
    FinalSlidesIncreasing(all);
    FinalSlidesCover(all);
    forall i | 0 <= i < |r| ensures r[i].lessonPage in KeySet(all, PageOf) && r[i] == MergedAt(all, r[i].lessonPage) {
      assert r[i] in r;
    }
  }

  lemma UnsortedPages(all: seq<LessonSlide>)
    ensures var u, firsts := Unsorted(all), FirstPerKey(all, PageOf, Always);
      |u| == |firsts| && forall m :: 0 <= m < |u| ==> u[m].lessonPage == PageOf(firsts[m])
  {
  }

  lemma FinalSlidesContent(all: seq<LessonSlide>)
    ensures |FinalSlides(all)| == |PageOrder(all)|
    ensures multiset(FinalSlides(all)) == multiset(Unsorted(all))
    ensures forall x :: x in FinalSlides(all) ==> x.lessonPage in KeySet(all, PageOf) && x == MergedAt(all, x.lessonPage)
  {
    var u, r := Unsorted(all), FinalSlides(all);
    PageOrderInKeys(all);
    SortByPermutation(u, MergedPage);
    forall x | x in r ensures x.lessonPage in KeySet(all, PageOf) && x == MergedAt(all, x.lessonPage) {
      assert x in multiset(r);
      assert x in u;
    }
  }

  lemma FinalSlidesIncreasing(all: seq<LessonSlide>)
    ensures var r := FinalSlides(all);
      forall i, j :: 0 <= i < j < |r| ==> r[i].lessonPage < r[j].lessonPage
  {
    var u, r := Unsorted(all), FinalSlides(all);
    var firsts := FirstPerKey(all, PageOf, Always);
    FinalSlidesContent(all);
    SortBySortedOut(u, MergedPage);
    GroupFirsts(all, PageOf);
    UnsortedPages(all);
    forall i, j | 0 <= i < j < |r| ensures r[i].lessonPage < r[j].lessonPage {
      assert MergedPage(r[i]) <= MergedPage(r[j]);
      DistinctAfterSort(u, r, firsts, i, j);
    }
  }

  lemma FinalSlidesCover(all: seq<LessonSlide>)
    ensures var r := FinalSlides(all);
      forall k :: (exists i :: 0 <= i < |r| && r[i].lessonPage == k) <==> k in KeySet(all, PageOf)
  {
    var u, r := Unsorted(all), FinalSlides(all);
    var firsts := FirstPerKey(all, PageOf, Always);
    FinalSlidesContent(all);
    GroupFirsts(all, PageOf);
    UnsortedPages(all);
    forall k | k in KeySet(all, PageOf) ensures exists i :: 0 <= i < |r| && r[i].lessonPage == k {
      assert k in KeySet(firsts, PageOf);
      var m :| 0 <= m < |firsts| && PageOf(firsts[m]) == k;
      assert u[m] in multiset(u);
      assert u[m] in r;
    }
    forall k | exists i :: 0 <= i < |r| && r[i].lessonPage == k ensures k in KeySet(all, PageOf) {
      var i :| 0 <= i < |r| && r[i].lessonPage == k;
      assert r[i] in r;
    }
  }

  lemma DistinctAfterSort(u: seq<MergedSlide>, r: seq<MergedSlide>, firsts: seq<LessonSlide>, i: int, j: int)
    requires multiset(r) == multiset(u) && |u| == |firsts|
    requires forall m :: 0 <= m < |u| ==> u[m].lessonPage == PageOf(firsts[m])
    requires DistinctKeys(firsts, PageOf)
    requires 0 <= i < j < |r|
    ensures r[i].lessonPage != r[j].lessonPage
  {
    assert r[i] in multiset(u) && r[j] in multiset(u);
    var a :| 0 <= a < |u| && u[a] == r[i];
    var b :| 0 <= b < |u| && u[b] == r[j];
    NoRepeat(u, r, firsts, i, j, a);
  }

  /** Two places of `r` hold different slides, since `u` holds none twice. */
  lemma NoRepeat(u: seq<MergedSlide>, r: seq<MergedSlide>, firsts: seq<LessonSlide>, i: int, j: int, a: int)
    requires multiset(r) == multiset(u) && |u| == |firsts|
    requires forall m :: 0 <= m < |u| ==> u[m].lessonPage == PageOf(firsts[m])
    requires DistinctKeys(firsts, PageOf)
    requires 0 <= i < j < |r| && 0 <= a < |u| && u[a] == r[i]
    ensures r[i] != r[j]
  {
    OnlyOnce(u, firsts, a);
    var l, t := r[..j], r[j..];
    assert r == l + t;
    assert l[i] == r[i] && t[0] == r[j];
    assert multiset(r)[r[i]] == multiset(l)[r[i]] + multiset(t)[r[i]];
    assert r[i] in multiset(l) && r[j] in multiset(t);
  }

  lemma OnlyOnce(u: seq<MergedSlide>, firsts: seq<LessonSlide>, a: int)
    requires |u| == |firsts| && 0 <= a < |u|
    requires forall m :: 0 <= m < |u| ==> u[m].lessonPage == PageOf(firsts[m])
    requires DistinctKeys(firsts, PageOf)
    ensures multiset(u)[u[a]] <= 1
  {
    assert u == u[..a] + [u[a]] + u[a + 1..];
    var l, t := u[..a], u[a + 1..];
    forall m | 0 <= m < |l| ensures l[m] != u[a] {
      assert l[m] == u[m] && PageOf(firsts[m]) != PageOf(firsts[a]);
    }
    forall m | 0 <= m < |t| ensures t[m] != u[a] {
      assert t[m] == u[a + 1 + m] && PageOf(firsts[a + 1 + m]) != PageOf(firsts[a]);
    }
    assert u[a] !in multiset(l) && u[a] !in multiset(t);
  }

  /** An answer holding an error changes nothing: neither the slides nor
      the summary. */
  lemma ErrorAnswerIgnored(answers: seq<Answer>, a: Answer)
    requires HasError(a.result)
    ensures Report(answers + [a]) == Report(answers)
  {
    var s := answers + [a];
    assert s[..|answers|] == answers;
    SumOfAppend(answers, [a], AnswerQuestions);
    assert AllSlides(s) == AllSlides(answers) + AnswerSlides(a);
    assert AllSlides(s) == AllSlides(answers);
    assert Topics(s) == Topics(answers) + AnswerTopics(a);
    assert SumOf(s, AnswerQuestions) == SumOf(answers, AnswerQuestions);
    assert Topics(s) == Topics(answers);
    assert AllPaged(AllSlides(s)) == AllPaged(AllSlides(answers));
    assert FinalSlides(AllSlides(s)) == FinalSlides(AllSlides(answers));
  }

  /** The report fails exactly when a counted answer has a slide without a
      lesson page; otherwise it lists the merged slides and counts them. */
  lemma ReportSpec(answers: seq<Answer>)
    ensures Report(answers).Err? <==>
      exists i, j :: 0 <= i < |answers| && 0 <= j < |AnswerSlides(answers[i])| && AnswerSlides(answers[i])[j].lessonPage.None?
    ensures Report(answers).Ok? ==>
      Report(answers).value.totalRelatedSlides == |Report(answers).value.slides| == |KeySet(AllSlides(answers), PageOf)|
  {
    var all := AllSlides(answers);
    if !AllPaged(all) {
      var m :| 0 <= m < |all| && all[m].lessonPage.None?;
      FlatMapSpec(answers, AnswerSlides, all[m]);
      var i :| 0 <= i < |answers| && all[m] in AnswerSlides(answers[i]);
      var j :| 0 <= j < |AnswerSlides(answers[i])| && AnswerSlides(answers[i])[j] == all[m];
    } else {
      forall i, j | 0 <= i < |answers| && 0 <= j < |AnswerSlides(answers[i])|
        ensures AnswerSlides(answers[i])[j].lessonPage.Some?
      {
        FlatMapSpec(answers, AnswerSlides, AnswerSlides(answers[i])[j]);
      }
      var firsts := FirstPerKey(all, PageOf, Always);
      GroupFirsts(all, PageOf);
      FinalSlidesSpec(all);
      DistinctKeyCount(firsts, PageOf);
    }
  }

  lemma {:induction false} DistinctKeyCount<T, K>(s: seq<T>, key: T -> K)
    requires DistinctKeys(s, key)
    ensures |KeySet(s, key)| == |s|
  {
    if s != [] {
      var n := |s| - 1;
      assert DistinctKeys(s[..n], key);
      DistinctKeyCount(s[..n], key);
      assert s == s[..n] + [s[n]];
      KeySetSnoc(s[..n], s[n], key);
      assert key(s[n]) !in KeySet(s[..n], key) by {
        forall m | 0 <= m < n ensures key(s[..n][m]) != key(s[n]) { assert s[..n][m] == s[m]; }
      }
    }
  }
}
