/** Combining the results of the chunks of one document, or of several
    calls to the service, into one result (`ResultMerger`), and keeping the
    best-scoring slides of a question. */
module ResultMerger {
  import opened Common
  import opened Records

  /** The empty dictionary `{}`. */
  const EmptyResult := AnalysisResult(None, None, None, None)

  /** `int(str(x.get("jokbo_page", 0)) or 0)`: pages hold whole numbers here. */
  function PageKey(p: JokboPage): int { p.page }

  /** `int(str(x.get("lesson_page", 0)) or 0)`. */
  function SlidePage(s: LessonSlide): int
  {
    if s.lessonPage.Some? then s.lessonPage.value else 0
  }

  /** The de-duplication key of a lesson slide: file name stripped and
      lower-cased, and page. */
  function SlideKey(s: LessonSlide): (string, int)
  {
    (Lower(Strip(s.lessonFilename)), SlidePage(s))
  }

  predicate PositivePage(s: LessonSlide) { SlidePage(s) > 0 }

  // ---------------------------------------------------------------------
  // Collecting
  // ---------------------------------------------------------------------

  /** The pages of every result that has `jokbo_pages`, in result order. */
  function AllPages(results: seq<AnalysisResult>): seq<JokboPage>
  {
    if results == [] then []
    else
      var r := results[|results| - 1];
      AllPages(results[..|results| - 1]) + (if r.jokboPages.Some? then r.jokboPages.value else [])
  }

  /** The slides of every result that has `related_slides`, in result order. */
  function AllSlides(results: seq<AnalysisResult>): seq<LessonSlide>
  {
    if results == [] then []
    else
      var r := results[|results| - 1];
      AllSlides(results[..|results| - 1]) + (if r.relatedSlides.Some? then r.relatedSlides.value else [])
  }

  /** Every collected page comes from some result. */
  lemma {:induction false} AllPagesFrom(results: seq<AnalysisResult>, p: JokboPage)
    requires p in AllPages(results)
    ensures exists i :: 0 <= i < |results| && results[i].jokboPages.Some? && p in results[i].jokboPages.value
  {
    var n := |results| - 1;
    if p !in AllPages(results[..n]) {
      assert results[n].jokboPages.Some? && p in results[n].jokboPages.value;
    } else {
      AllPagesFrom(results[..n], p);
      var i :| 0 <= i < n && results[..n][i].jokboPages.Some? && p in results[..n][i].jokboPages.value;
      assert results[i] == results[..n][i];
    }
  }

  /** Every page of every result is collected. */
  lemma {:induction false} AllPagesHas(results: seq<AnalysisResult>, i: int, p: JokboPage)
    requires 0 <= i < |results| && results[i].jokboPages.Some? && p in results[i].jokboPages.value
    ensures p in AllPages(results)
  {
    var n := |results| - 1;
    if i < n {
      assert results[..n][i] == results[i];
      AllPagesHas(results[..n], i, p);
    }
  }

  /** A page is collected exactly when some result lists it. */
  lemma AllPagesSpec(results: seq<AnalysisResult>, p: JokboPage)
    ensures p in AllPages(results) <==>
      exists i :: 0 <= i < |results| && results[i].jokboPages.Some? && p in results[i].jokboPages.value
  {
    if p in AllPages(results) {
      AllPagesFrom(results, p);
    }
    if exists i :: 0 <= i < |results| && results[i].jokboPages.Some? && p in results[i].jokboPages.value {
      var i :| 0 <= i < |results| && results[i].jokboPages.Some? && p in results[i].jokboPages.value;
      AllPagesHas(results, i, p);
    }
  }

  /** Every collected slide comes from some result. */
  lemma {:induction false} AllSlidesFrom(results: seq<AnalysisResult>, s: LessonSlide)
    requires s in AllSlides(results)
    ensures exists i :: 0 <= i < |results| && results[i].relatedSlides.Some? && s in results[i].relatedSlides.value
  {
    var n := |results| - 1;
    if s !in AllSlides(results[..n]) {
      assert results[n].relatedSlides.Some? && s in results[n].relatedSlides.value;
    } else {
      AllSlidesFrom(results[..n], s);
      var i :| 0 <= i < n && results[..n][i].relatedSlides.Some? && s in results[..n][i].relatedSlides.value;
      assert results[i] == results[..n][i];
    }
  }

  /** Every slide of every result is collected. */
  lemma {:induction false} AllSlidesHas(results: seq<AnalysisResult>, i: int, s: LessonSlide)
    requires 0 <= i < |results| && results[i].relatedSlides.Some? && s in results[i].relatedSlides.value
    ensures s in AllSlides(results)
  {
    var n := |results| - 1;
    if i < n {
      assert results[..n][i] == results[i];
      AllSlidesHas(results[..n], i, s);
    }
  }

  /** A slide is collected exactly when some result lists it. */
  lemma AllSlidesSpec(results: seq<AnalysisResult>, s: LessonSlide)
    ensures s in AllSlides(results) <==>
      exists i :: 0 <= i < |results| && results[i].relatedSlides.Some? && s in results[i].relatedSlides.value
  {
    if s in AllSlides(results) {
      AllSlidesFrom(results, s);
    }
    if exists i :: 0 <= i < |results| && results[i].relatedSlides.Some? && s in results[i].relatedSlides.value {
      var i :| 0 <= i < |results| && results[i].relatedSlides.Some? && s in results[i].relatedSlides.value;
      AllSlidesHas(results, i, s);
    }
  }

  /** The loop gathering the pages of every result. */
  method CollectPages(results: seq<AnalysisResult>) returns (pages: seq<JokboPage>)
    ensures pages == AllPages(results)
  {
    pages := [];
    var i := 0;
    while i < |results|
      invariant 0 <= i <= |results|
      invariant pages == AllPages(results[..i])
    {
      assert results[..i + 1][..i] == results[..i];
      if results[i].jokboPages.Some? {
        pages := pages + results[i].jokboPages.value;
      }
      i := i + 1;
    }
    assert results[..i] == results;
  }

  /** The loop gathering the slides of every result. */
  method CollectSlides(results: seq<AnalysisResult>) returns (slides: seq<LessonSlide>)
    ensures slides == AllSlides(results)
  {
    slides := [];
    var i := 0;
    while i < |results|
      invariant 0 <= i <= |results|
      invariant slides == AllSlides(results[..i])
    {
      assert results[..i + 1][..i] == results[..i];
      if results[i].relatedSlides.Some? {
        slides := slides + results[i].relatedSlides.value;
      }
      i := i + 1;
    }
    assert results[..i] == results;
  }

  /** Number of results whose `error` is set and not empty. */
  function FailedCount(results: seq<AnalysisResult>): (n: nat)
    ensures n <= |results|
    ensures n == 0 <==> forall i :: 0 <= i < |results| ==> !ErrorSet(results[i])
  {
    if results == [] then 0
    else
      var m := FailedCount(results[1..]);
      assert forall i :: 1 <= i < |results| ==> results[i] == results[1..][i - 1];
      (if ErrorSet(results[0]) then 1 else 0) + m
  }

  // ---------------------------------------------------------------------
  // Merging chunk results
  // ---------------------------------------------------------------------

  /** `_merge_jokbo_results`: all pages of all chunks, stably sorted by page. */
  method MergeJokboResults(results: seq<AnalysisResult>) returns (merged: AnalysisResult)
    ensures merged == JokboResult(SortBy(AllPages(results), PageKey))
  {
    var pages := CollectPages(results);
    merged := JokboResult(SortBy(pages, PageKey));
  }

  /** The merged pages are exactly the chunks' pages, each as often as the
      chunks list it, in page order, and pages with the same number keep
      the order of the chunks. */
  lemma MergeJokboSpec(results: seq<AnalysisResult>)
    ensures var out := SortBy(AllPages(results), PageKey);
      && SortedBy(out, PageKey)
      && multiset(out) == multiset(AllPages(results))
      && (forall k :: WithKey(out, PageKey, k) == WithKey(AllPages(results), PageKey, k))
      && (forall p :: p in out <==>
            exists i :: 0 <= i < |results| && results[i].jokboPages.Some? && p in results[i].jokboPages.value)
  {
    var all := AllPages(results);
    SortBySpec(all, PageKey);
    forall p
      ensures p in SortBy(all, PageKey) <==>
        exists i :: 0 <= i < |results| && results[i].jokboPages.Some? && p in results[i].jokboPages.value
    {
      AllPagesSpec(results, p);
      assert p in SortBy(all, PageKey) <==> p in multiset(SortBy(all, PageKey));
    }
  }

  /** `_merge_lesson_results`: the slides of all chunks, the first per file
      and page among those on a positive page, stably sorted by page. */
  method MergeLessonResults(results: seq<AnalysisResult>) returns (merged: AnalysisResult)
    ensures merged == LessonResult(SortBy(FirstPerKey(AllSlides(results), SlideKey, PositivePage), SlidePage))
  {
    var collected := CollectSlides(results);
    var unique := KeepFirstPerKey(collected, SlideKey, PositivePage);
    merged := LessonResult(SortBy(unique, SlidePage));
  }

  /** The merged slides are, in page order, the slides kept by
      de-duplication: each on a positive page, each the first collected
      slide with its file and page, no two with the same file and page,
      and every file and page of a collected slide on a positive page
      present. */
  lemma MergeLessonSpec(results: seq<AnalysisResult>)
    ensures var all := AllSlides(results);
      var unique := FirstPerKey(all, SlideKey, PositivePage);
      var out := SortBy(unique, SlidePage);
      && SortedBy(out, SlidePage)
      && multiset(out) == multiset(unique)
      && (forall i :: 0 <= i < |unique| ==> SlidePage(unique[i]) > 0 && FirstOfKey(all, SlideKey, PositivePage, unique[i]))
      && DistinctKeys(unique, SlideKey)
      && KeySet(unique, SlideKey) == (set i | 0 <= i < |all| && PositivePage(all[i]) :: SlideKey(all[i]))
  {
    var all := AllSlides(results);
    FirstPerKeySpec(all, SlideKey, PositivePage);
    SortBySpec(FirstPerKey(all, SlideKey, PositivePage), SlidePage);
  }

  /** A result with warnings about `failed` failed chunks, when there are any. */
  function WithWarnings(r: AnalysisResult, failed: nat): AnalysisResult
  {
    if failed > 0 then r.(warnings := Some(Warnings(failed, true))) else r
  }

  /** `merge_chunk_results`. */
  method MergeChunkResults(results: seq<AnalysisResult>, mode: string) returns (merged: AnalysisResult)
    ensures results == [] ==> merged == EmptyResult
    ensures results != [] && mode == "jokbo-centric" ==>
      merged == WithWarnings(JokboResult(SortBy(AllPages(results), PageKey)), FailedCount(results))
    ensures results != [] && mode != "jokbo-centric" ==>
      merged == WithWarnings(LessonResult(SortBy(FirstPerKey(AllSlides(results), SlideKey, PositivePage), SlidePage)),
        FailedCount(results))
  {
    if results == [] {
      return EmptyResult;
    }
    if mode == "jokbo-centric" {
      merged := MergeJokboResults(results);
    } else {
      merged := MergeLessonResults(results);
    }
    var failed := FailedCount(results);
    if failed > 0 {
      merged := merged.(warnings := Some(Warnings(failed, true)));
    }
  }

  /** Merged chunk results carry warnings exactly when some chunk failed,
      with the number of failed chunks and the partial flag; the content
      comes from the chunks in either case. */
  lemma MergeChunkWarnings(results: seq<AnalysisResult>, r: AnalysisResult)
    requires r.warnings.None?
    ensures var w := WithWarnings(r, FailedCount(results));
      && (w.warnings.Some? <==> exists i :: 0 <= i < |results| && ErrorSet(results[i]))
      && (w.warnings.Some? ==> w.warnings.value == Warnings(FailedCount(results), true) && FailedCount(results) <= |results|)
      && w.(warnings := None) == r
  {
  }

  // ---------------------------------------------------------------------
  // Score filtering
  // ---------------------------------------------------------------------

  /** `lst[:n]` in Python for any integer `n`: a negative `n` drops that
      many elements from the end. */
  function PyPrefix<T>(s: seq<T>, n: int): (r: seq<T>)
    ensures n >= 0 ==> r == Take(s, n)
    ensures n < 0 ==> |r| == Max(0, |s| + n) && r == s[..|r|]
  {
    if n >= 0 then Take(s, n) else s[..Max(0, |s| + n)]
  }

  function Score(c: Slide): int { c.relevanceScore }

  function NegScore(c: Slide): int { -c.relevanceScore }

  /** `c.get("relevance_score", 0) >= min_score`. */
  function AtLeast(minScore: int): Slide -> bool
  {
    (c: Slide) => c.relevanceScore >= minScore
  }

  /** The connections scoring at least `minScore`, in input order. */
  function Qualifying(connections: seq<Slide>, minScore: int): seq<Slide>
  {
    Keep(connections, AtLeast(minScore))
  }

  /** The qualifying connections, best first, ties in input order. */
  function Ranked(connections: seq<Slide>, minScore: int): seq<Slide>
  {
    SortBy(Qualifying(connections, minScore), NegScore)
  }

  /** `filter_connections_by_score`: the connections scoring at least
      `minScore`, best first (ties in input order), at most
      `maxConnections` of them. */
  function FilterConnectionsByScore(connections: seq<Slide>, minScore: int, maxConnections: int): seq<Slide>
  {
    PyPrefix(Ranked(connections, minScore), maxConnections)
  }

  /** Prefixes of a sorted list are sorted. */
  lemma SortedPrefix<T>(s: seq<T>, n: nat, key: T -> int)
    requires SortedBy(s, key) && n <= |s|
    ensures SortedBy(s[..n], key)
  {
    assert forall i :: 0 <= i < n ==> s[..n][i] == s[i];
  }

  lemma PrefixMultiset<T>(s: seq<T>, n: nat)
    requires n <= |s|
    ensures multiset(s[..n]) <= multiset(s)
  {
    assert s == s[..n] + s[n..];
  }

  /** The qualifying connections are exactly the input's connections with
      a high enough score. */
  lemma QualifyingSpec(connections: seq<Slide>, minScore: int)
    ensures var q := Qualifying(connections, minScore);
      && (forall x :: x in q <==> x in connections && x.relevanceScore >= minScore)
      && multiset(q) <= multiset(connections)
  {
    KeepSpec(connections, AtLeast(minScore));
  }

  /** The ranked connections are the qualifying ones, best first. */
  lemma RankedSpec(connections: seq<Slide>, minScore: int)
    ensures var r := Ranked(connections, minScore);
      && |r| == |Qualifying(connections, minScore)|
      && (forall i, j :: 0 <= i < j < |r| ==> r[i].relevanceScore >= r[j].relevanceScore)
      && (forall x :: x in r <==> x in connections && x.relevanceScore >= minScore)
      && multiset(r) <= multiset(connections)
  {
    var q := Qualifying(connections, minScore);
    var r := Ranked(connections, minScore);
    QualifyingSpec(connections, minScore);
    SortBySpec(q, NegScore);
    forall i, j | 0 <= i < j < |r| ensures r[i].relevanceScore >= r[j].relevanceScore {
      assert NegScore(r[i]) <= NegScore(r[j]);
    }
    forall x ensures x in r <==> x in q {
      assert x in r <==> x in multiset(r);
    }
  }

  /** With a limit that is not negative the filter keeps the first
      `maxConnections` ranked connections, or all of them. */
  lemma FilterPrefix(connections: seq<Slide>, minScore: int, maxConnections: int)
    requires maxConnections >= 0
    ensures var ranked := Ranked(connections, minScore);
      FilterConnectionsByScore(connections, minScore, maxConnections) == ranked[..Min(maxConnections, |ranked|)]
  {
  }

  /** Every kept connection scores at least `minScore` and comes from the
      input, the kept ones are best first, and as many as allowed are kept
      (all of the qualifying ones when there are no more). */
  lemma FilterConnectionsSpec(connections: seq<Slide>, minScore: int, maxConnections: int)
    requires maxConnections >= 0
    ensures var r := FilterConnectionsByScore(connections, minScore, maxConnections);
      && (forall i :: 0 <= i < |r| ==> r[i].relevanceScore >= minScore)
      && (forall i, j :: 0 <= i < j < |r| ==> r[i].relevanceScore >= r[j].relevanceScore)
      && multiset(r) <= multiset(connections)
      && |r| == Min(maxConnections, |Qualifying(connections, minScore)|)
  {
    RankedSpec(connections, minScore);
    FilterPrefix(connections, minScore, maxConnections);
    var ranked := Ranked(connections, minScore);
    var n := Min(maxConnections, |ranked|);
    var r := ranked[..n];
    forall i | 0 <= i < |r| ensures r[i].relevanceScore >= minScore {
      assert r[i] == ranked[i] && ranked[i] in ranked;
    }
    PrefixMultiset(ranked, n);
  }

  /** A qualifying connection that is left out scores no better than any
      kept one. */
  lemma FilterConnectionsTop(connections: seq<Slide>, minScore: int, maxConnections: int, c: Slide)
    requires maxConnections >= 0
    requires c in connections && c.relevanceScore >= minScore
    requires c !in FilterConnectionsByScore(connections, minScore, maxConnections)
    ensures var r := FilterConnectionsByScore(connections, minScore, maxConnections);
      forall i :: 0 <= i < |r| ==> r[i].relevanceScore >= c.relevanceScore
  {
    RankedSpec(connections, minScore);
    FilterPrefix(connections, minScore, maxConnections);
    var ranked := Ranked(connections, minScore);
    var n := Min(maxConnections, |ranked|);
    var m :| 0 <= m < |ranked| && ranked[m] == c;
    assert forall i :: 0 <= i < n ==> ranked[..n][i] == ranked[i];
    assert m >= n;
  }

  /** Filtering twice is filtering once, for a limit that is not negative. */
  lemma FilterConnectionsIdempotent(connections: seq<Slide>, minScore: int, maxConnections: int)
    requires maxConnections >= 0
    ensures var r := FilterConnectionsByScore(connections, minScore, maxConnections);
      FilterConnectionsByScore(r, minScore, maxConnections) == r
  {
    var r := FilterConnectionsByScore(connections, minScore, maxConnections);
    FilterConnectionsSpec(connections, minScore, maxConnections);
    assert forall x :: x in r ==> AtLeast(minScore)(x);
    KeepAll(r, AtLeast(minScore));
    assert SortedBy(r, NegScore);
    SortBySorted(r, NegScore);
    FilterPrefix(r, minScore, maxConnections);
  }

  // ---------------------------------------------------------------------
  // Merging the results of several calls
  // ---------------------------------------------------------------------

  function PageNumber(p: JokboPage): int { p.page }

  /** `page.get("lesson_page")`: absent pages share one key. */
  function RawLessonPage(s: LessonSlide): Option<int> { s.lessonPage }

  /** `merge_api_results`: no result gives `{}`, one result is returned as
      it is; several are merged keeping the first page per page number (or
      the first slide per lesson page), sorted by page. */
  method MergeApiResults(results: seq<AnalysisResult>, mode: string) returns (merged: AnalysisResult)
    ensures results == [] ==> merged == EmptyResult
    ensures |results| == 1 ==> merged == results[0]
    ensures |results| > 1 && mode == "jokbo-centric" ==>
      merged == JokboResult(SortBy(FirstPerKey(AllPages(results), PageNumber, Always), PageKey))
    ensures |results| > 1 && mode != "jokbo-centric" ==>
      merged == LessonResult(SortBy(FirstPerKey(AllSlides(results), RawLessonPage, Always), SlidePage))
  {
    if results == [] {
      return EmptyResult;
    }
    if |results| == 1 {
      return results[0];
    }
    if mode == "jokbo-centric" {
      var allPages := CollectPages(results);
      var uniquePages := KeepFirstPerKey(allPages, PageNumber, Always);
      return JokboResult(SortBy(uniquePages, PageKey));
    } else {
      var allSlides := CollectSlides(results);
      var uniqueSlides := KeepFirstPerKey(allSlides, RawLessonPage, Always);
      return LessonResult(SortBy(uniqueSlides, SlidePage));
    }
  }

  /** Merging the exam pages of several calls keeps, in page order, one
      page per page number, the first listed, and loses no page number. */
  lemma MergeApiJokboSpec(results: seq<AnalysisResult>)
    ensures var all := AllPages(results);
      var unique := FirstPerKey(all, PageNumber, Always);
      var out := SortBy(unique, PageKey);
      && SortedBy(out, PageKey)
      && multiset(out) == multiset(unique)
      && DistinctKeys(unique, PageNumber)
      && (forall i :: 0 <= i < |unique| ==> FirstOfKey(all, PageNumber, Always, unique[i]))
      && KeySet(unique, PageNumber) == KeySet(all, PageNumber)
  {
    var all := AllPages(results);
    FirstPerKeySpec(all, PageNumber, Always);
    SortBySpec(FirstPerKey(all, PageNumber, Always), PageKey);
    assert (set i | 0 <= i < |all| && Always(all[i]) :: PageNumber(all[i])) == KeySet(all, PageNumber);
  }
}
