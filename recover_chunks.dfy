/** The recovery script `recover_from_chunks.py`: the chunk answers saved
    by an interrupted exam-centric run are reloaded, merged question by
    question, cut down to the best slides, and regrouped by exam page with
    a summary of what survived. */
module RecoverChunks {
  import opened Common
  import opened Records
  import ResultMerger
  import JokboCentric

  type Entry = JokboCentric.Entry

  /** `MAX_CONNECTIONS_PER_QUESTION`. */
  const MaxConnectionsPerQuestion := 2

  /** `RELEVANCE_SCORE_THRESHOLD`. */
  const RelevanceScoreThreshold := 5

  // ---------------------------------------------------------------------
  // Loading (`load_valid_chunk_files`)
  // ---------------------------------------------------------------------

  /** A saved chunk file: one that cannot be read or decoded, or the
      decoded dict, which may or may not hold a `result`. */
  datatype ChunkFile = Unreadable | Loaded(result: Option<AnalysisResult>)

  /** A chunk is kept when it has a result, the result has no `error`,
      and the result has `jokbo_pages`. */
  predicate IsValidChunk(c: ChunkFile)
  {
    c.Loaded? && c.result.Some? && !HasError(c.result.value) && c.result.value.jokboPages.Some?
  }

  /** The results of the kept chunks, in file order. */
  function ValidResults(files: seq<ChunkFile>): seq<AnalysisResult>
  {
    if files == [] then []
    else
      var c := files[|files| - 1];
      ValidResults(files[..|files| - 1]) + (if IsValidChunk(c) then [c.result.value] else [])
  }

  /** The loop of `load_valid_chunk_files` over the sorted chunk files. */
  method LoadValidChunkFiles(files: seq<ChunkFile>) returns (valid: seq<AnalysisResult>)
    ensures valid == ValidResults(files)
  {
    valid := [];
    var i := 0;
    while i < |files|
      invariant 0 <= i <= |files|
      invariant valid == ValidResults(files[..i])
    {
      assert files[..i + 1][..i] == files[..i];
      var c := files[i];
      if c.Loaded? && c.result.Some? {
        var r := c.result.value;
        if r.error.Some? {
          // a chunk whose result holds an error is skipped
        } else if r.jokboPages.Some? {
          valid := valid + [r];
        }
      }
      i := i + 1;
    }
    assert files[..i] == files;
  }

  /** A result is loaded exactly when some file decodes to it, without an
      error and with exam pages; nothing else gets through. */
  lemma {:induction false} ValidResultsSpec(files: seq<ChunkFile>, r: AnalysisResult)
    ensures r in ValidResults(files) <==> Loaded(Some(r)) in files && !HasError(r) && r.jokboPages.Some?
  {
    if files != [] {
      var n := |files| - 1;
      ValidResultsSpec(files[..n], r);
      assert files == files[..n] + [files[n]];
      assert Loaded(Some(r)) in files <==> Loaded(Some(r)) in files[..n] || files[n] == Loaded(Some(r));
    }
  }

  // ---------------------------------------------------------------------
  // Merging (`merge_chunk_results`)
  // ---------------------------------------------------------------------

  /** The questions of one chunk result with their pages. Unlike the
      analyser's own merge, no `error` is looked at here. */
  function ChunkEntries(r: AnalysisResult): seq<Entry>
  {
    if r.jokboPages.None? then [] else FlatMap(r.jokboPages.value, JokboCentric.PageEntries)
  }

  function AllEntries(chunks: seq<AnalysisResult>): seq<Entry>
  {
    FlatMap(chunks, ChunkEntries)
  }

  /** On loaded chunks, the entries are those the analyser's own merge
      collects. */
  lemma {:induction false} AllEntriesOfValid(chunks: seq<AnalysisResult>)
    requires forall i :: 0 <= i < |chunks| ==> !HasError(chunks[i])
    ensures AllEntries(chunks) == JokboCentric.Entries(chunks)
  {
    if chunks != [] {
      var n := |chunks| - 1;
      AllEntriesOfValid(chunks[..n]);
    }
  }

  /** The question number, the key of `all_connections`. */
  function NumberKey(e: Entry): string { e.1.number }

  /** One connection per question number, in order of first appearance:
      the first question with that number and its page, carrying every
      slide of every question with that number, in order. */
  function Connections(es: seq<Entry>): (r: seq<Entry>)
    ensures |r| == |FirstPerKey(es, NumberKey, Always)|
  {
    var firsts := FirstPerKey(es, NumberKey, Always);
    seq(|firsts|, i requires 0 <= i < |firsts| =>
      (firsts[i].0, firsts[i].1.(slides := Gather(es, NumberKey, JokboCentric.EntrySlides, firsts[i].1.number))))
  }

  /** `merge_chunk_results(chunks)`. */
  method MergeChunkResults(chunks: seq<AnalysisResult>) returns (conns: seq<Entry>)
    ensures conns == Connections(AllEntries(chunks))
  {
    var es := CollectAll(chunks);
    var firsts, groups := GroupBy(es, NumberKey, JokboCentric.EntrySlides);
    GroupFirsts(es, NumberKey);
    forall j | 0 <= j < |firsts| ensures firsts[j].1.number in groups {
      assert NumberKey(firsts[j]) in KeySet(firsts, NumberKey);
    }
    conns := seq(|firsts|, j requires 0 <= j < |firsts| =>
      (firsts[j].0, firsts[j].1.(slides := groups[firsts[j].1.number])));
  }

  /** The loop over the chunks and their pages. */
  method CollectAll(chunks: seq<AnalysisResult>) returns (es: seq<Entry>)
    ensures es == AllEntries(chunks)
  {
    es := [];
    var i := 0;
    while i < |chunks|
      invariant 0 <= i <= |chunks|
      invariant es == FlatMap(chunks[..i], ChunkEntries)
    {
      assert chunks[..i + 1][..i] == chunks[..i];
      var r := chunks[i];
      if r.jokboPages.Some? {
        var more := JokboCentric.CollectPageEntries(r.jokboPages.value);
        es := es + more;
      }
      i := i + 1;
    }
    assert chunks[..i] == chunks;
  }

  /** Each question number appears once among the connections, every
      number of the input is there, and each connection carries exactly the
      slides of the questions with its number. */
  lemma ConnectionsSpec(es: seq<Entry>)
    ensures var cs := Connections(es);
      && DistinctKeys(cs, NumberKey)
      && KeySet(cs, NumberKey) == KeySet(es, NumberKey)
      && forall i, s :: 0 <= i < |cs| ==>
           (s in cs[i].1.slides <==> exists j :: 0 <= j < |es| && es[j].1.number == cs[i].1.number && s in es[j].1.slides)
  {
    var firsts := FirstPerKey(es, NumberKey, Always);
    var cs := Connections(es);
    GroupFirsts(es, NumberKey);
    assert forall i :: 0 <= i < |cs| ==> NumberKey(cs[i]) == NumberKey(firsts[i]);
    assert KeySet(cs, NumberKey) == KeySet(firsts, NumberKey);
    forall i, s | 0 <= i < |cs|
      ensures s in cs[i].1.slides <==> exists j :: 0 <= j < |es| && es[j].1.number == cs[i].1.number && s in es[j].1.slides
    {
      GatherSpec(es, NumberKey, JokboCentric.EntrySlides, cs[i].1.number, s);
    }
  }

  // ---------------------------------------------------------------------
  // Filtering (`apply_filtering_and_sorting`)
  // ---------------------------------------------------------------------

  /** Sort by score, best first, keep the first two, then keep those
      scoring at least the threshold. */
  function RecoverFilter(slides: seq<Slide>): seq<Slide>
  {
    Keep(Take(SortBy(slides, ResultMerger.NegScore), MaxConnectionsPerQuestion),
         ResultMerger.AtLeast(RelevanceScoreThreshold))
  }

  /** Cutting before filtering by score gives what the merger's
      `filter_connections_by_score` gives filtering first: a slide below
      the threshold sorts after every slide above it. */
  lemma RecoverFilterAgrees(slides: seq<Slide>)
    ensures RecoverFilter(slides) ==
      ResultMerger.FilterConnectionsByScore(slides, RelevanceScoreThreshold, MaxConnectionsPerQuestion)
  {
    var p := ResultMerger.AtLeast(RelevanceScoreThreshold);
    var key := ResultMerger.NegScore;
    assert ClosedBelow(key, p);
    SortBySpec(slides, key);
    KeepTake(SortBy(slides, key), MaxConnectionsPerQuestion, key, p);
    KeepSortBy(slides, key, p);
  }

  /** The kept slides all score at least the threshold, best first, come
      from the input, and are as many as qualify, up to two. */
  lemma RecoverFilterSpec(slides: seq<Slide>)
    ensures var r := RecoverFilter(slides);
      && (forall i :: 0 <= i < |r| ==> r[i].relevanceScore >= RelevanceScoreThreshold)
      && (forall i, j :: 0 <= i < j < |r| ==> r[i].relevanceScore >= r[j].relevanceScore)
      && multiset(r) <= multiset(slides)
      && |r| == Min(MaxConnectionsPerQuestion, |ResultMerger.Qualifying(slides, RelevanceScoreThreshold)|)
  {
    RecoverFilterAgrees(slides);
    ResultMerger.FilterConnectionsSpec(slides, RelevanceScoreThreshold, MaxConnectionsPerQuestion);
  }

  /** A connection that keeps some slide, with only those slides. */
  function KeepOne(c: Entry): seq<Entry>
  {
    var f := RecoverFilter(c.1.slides);
    if f == [] then [] else [(c.0, c.1.(slides := f))]
  }

  /** The questions kept, in the order of the connections. */
  function Kept(conns: seq<Entry>): seq<Entry>
  {
    FlatMap(conns, KeepOne)
  }

  function EntrySlideCount(e: Entry): int { |e.1.slides| }

  datatype Summary = Summary(totalJokboPages: int, totalQuestions: int, totalRelatedSlides: int)

  datatype Recovered = Recovered(jokboPages: seq<JokboPage>, summary: Summary)

  /** What `apply_filtering_and_sorting(all_connections)` returns. */
  function Recover(conns: seq<Entry>): Recovered
  {
    var kept := Kept(conns);
    var pages := SortBy(JokboCentric.PagesOf(kept), ResultMerger.PageKey);
    Recovered(pages, Summary(|pages|, |kept|, SumOf(kept, EntrySlideCount)))
  }

  /** The loop over the connections: filter each one's slides, keep it when
      some slide survives, count as it goes. */
  method FilterConnections(conns: seq<Entry>) returns (kept: seq<Entry>, questions: int, slides: int)
    ensures kept == Kept(conns)
    ensures questions == |kept| && slides == SumOf(kept, EntrySlideCount)
  {
    kept := [];
    questions, slides := 0, 0;
    var i := 0;
    while i < |conns|
      invariant 0 <= i <= |conns|
      invariant kept == FlatMap(conns[..i], KeepOne)
      invariant questions == |kept| && slides == SumOf(kept, EntrySlideCount)
    {
      assert conns[..i + 1][..i] == conns[..i];
      var c := conns[i];
      var filtered := RecoverFilter(c.1.slides);
      if filtered != [] {
        var q := (c.0, c.1.(slides := filtered));
        SumOfAppend(kept, [q], EntrySlideCount);
        kept := kept + [q];
        questions := questions + 1;
        slides := slides + |filtered|;
      }
      i := i + 1;
    }
    assert conns[..i] == conns;
  }

  /** `apply_filtering_and_sorting(all_connections)`. */
  method ApplyFilteringAndSorting(conns: seq<Entry>) returns (r: Recovered)
    ensures r == Recover(conns)
  {
    var kept, questions, slides := FilterConnections(conns);
    var finalPages := JokboCentric.GroupPages(kept);
    var sortedPages := SortBy(finalPages, ResultMerger.PageKey);
    r := Recovered(sortedPages, Summary(|sortedPages|, questions, slides));
  }

  /** A question is kept exactly when its connection keeps some slide, and
      then it carries only the filtered slides. */
  lemma KeptSpec(conns: seq<Entry>, e: Entry)
    ensures e in Kept(conns) <==>
      exists c :: c in conns && RecoverFilter(c.1.slides) != [] && e == (c.0, c.1.(slides := RecoverFilter(c.1.slides)))
  {
    FlatMapSpec(conns, KeepOne, e);
    if exists c :: c in conns && RecoverFilter(c.1.slides) != [] && e == (c.0, c.1.(slides := RecoverFilter(c.1.slides))) {
      var c :| c in conns && RecoverFilter(c.1.slides) != [] && e == (c.0, c.1.(slides := RecoverFilter(c.1.slides)));
      var i :| 0 <= i < |conns| && conns[i] == c;
      assert e in KeepOne(conns[i]);
    }
  }

  /** The recovered pages are in page order, one per page number, and
      each holds exactly the kept questions of its page. */
  lemma RecoverPagesSpec(conns: seq<Entry>)
    ensures var kept := Kept(conns);
      var ps := JokboCentric.PagesOf(kept);
      var out := Recover(conns).jokboPages;
      && SortedBy(out, ResultMerger.PageKey)
      && multiset(out) == multiset(ps)
      && DistinctKeys(ps, ResultMerger.PageKey)
      && (forall p :: p in KeySet(ps, ResultMerger.PageKey) <==> p in KeySet(kept, JokboCentric.EntryPage))
      && forall i, q :: 0 <= i < |ps| ==> (q in ps[i].questions <==> (ps[i].page, q) in kept)
  {
    var kept := Kept(conns);
    SortBySpec(JokboCentric.PagesOf(kept), ResultMerger.PageKey);
    JokboCentric.PagesOfSpec(kept);
  }

  // ---------------------------------------------------------------------
  // The summary agrees with the pages
  // ---------------------------------------------------------------------

  function PageQuestions(p: JokboPage): int { |p.questions| }

  function QuestionSlides(q: Question): int { |q.slides| }

  function PageSlides(p: JokboPage): int { SlideCount(p.questions) }

  lemma {:induction false} QuestionCountSum(ps: seq<JokboPage>)
    ensures QuestionCount(ps) == SumOf(ps, PageQuestions)
  {
    if ps != [] {
      QuestionCountSum(ps[1..]);
    }
  }

  lemma {:induction false} SlideCountSum(qs: seq<Question>)
    ensures SlideCount(qs) == SumOf(qs, QuestionSlides)
  {
    if qs != [] {
      SlideCountSum(qs[1..]);
    }
  }

  /** Taking the question out of each entry keeps the count and the
      slides. */
  lemma {:induction false} EntryQuestionsTotals(es: seq<Entry>)
    ensures |FlatMap(es, JokboCentric.EntryQuestion)| == |es|
    ensures SumOf(FlatMap(es, JokboCentric.EntryQuestion), QuestionSlides) == SumOf(es, EntrySlideCount)
  {
    if es != [] {
      var n := |es| - 1;
      EntryQuestionsTotals(es[..n]);
      SumOfAppend(FlatMap(es[..n], JokboCentric.EntryQuestion), [es[n].1], QuestionSlides);
      assert es == es[..n] + [es[n]];
      SumOfAppend(es[..n], [es[n]], EntrySlideCount);
    }
  }

  /** Each page built from a list of questions gathers that page's
      questions, and its counts are sums over them. */
  lemma PagesOfGathered(kept: seq<Entry>)
    ensures var ps := JokboCentric.PagesOf(kept);
      && DistinctKeys(ps, ResultMerger.PageKey)
      && KeySet(kept, JokboCentric.EntryPage) <= KeySet(ps, ResultMerger.PageKey)
      && forall i :: 0 <= i < |ps| ==>
           && ps[i].questions == Gather(kept, JokboCentric.EntryPage, JokboCentric.EntryQuestion, ResultMerger.PageKey(ps[i]))
           && PageQuestions(ps[i]) == SumOf(ps[i].questions, One)
           && PageSlides(ps[i]) == SumOf(ps[i].questions, QuestionSlides)
  {
    var ps := JokboCentric.PagesOf(kept);
    JokboCentric.PagesOfSpec(kept);
    forall i | 0 <= i < |ps|
      ensures PageQuestions(ps[i]) == SumOf(ps[i].questions, One)
      ensures PageSlides(ps[i]) == SumOf(ps[i].questions, QuestionSlides)
    {
      SumOfOne(ps[i].questions);
      SlideCountSum(ps[i].questions);
    }
  }

  /** The pages built from a list of questions hold as many questions as
      the list. */
  lemma PagesOfQuestionTotal(kept: seq<Entry>)
    ensures SumOf(JokboCentric.PagesOf(kept), PageQuestions) == |kept|
  {
    var ps := JokboCentric.PagesOf(kept);
    PagesOfGathered(kept);
    SumOfGathered(ps, ResultMerger.PageKey, kept, JokboCentric.EntryPage, JokboCentric.EntryQuestion, One, PageQuestions);
    GatherSumAll(ps, ResultMerger.PageKey, kept, JokboCentric.EntryPage, JokboCentric.EntryQuestion, One);
    SumOfOne(FlatMap(kept, JokboCentric.EntryQuestion));
    EntryQuestionsTotals(kept);
  }

  /** The pages built from a list of questions hold as many slides as the
      list. */
  lemma PagesOfSlideTotal(kept: seq<Entry>)
    ensures SumOf(JokboCentric.PagesOf(kept), PageSlides) == SumOf(kept, EntrySlideCount)
  {
    var ps := JokboCentric.PagesOf(kept);
    PagesOfGathered(kept);
    SumOfGathered(ps, ResultMerger.PageKey, kept, JokboCentric.EntryPage, JokboCentric.EntryQuestion, QuestionSlides, PageSlides);
    GatherSumAll(ps, ResultMerger.PageKey, kept, JokboCentric.EntryPage, JokboCentric.EntryQuestion, QuestionSlides);
    EntryQuestionsTotals(kept);
  }

  /** The summary counts what the recovered pages hold: as many pages, as
      many questions and as many slides. */
  lemma SummaryAgrees(conns: seq<Entry>)
    ensures var r := Recover(conns);
      && r.summary.totalJokboPages == |r.jokboPages|
      && r.summary.totalQuestions == QuestionCount(r.jokboPages)
      && r.summary.totalRelatedSlides == SumOf(r.jokboPages, PageSlides)
  {
    var kept := Kept(conns);
    var ps := JokboCentric.PagesOf(kept);
    PagesOfQuestionTotal(kept);
    PagesOfSlideTotal(kept);
    QuestionCountSum(SortBy(ps, ResultMerger.PageKey));
    SumOfSortBy(ps, ResultMerger.PageKey, PageQuestions);
    SumOfSortBy(ps, ResultMerger.PageKey, PageSlides);
  }
}
