/** Page-number checks used when the service reports pages of a document
    or of a chunk of it (`PDFValidator`). */
module Validators {
  import opened Common

  /** `validate_page_number`: a page exists exactly when it lies in
      `1..total`. */
  predicate ValidatePageNumber(page: int, total: int)
  {
    !(page < 1 || page > total)
  }

  /** `validate_and_adjust_page_number` for a page reported while analysing
      the chunk `start..end` of a document of `total` pages: a page within
      the chunk's length is read as relative to the chunk, one within the
      chunk's absolute range is kept, and any other is refused. */
  function ValidateAndAdjustPageNumber(page: int, start: int, end: int, total: int): (r: Option<int>)
    ensures 1 <= page <= end - start + 1 ==> r == Some(page + start - 1)
    ensures !(1 <= page <= end - start + 1) && start <= page <= end ==> r == Some(page)
    ensures r.None? <==> !(1 <= page <= end - start + 1) && !(start <= page <= end)
  {
    var chunkPageCount := end - start + 1;
    if 1 <= page <= chunkPageCount then Some(page + (start - 1))
    else if start <= page <= end then Some(page)
    else if 1 <= page <= total then None
    else None
  }

  /** For a chunk of the document, an accepted page always lies within the
      chunk, hence within the document; a page of the chunk given by its
      position in the chunk comes back as its absolute number. */
  lemma AdjustedPageInChunk(page: int, start: int, end: int, total: int)
    requires 1 <= start <= end <= total
    ensures var r := ValidateAndAdjustPageNumber(page, start, end, total);
      && (r.Some? ==> start <= r.value <= end && ValidatePageNumber(r.value, total))
      && (1 <= page <= end - start + 1 ==> r == Some(start + page - 1))
  {
  }

  /** `validate_chunk_boundaries`: the start clamped into `1..total`, then
      the end clamped into `start..total`. */
  function ValidateChunkBoundaries(start: int, end: int, total: int): (r: (int, int))
  {
    var s := Max(1, Min(start, total));
    (s, Max(s, Min(end, total)))
  }

  /** For a document with pages the bounds are a non-empty range of its
      pages; bounds that already are such a range are kept, so clamping
      twice is clamping once. */
  lemma ChunkBoundariesSpec(start: int, end: int, total: int)
    ensures var (s, e) := ValidateChunkBoundaries(start, end, total);
      && (total >= 1 ==> 1 <= s <= e <= total)
      && (1 <= start <= end <= total ==> (s, e) == (start, end))
      && (total >= 1 ==> ValidateChunkBoundaries(s, e, total) == (s, e))
  {
  }

  /** The fields of a question that `filter_valid_questions` reads or sets:
      `jokbo_page` (0 when absent) and `jokbo_filename`. */
  datatype PageQuestion = PageQuestion(number: string, jokboPage: Option<int>, jokboFilename: Option<string>)

  function PageOf(q: PageQuestion): int
  {
    if q.jokboPage.Some? then q.jokboPage.value else 0
  }

  /** Every question with its file name set, whether or not it is kept. */
  function WithFilename(questions: seq<PageQuestion>, filename: string): (r: seq<PageQuestion>)
    ensures |r| == |questions|
    ensures forall i :: 0 <= i < |r| ==> r[i] == questions[i].(jokboFilename := Some(filename))
  {
    seq(|questions|, i requires 0 <= i < |questions| => questions[i].(jokboFilename := Some(filename)))
  }

  /** The questions on a page of the document, in order. */
  function OnValidPages(questions: seq<PageQuestion>, total: int): seq<PageQuestion>
  {
    if questions == [] then []
    else
      var front := OnValidPages(questions[..|questions| - 1], total);
      var q := questions[|questions| - 1];
      if ValidatePageNumber(PageOf(q), total) then front + [q] else front
  }

  /** Exactly the questions on pages `1..total` are kept, in their order:
      every kept question is one of the input on such a page, and every
      input question on such a page is kept. */
  lemma {:induction false} OnValidPagesSpec(questions: seq<PageQuestion>, total: int)
    ensures var r := OnValidPages(questions, total);
      && |r| <= |questions|
      && (forall i :: 0 <= i < |r| ==> r[i] in questions && 1 <= PageOf(r[i]) <= total)
      && (forall q :: q in questions && 1 <= PageOf(q) <= total ==> q in r)
      && (forall q :: q in r ==> q in questions)
  {
    if questions != [] {
      var n := |questions| - 1;
      OnValidPagesSpec(questions[..n], total);
      assert questions == questions[..n] + [questions[n]];
    }
  }

  /** `filter_valid_questions`: `valid` is the questions on pages of the
      document, each carrying the given file name; `updated` is the
      caller's list after the call, whose every question has been given
      that name. */
  method FilterValidQuestions(questions: seq<PageQuestion>, total: int, filename: string)
    returns (valid: seq<PageQuestion>, updated: seq<PageQuestion>)
    ensures updated == WithFilename(questions, filename)
    ensures valid == OnValidPages(updated, total)
  {
    valid := [];
    updated := questions;
    var i := 0;
    while i < |questions|
      invariant 0 <= i <= |questions|
      invariant |updated| == |questions|
      invariant updated[..i] == WithFilename(questions, filename)[..i] && updated[i..] == questions[i..]
      invariant valid == OnValidPages(updated[..i], total)
    {
      var q := updated[i].(jokboFilename := Some(filename));
      updated := updated[i := q];
      assert updated[..i + 1] == updated[..i] + [q];
      var page := PageOf(q);
      if !(page < 1 || page > total) {
        valid := valid + [q];
      }
      i := i + 1;
    }
    assert updated == updated[..i];
  }

  /** Every kept question carries the file name and lies on a page of the
      document, in the order given, and no question on such a page is
      dropped. */
  lemma FilterValidQuestionsSpec(questions: seq<PageQuestion>, total: int, filename: string, q: PageQuestion)
    ensures var valid := OnValidPages(WithFilename(questions, filename), total);
      && (forall i :: 0 <= i < |valid| ==> valid[i].jokboFilename == Some(filename) && 1 <= PageOf(valid[i]) <= total)
      && (q in questions && 1 <= PageOf(q) <= total ==> q.(jokboFilename := Some(filename)) in valid)
  {
    var u := WithFilename(questions, filename);
    OnValidPagesSpec(u, total);
    forall i | 0 <= i < |OnValidPages(u, total)|
      ensures OnValidPages(u, total)[i].jokboFilename == Some(filename)
    {
      var x := OnValidPages(u, total)[i];
      var j :| 0 <= j < |u| && u[j] == x;
    }
    if q in questions && 1 <= PageOf(q) <= total {
      var j :| 0 <= j < |questions| && questions[j] == q;
      assert u[j] == q.(jokboFilename := Some(filename));
    }
  }
}
