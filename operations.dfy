/** Page arithmetic on PDF documents: cutting a document into chunks of at
    most `maxPages` pages, checking a page range before extraction, reading
    an integer out of a loosely typed value, indexing the question numbers
    found on each page, and grouping questions into blocks of `groupSize`
    with the page span each block covers. The document itself is reduced to
    its page count and, per page, the candidate question numbers that the
    text or OCR pass produced. */
module PdfOperations {
  import opened Common

  // ---------------------------------------------------------------------
  // Chunks
  // ---------------------------------------------------------------------

  /** `(pdf_path, start_page, end_page)`: 1-based, both ends included. */
  datatype Chunk = Chunk(path: string, start: int, end: int)

  /** The page ranges of a document of `total` pages cut every `m` pages:
      chunk `i` starts at page `i * m + 1` and ends `m` pages later or at the
      last page, and there are just enough chunks to reach the last page. */
  ghost predicate Tiles(chunks: seq<Chunk>, total: int, m: int)
  {
    && |chunks| >= 1
    && (forall i :: 0 <= i < |chunks| ==>
          chunks[i].start == i * m + 1 && chunks[i].end == Min(i * m + m, total))
    && (|chunks| - 1) * m < total <= |chunks| * m
  }

  /** Consecutive ranges covering pages `1..total` with no gap and no overlap. */
  ghost predicate Contiguous(chunks: seq<Chunk>, total: int)
  {
    && |chunks| >= 1
    && chunks[0].start == 1
    && chunks[|chunks| - 1].end == total
    && (forall i :: 0 <= i < |chunks| ==> chunks[i].start <= chunks[i].end)
    && (forall i :: 0 <= i < |chunks| - 1 ==> chunks[i + 1].start == chunks[i].end + 1)
  }

  lemma MulMono(a: int, b: int, m: int)
    requires a <= b && m >= 0
    ensures a * m <= b * m
  {
    assert b * m - a * m == (b - a) * m;
  }

  lemma DivExact(x: int, m: int, n: int)
    requires m > 0 && n * m <= x < n * m + m
    ensures x / m == n
  {
    var q, r := x / m, x % m;
    assert x == q * m + r && 0 <= r < m;
    if q < n {
      MulMono(q + 1, n, m);
      assert false;
    } else if q > n {
      MulMono(n + 1, q, m);
      assert false;
    }
  }

  /** Cutting every `m` pages gives contiguous chunks of 1 to `m` pages each,
      `ceil(total / m)` of them. */
  lemma TilesSpec(chunks: seq<Chunk>, total: int, m: int)
    requires m > 0 && Tiles(chunks, total, m)
    ensures Contiguous(chunks, total)
    ensures forall i :: 0 <= i < |chunks| ==> 1 <= chunks[i].end - chunks[i].start + 1 <= m
    ensures |chunks| == (total + m - 1) / m
  {
    var n := |chunks|;
    forall i | 0 <= i < n
      ensures chunks[i].start <= chunks[i].end && chunks[i].end - chunks[i].start + 1 <= m
    {
      MulMono(i, n - 1, m);
    }
    forall i | 0 <= i < n - 1
      ensures chunks[i + 1].start == chunks[i].end + 1
    {
      MulMono(i + 1, n - 1, m);
    }
    DivExact(total + m - 1, m, n);
  }

  /** In contiguous chunks every page from 1 to `total` lies in exactly one chunk. */
  lemma ContiguousCover(chunks: seq<Chunk>, total: int, p: int)
    requires Contiguous(chunks, total) && 1 <= p <= total
    ensures exists i :: 0 <= i < |chunks| && chunks[i].start <= p <= chunks[i].end
    ensures forall i, j :: (0 <= i < |chunks| && 0 <= j < |chunks| &&
      chunks[i].start <= p <= chunks[i].end && chunks[j].start <= p <= chunks[j].end) ==> i == j
  {
    ChunksIncrease(chunks, total);
    var k := CoveringChunk(chunks, total, p, 0);
  }

  /** Every chunk ends before any later chunk starts. */
  lemma ChunksIncrease(chunks: seq<Chunk>, total: int)
    requires Contiguous(chunks, total)
    ensures forall i, j :: 0 <= i < j < |chunks| ==> chunks[i].end < chunks[j].start
  {
    forall i, j | 0 <= i < j < |chunks|
      ensures chunks[i].end < chunks[j].start
    {
      var k := i + 1;
      while k < j
        invariant i + 1 <= k <= j
        invariant chunks[i].end < chunks[k].start
      {
        k := k + 1;
      }
    }
  }

  /** The chunk holding page `p`, searching from chunk `from` on. */
  lemma CoveringChunk(chunks: seq<Chunk>, total: int, p: int, from: nat) returns (k: nat)
    requires Contiguous(chunks, total) && from < |chunks| && chunks[from].start <= p <= total
    ensures from <= k < |chunks| && chunks[k].start <= p <= chunks[k].end
    decreases |chunks| - from
  {
    if p <= chunks[from].end {
      k := from;
    } else {
      k := CoveringChunk(chunks, total, p, from + 1);
    }
  }

  /** `split_pdf_for_chunks` for a document of `total` pages. A document
      that fits is one chunk `(1, total)`; otherwise the loop steps through
      the pages `maxPages` at a time. A zero step is an error from `range`,
      and a negative one yields no chunks. */
  method SplitPdfForChunks(path: string, total: nat, maxPages: int) returns (r: Result<seq<Chunk>>)
    ensures total <= maxPages ==> r == Ok([Chunk(path, 1, total)])
    ensures total > maxPages && maxPages == 0 ==> r.Err?
    ensures maxPages < 0 ==> r == Ok([])
    ensures total > maxPages > 0 ==> r.Ok? && Tiles(r.value, total, maxPages)
    ensures r.Ok? ==> forall i :: 0 <= i < |r.value| ==> r.value[i].path == path
  {
    if total <= maxPages {
      return Ok([Chunk(path, 1, total)]);
    }
    if maxPages == 0 {
      return Err("range() arg 3 must not be zero");
    }
    if maxPages < 0 {
      return Ok([]);
    }
    var chunks: seq<Chunk> := [];
    var start := 0;
    while start < total
      invariant start == |chunks| * maxPages
      invariant |chunks| > 0 ==> (|chunks| - 1) * maxPages < total
      invariant forall i :: 0 <= i < |chunks| ==>
        chunks[i] == Chunk(path, i * maxPages + 1, Min(i * maxPages + maxPages, total))
      decreases total - start
    {
      chunks := chunks + [Chunk(path, start + 1, Min(start + maxPages, total))];
      start := start + maxPages;
    }
    return Ok(chunks);
  }

  // ---------------------------------------------------------------------
  // Page extraction
  // ---------------------------------------------------------------------

  const InvalidStartPage := "Invalid start page"
  const InvalidEndPage := "Invalid end page"

  /** The range check of `extract_pages` and the 0-based indices of the pages
      it copies into the new document, in order. */
  method ExtractPages(start: int, end: int, total: nat) returns (r: Result<seq<int>>)
    ensures start < 1 || start > total ==> r == Err(InvalidStartPage)
    ensures 1 <= start <= total && (end < start || end > total) ==> r == Err(InvalidEndPage)
    ensures r.Ok? <==> 1 <= start <= end <= total
    ensures r.Ok? ==> (|r.value| == end - start + 1 &&
      forall i :: 0 <= i < |r.value| ==> r.value[i] == start - 1 + i)
  {
    if start < 1 || start > total {
      return Err(InvalidStartPage);
    }
    if end < start || end > total {
      return Err(InvalidEndPage);
    }
    var pages: seq<int> := [];
    var pageNum := start - 1;
    while pageNum < end
      invariant start - 1 <= pageNum <= end
      invariant |pages| == pageNum - (start - 1)
      invariant forall i :: 0 <= i < |pages| ==> pages[i] == start - 1 + i
    {
      pages := pages + [pageNum];
      pageNum := pageNum + 1;
    }
    return Ok(pages);
  }

  // ---------------------------------------------------------------------
  // Loose integers
  // ---------------------------------------------------------------------

  /** The values `_to_int` is applied to: a boolean, an integer, a string
      or `None`. */
  datatype Loose = BoolVal(b: bool) | IntVal(i: int) | StrVal(s: string) | NoneVal

  /** `re.search(r"(\d+)", s)`: the first maximal run of digits, if any. */
  function SearchDigits(s: string): Option<string>
  {
    if s == [] then None
    else if IsDigit(s[0]) then Some(LeadingDigits(s))
    else SearchDigits(s[1..])
  }

  /** `str(val)` for the values that reach the digit search. */
  function Str(v: Loose): string
  {
    match v
    case StrVal(s) => s
    case NoneVal => "None"
    case _ => ""
  }

  /** `_to_int`: booleans give the default, integers themselves, and
      anything else the value of its first run of digits, or the default
      when it has none. */
  function ToInt(v: Loose, default: int): int
  {
    match v
    case BoolVal(_) => default
    case IntVal(i) => i
    case _ =>
      match SearchDigits(Str(v))
      case Some(ds) => DigitsValue(ds)
      case None => default
  }

  /** The digit search finds the run that follows a digit-free prefix and
      stops at the first non-digit after it. */
  lemma {:induction false} SearchDigitsSplit(pre: string, ds: string, post: string)
    requires NoDigit(pre) && |ds| >= 1 && AllDigits(ds) && (post == [] || !IsDigit(post[0]))
    ensures SearchDigits(pre + ds + post) == Some(ds)
  {
    if pre == [] {
      assert pre + ds + post == ds + post;
      LeadingSplit(ds, post);
    } else {
      SearchDigitsSplit(pre[1..], ds, post);
      assert (pre + ds + post)[1..] == pre[1..] + ds + post;
    }
  }

  /** A string with no digit at all gives nothing to the search. */
  lemma {:induction false} SearchNoDigit(s: string)
    ensures SearchDigits(s).None? <==> NoDigit(s)
  {
    if s != [] {
      SearchNoDigit(s[1..]);
      assert forall k :: 1 <= k < |s| ==> s[k] == s[1..][k - 1];
    }
  }

  /** What `_to_int` promises: booleans and digit-free text give the default,
      integers pass through, and text holding a number after a digit-free
      prefix gives that number back. */
  lemma ToIntSpec(pre: string, n: nat, post: string, default: int)
    requires NoDigit(pre) && (post == [] || !IsDigit(post[0]))
    ensures ToInt(StrVal(pre + NatToString(n) + post), default) == n
    ensures forall b :: ToInt(BoolVal(b), default) == default
    ensures forall i :: ToInt(IntVal(i), default) == i
    ensures ToInt(StrVal(pre), default) == default
    ensures ToInt(NoneVal, default) == default
  {
    SearchDigitsSplit(pre, NatToString(n), post);
    DigitsRoundTrip(n);
    SearchNoDigit(pre);
    SearchNoDigit("None");
  }

  // ---------------------------------------------------------------------
  // Question index
  // ---------------------------------------------------------------------

  /** A detected question number is kept only when `0 < n < 1000`. */
  predicate InQuestionRange(n: int) { 0 < n < 1000 }

  /** No value occurs twice. */
  ghost predicate Distinct(s: seq<int>)
  {
    forall x :: multiset(s)[x] <= 1
  }

  /** The first occurrence of every value, in order (building a set). */
  function Dedup(s: seq<int>): (d: seq<int>)
    ensures Distinct(d)
    ensures forall x :: x in d <==> x in s
  {
    if s == [] then []
    else
      var d := Dedup(s[..|s| - 1]);
      var x := s[|s| - 1];
      assert s == s[..|s| - 1] + [x];
      if x in d then d else d + [x]
  }

  /** Equal values at two places are counted twice. */
  lemma TwoPlaces<T>(s: seq<T>, i: int, j: int)
    requires 0 <= i < j < |s| && s[i] == s[j]
    ensures multiset(s)[s[i]] >= 2
  {
    assert s == s[..j] + s[j..];
    assert s[i] in s[..j] && s[j] in s[j..];
    assert multiset(s) == multiset(s[..j]) + multiset(s[j..]);
  }

  /** Strictly increasing integers. */
  ghost predicate Increasing(s: seq<int>)
  {
    forall i, j :: 0 <= i < j < |s| ==> s[i] < s[j]
  }

  /** `sorted(nums)` for the set of numbers kept from one page's candidates. */
  function DetectedNumbers(raw: seq<int>): seq<int>
  {
    SortBy(Dedup(Keep(raw, InQuestionRange)), x => x)
  }

  /** The numbers of one page are strictly increasing and are exactly the
      candidates in range. */
  lemma DetectedSpec(raw: seq<int>)
    ensures Increasing(DetectedNumbers(raw))
    ensures forall n :: n in DetectedNumbers(raw) <==> n in raw && InQuestionRange(n)
  {
    var d := Dedup(Keep(raw, InQuestionRange));
    var r := DetectedNumbers(raw);
    KeepSpec(raw, InQuestionRange);
    SortBySpec(d, x => x);
    assert forall n :: n in r <==> n in multiset(r);
    forall i, j | 0 <= i < j < |r|
      ensures r[i] < r[j]
    {
      assert (x => x)(r[i]) <= (x => x)(r[j]);
      if r[i] == r[j] {
        TwoPlaces(r, i, j);
        assert false;
      }
    }
  }

  /** Number `q` was detected on page `p` (1-based) and is in range. */
  ghost predicate DetectedAt(detected: seq<seq<int>>, p: int, q: int)
  {
    1 <= p <= |detected| && q in detected[p - 1] && InQuestionRange(q)
  }

  /** `(page, question)` pairs ordered by page, then by question number. */
  predicate PairLess(a: (int, int), b: (int, int))
  {
    a.0 < b.0 || (a.0 == b.0 && a.1 < b.1)
  }

  ghost predicate PairsIncreasing(s: seq<(int, int)>)
  {
    forall i, j :: 0 <= i < j < |s| ==> PairLess(s[i], s[j])
  }

  /** The pairs `(p, q)` for the numbers `qs` of page `p`. */
  function PagePairs(p: int, qs: seq<int>): (r: seq<(int, int)>)
    ensures |r| == |qs| && forall k :: 0 <= k < |qs| ==> r[k] == (p, qs[k])
  {
    seq(|qs|, k requires 0 <= k < |qs| => (p, qs[k]))
  }

  /** The index of a document whose pages gave the candidate numbers
      `detected` (page `i + 1` gave `detected[i]`). */
  function IndexOf(detected: seq<seq<int>>): seq<(int, int)>
  {
    if detected == [] then []
    else IndexOf(detected[..|detected| - 1]) + PagePairs(|detected|, DetectedNumbers(detected[|detected| - 1]))
  }

  /** Every pair of the index names a page of the document and a number
      detected on it in range, and every such pair is in it. */
  ghost predicate IndexMembers(detected: seq<seq<int>>, out: seq<(int, int)>)
  {
    forall pq :: pq in out <==>
      1 <= pq.0 <= |detected| && pq.1 in detected[pq.0 - 1] && InQuestionRange(pq.1)
  }

  lemma PagePairsIncreasing(p: int, qs: seq<int>)
    requires Increasing(qs)
    ensures PairsIncreasing(PagePairs(p, qs))
  {
  }

  /** Putting the pairs of a later page after an increasing index keeps it
      increasing. */
  lemma AppendPage(a: seq<(int, int)>, b: seq<(int, int)>, p: int)
    requires PairsIncreasing(a) && PairsIncreasing(b)
    requires forall x :: x in a ==> x.0 < p
    requires forall y :: y in b ==> y.0 == p
    ensures PairsIncreasing(a + b)
  {
    var c := a + b;
    forall i, j | 0 <= i < j < |c|
      ensures PairLess(c[i], c[j])
    {
      if j < |a| {
        assert c[i] == a[i] && c[j] == a[j];
      } else if i >= |a| {
        assert c[i] == b[i - |a|] && c[j] == b[j - |a|];
      } else {
        assert c[i] == a[i] && c[j] == b[j - |a|];
      }
    }
  }

  /** The index is strictly increasing in (page, question), so that the final
      `sorted(set(out))` of `index_questions` leaves it as it is, and it
      holds exactly the detected pairs. */
  lemma {:induction false} IndexSpec(detected: seq<seq<int>>)
    ensures PairsIncreasing(IndexOf(detected))
    ensures IndexMembers(detected, IndexOf(detected))
  {
    if detected != [] {
      var n := |detected|;
      var front := detected[..n - 1];
      IndexSpec(front);
      var qs := DetectedNumbers(detected[n - 1]);
      DetectedSpec(detected[n - 1]);
      PagePairsIncreasing(n, qs);
      AppendPage(IndexOf(front), PagePairs(n, qs), n);
      assert IndexOf(detected) == IndexOf(front) + PagePairs(n, qs);
      forall pq
        ensures pq in IndexOf(detected) <==>
          1 <= pq.0 <= n && pq.1 in detected[pq.0 - 1] && InQuestionRange(pq.1)
      {
        if 1 <= pq.0 < n {
          assert detected[pq.0 - 1] == front[pq.0 - 1];
        }
        assert pq in PagePairs(n, qs) <==> pq.0 == n && pq.1 in qs;
      }
    }
  }

  /** Two strictly increasing lists with the same elements are the same
      list: the index is the one `sorted(set(...))` returns. */
  lemma {:induction false} IncreasingUnique(a: seq<(int, int)>, b: seq<(int, int)>)
    requires PairsIncreasing(a) && PairsIncreasing(b)
    requires forall x :: x in a <==> x in b
    ensures a == b
  {
    assert a != [] ==> a[0] in b;
    assert b != [] ==> b[0] in a;
    if a != [] && b != [] {
      assert a[0] == b[0];
      assert a == [a[0]] + a[1..] && b == [b[0]] + b[1..];
      forall x ensures x in a[1..] <==> x in b[1..] {
        if x in a[1..] {
          assert PairLess(a[0], x) && x in b && x != b[0];
        }
        if x in b[1..] {
          assert PairLess(b[0], x) && x in a && x != a[0];
        }
      }
      IncreasingUnique(a[1..], b[1..]);
    }
  }

  /** `index_questions`: one pair per number found on each page, pages in
      order; the list is already strictly increasing, so de-duplicating and
      sorting it returns it unchanged (`IndexSpec`, `IncreasingUnique`). */
  method IndexQuestions(detected: seq<seq<int>>) returns (out: seq<(int, int)>)
    ensures out == IndexOf(detected)
  {
    out := [];
    var i := 0;
    while i < |detected|
      invariant 0 <= i <= |detected|
      invariant out == IndexOf(detected[..i])
    {
      var qnums := DetectedNumbers(detected[i]);
      var j := 0;
      while j < |qnums|
        invariant 0 <= j <= |qnums|
        invariant out == IndexOf(detected[..i]) + PagePairs(i + 1, qnums[..j])
      {
        out := out + [(i + 1, qnums[j])];
        assert PagePairs(i + 1, qnums[..j + 1]) == PagePairs(i + 1, qnums[..j]) + [(i + 1, qnums[j])];
        j := j + 1;
      }
      assert detected[..i + 1][..i] == detected[..i];
      assert qnums[..j] == qnums;
      i := i + 1;
    }
    assert detected[..i] == detected;
  }

  // ---------------------------------------------------------------------
  // Question groups
  // ---------------------------------------------------------------------

  /** `(start_page, end_page, group_start_q, group_end_q)`. */
  datatype Group = Group(startPage: int, endPage: int, gStart: int, gEnd: int)

  /** The first page on which each question number was found, and the
      numbers in the order they were first met (a dict and its keys). */
  function FirstPages(index: seq<(int, int)>): (r: (map<int, int>, seq<int>))
    ensures forall q :: q in r.0 <==> q in r.1
  {
    if index == [] then (map[], [])
    else
      var f := FirstPages(index[..|index| - 1]);
      var pq := index[|index| - 1];
      if pq.1 in f.0 then f else (f.0[pq.1 := pq.0], f.1 + [pq.1])
  }

  /** Every number of the index has an entry holding the earliest page it
      was found on. */
  ghost predicate FirstOk(index: seq<(int, int)>, m: map<int, int>)
  {
    && (forall i :: 0 <= i < |index| ==> index[i].1 in m && m[index[i].1] <= index[i].0)
    && (forall q :: q in m ==> (m[q], q) in index)
  }

  /** A pair for a number already recorded changes nothing. */
  lemma FirstOkKnown(front: seq<(int, int)>, pq: (int, int), m: map<int, int>)
    requires FirstOk(front, m) && pq.1 in m
    requires forall x :: x in front ==> x.0 <= pq.0
    ensures FirstOk(front + [pq], m)
  {
    var index := front + [pq];
    var q := pq.1;
    assert (m[q], q) in front;
    assert m[q] <= pq.0;
    forall i | 0 <= i < |index|
      ensures index[i].1 in m && m[index[i].1] <= index[i].0
    {
      if i < |front| {
        assert index[i] == front[i];
      }
    }
    forall q' | q' in m
      ensures (m[q'], q') in index
    {
      assert (m[q'], q') in front;
    }
  }

  /** A pair for a new number records its page. */
  lemma FirstOkNew(front: seq<(int, int)>, pq: (int, int), m: map<int, int>)
    requires FirstOk(front, m) && pq.1 !in m
    ensures FirstOk(front + [pq], m[pq.1 := pq.0])
  {
    var index := front + [pq];
    var m' := m[pq.1 := pq.0];
    forall i | 0 <= i < |index|
      ensures index[i].1 in m' && m'[index[i].1] <= index[i].0
    {
      if i < |front| {
        assert index[i] == front[i];
        assert front[i].1 in m;
      }
    }
    forall q | q in m'
      ensures (m'[q], q) in index
    {
      if q != pq.1 {
        assert (m[q], q) in front;
      }
    }
  }

  lemma {:induction false} FirstPagesSpec(index: seq<(int, int)>)
    requires PairsIncreasing(index)
    ensures FirstOk(index, FirstPages(index).0)
  {
    if index != [] {
      var front := index[..|index| - 1];
      var pq := index[|index| - 1];
      assert PairsIncreasing(front);
      FirstPagesSpec(front);
      assert index == front + [pq];
      var f := FirstPages(front);
      forall x | x in front
        ensures x.0 <= pq.0
      {
        var i :| 0 <= i < |front| && front[i] == x;
        assert PairLess(index[i], index[|index| - 1]);
      }
      if pq.1 in f.0 {
        FirstOkKnown(front, pq, f.0);
      } else {
        FirstOkNew(front, pq, f.0);
      }
    }
  }

  /** `min(first_page[qq] for qq in qnums if lo <= qq <= hi)`, or `None`
      when no number lies in the block (where `min` would raise). */
  function MinPage(qnums: seq<int>, m: map<int, int>, lo: int, hi: int): (r: Option<int>)
    requires forall q :: q in qnums ==> q in m
    ensures r.None? <==> forall q :: q in qnums ==> !(lo <= q <= hi)
  {
    if qnums == [] then None
    else
      var rest := MinPage(qnums[1..], m, lo, hi);
      assert forall q :: q in qnums <==> q == qnums[0] || q in qnums[1..];
      assert qnums[0] in qnums;
      if lo <= qnums[0] <= hi then
        (if rest.Some? && rest.value < m[qnums[0]] then rest else Some(m[qnums[0]]))
      else rest
  }

  /** The page found is the first page of a number in the block, and no
      number of the block was first found later. */
  lemma {:induction false} MinPageSpec(qnums: seq<int>, m: map<int, int>, lo: int, hi: int)
    requires forall q :: q in qnums ==> q in m
    ensures var r := MinPage(qnums, m, lo, hi);
      && (r.Some? ==> exists q :: q in qnums && lo <= q <= hi && r.value == m[q])
      && (r.Some? ==> forall q :: q in qnums && lo <= q <= hi ==> r.value <= m[q])
  {
    if qnums != [] {
      MinPageSpec(qnums[1..], m, lo, hi);
      assert forall q :: q in qnums <==> q == qnums[0] || q in qnums[1..];
      assert qnums[0] in qnums;
    }
  }

  /** The first of `qnums` that is at least `b` (`next_qs[0]`). */
  function FirstAtLeast(qnums: seq<int>, b: int): (r: Option<int>)
    ensures r.None? <==> forall q :: q in qnums ==> q < b
    ensures r.Some? ==> r.value in qnums && r.value >= b
  {
    if qnums == [] then None
    else
      assert qnums[0] in qnums && forall q :: q in qnums <==> q == qnums[0] || q in qnums[1..];
      if qnums[0] >= b then Some(qnums[0]) else FirstAtLeast(qnums[1..], b)
  }

  /** The block of `groupSize` numbers a question belongs to. */
  function GroupIndex(q: int, groupSize: int): int
  {
    (q - 1) / Max(1, groupSize)
  }

  /** The group entry built for the block of question `q`; `None` when the
      block holds no number (only possible for `groupSize <= 0`). */
  function GroupFor(q: int, qnums: seq<int>, m: map<int, int>, groupSize: int, total: int): Option<Group>
    requires forall x :: x in qnums ==> x in m
  {
    var gidx := GroupIndex(q, groupSize);
    var gStart := gidx * groupSize + 1;
    var gEnd := gStart + groupSize - 1;
    match MinPage(qnums, m, gStart, gEnd)
    case None => None
    case Some(start) =>
      var next := FirstAtLeast(qnums, (gidx + 1) * groupSize + 1);
      var nextPage := if next.Some? then m[next.value] else 0;
      Some(Group(start, EndPage(start, nextPage, total), gStart, gEnd))
  }

  /** The last page of a group that starts on `start`, when the next block's
      first number is first seen on `nextPage` (0: no next block, or its page
      is unknown): the page before it, never before `start`, else the last
      page; clamped to the page count `total` when that is known (non-zero),
      and `start` when nothing is known. */
  function EndPage(start: int, nextPage: int, total: int): (r: int)
    ensures total != 0 ==> r <= total
    ensures nextPage > 1 && start <= nextPage - 1 && (total == 0 || nextPage - 1 <= total) ==> r == nextPage - 1
    ensures nextPage == 0 && total == 0 ==> r == start
  {
    var end := if nextPage != 0 then Max(start, nextPage - 1) else total;
    var clamped := if total != 0 && end > total then total else end;
    if clamped != 0 then clamped else start
  }

  /** The groups built while walking `qs` (a prefix of the sorted numbers),
      with the set of block indices already seen. */
  function BuildGroups(qs: seq<int>, qnums: seq<int>, m: map<int, int>, groupSize: int, total: int)
    : Option<(seq<Group>, set<int>)>
    requires forall x :: x in qnums ==> x in m
  {
    if qs == [] then Some(([], {}))
    else
      match BuildGroups(qs[..|qs| - 1], qnums, m, groupSize, total)
      case None => None
      case Some(acc) =>
        var q := qs[|qs| - 1];
        if GroupIndex(q, groupSize) in acc.1 then Some(acc)
        else
          match GroupFor(q, qnums, m, groupSize, total)
          case None => None
          case Some(g) => Some((acc.0 + [g], acc.1 + {GroupIndex(q, groupSize)}))
  }

  /** Sort key for `(start_page, group_start_q)`: question numbers are below
      1000, so the pair orders exactly as this integer does. */
  function GroupKey(g: Group): int
  {
    g.startPage * 1000 + g.gStart
  }

  function GroupStart(g: Group): int { g.gStart }

  lemma GroupKeyOrder(a: Group, b: Group)
    requires 1 <= a.gStart < 1000 && 1 <= b.gStart < 1000
    ensures GroupKey(a) < GroupKey(b) <==>
      a.startPage < b.startPage || (a.startPage == b.startPage && a.gStart < b.gStart)
    ensures GroupKey(a) == GroupKey(b) <==> a.startPage == b.startPage && a.gStart == b.gStart
  {
  }

  /** `split_by_question_groups` as a value. `totalPages` is `None` when the
      document cannot be opened again. */
  function QuestionGroups(detected: seq<seq<int>>, totalPages: Option<nat>, groupSize: int): Result<seq<Group>>
  {
    var index := IndexOf(detected);
    if index == [] then
      Ok([Group(1, Max(1, if totalPages.Some? then totalPages.value else 1), 1, groupSize)])
    else
      var f := FirstPages(index);
      var qnums := SortBy(f.1, x => x);
      SortBySpec(f.1, x => x);
      assert forall x :: x in qnums <==> x in multiset(f.1);
      if qnums == [] then
        Ok([Group(1, Max(1, if totalPages.Some? then totalPages.value else 1), 1, groupSize)])
      else
        var total := if totalPages.Some? then totalPages.value else 0;
        match BuildGroups(qnums, qnums, f.0, groupSize, total)
        case None => Err("min() arg is an empty sequence")
        case Some(acc) => Ok(SortBy(acc.0, GroupKey))
  }

  lemma BlockBounds(q: int, gs: int)
    requires gs >= 1
    ensures GroupIndex(q, gs) * gs + 1 <= q <= GroupIndex(q, gs) * gs + gs
  {
  }

  /** The first number of block `k` belongs to block `k`. */
  lemma BlockOfStart(k: int, gs: int)
    requires gs >= 1
    ensures GroupIndex(k * gs + 1, gs) == k
  {
    DivExact(k * gs, gs, k);
  }

  /** A question number in range falls in a block starting between 1 and 999. */
  lemma BlockStartRange(q: int, gs: int)
    requires gs >= 1 && InQuestionRange(q)
    ensures 1 <= GroupIndex(q, gs) * gs + 1 < 1000
  {
    BlockBounds(q, gs);
    var k := GroupIndex(q, gs);
    assert k >= 0;
    MulMono(0, k, gs);
  }

  /** What the groups built so far satisfy: `seen` holds the block of every
      number walked; each group is a whole block (`gs` numbers from the
      first of a seen block, which it is the only group for); and, when the
      page count is known, no group ends after the last page. */
  ghost predicate GroupsOk(groups: seq<Group>, seen: set<int>, qs: seq<int>, gs: int, total: int)
  {
    SeenOk(seen, qs, gs) && ShapeOk(groups, seen, gs, total) && CoveredOk(groups, seen, gs) && StartsDistinct(groups)
  }

  ghost predicate SeenOk(seen: set<int>, qs: seq<int>, gs: int)
  {
    forall x :: x in seen <==> exists q :: q in qs && GroupIndex(q, gs) == x
  }

  ghost predicate ShapeOk(groups: seq<Group>, seen: set<int>, gs: int, total: int)
  {
    forall i :: 0 <= i < |groups| ==>
      && GroupIndex(groups[i].gStart, gs) in seen
      && groups[i].gStart == GroupIndex(groups[i].gStart, gs) * gs + 1
      && groups[i].gEnd == groups[i].gStart + gs - 1
      && 1 <= groups[i].gStart < 1000
      && (total != 0 ==> groups[i].endPage <= total)
  }

  ghost predicate CoveredOk(groups: seq<Group>, seen: set<int>, gs: int)
  {
    forall x :: x in seen ==> exists i :: 0 <= i < |groups| && GroupIndex(groups[i].gStart, gs) == x
  }

  ghost predicate StartsDistinct(groups: seq<Group>)
  {
    forall i, j :: 0 <= i < j < |groups| ==> groups[i].gStart != groups[j].gStart
  }

  /** The group built for a number in range is its whole block, starting
      between 1 and 999, and ends no later than the last page when that is
      known. */
  lemma GroupForSpec(q: int, qnums: seq<int>, m: map<int, int>, gs: int, total: int)
    requires forall x :: x in qnums ==> x in m
    requires gs >= 1 && q in qnums && InQuestionRange(q)
    ensures GroupFor(q, qnums, m, gs, total).Some?
    ensures var g := GroupFor(q, qnums, m, gs, total).value;
      && g.gStart == GroupIndex(q, gs) * gs + 1
      && GroupIndex(g.gStart, gs) == GroupIndex(q, gs)
      && g.gEnd == g.gStart + gs - 1
      && 1 <= g.gStart < 1000
      && (total != 0 ==> g.endPage <= total)
  {
    BlockBounds(q, gs);
    BlockOfStart(GroupIndex(q, gs), gs);
    BlockStartRange(q, gs);
  }

  /** A number of an already seen block adds nothing. */
  lemma GroupsOkSeen(groups: seq<Group>, seen: set<int>, qs: seq<int>, q: int, gs: int, total: int)
    requires GroupsOk(groups, seen, qs, gs, total) && GroupIndex(q, gs) in seen
    ensures GroupsOk(groups, seen, qs + [q], gs, total)
  {
    assert forall x :: x in qs + [q] <==> x in qs || x == q;
  }

  lemma SeenOkNew(seen: set<int>, qs: seq<int>, q: int, gs: int)
    requires SeenOk(seen, qs, gs)
    ensures SeenOk(seen + {GroupIndex(q, gs)}, qs + [q], gs)
  {
    assert forall x :: x in qs + [q] <==> x in qs || x == q;
  }

  lemma ShapeOkNew(groups: seq<Group>, seen: set<int>, k: int, g: Group, gs: int, total: int)
    requires ShapeOk(groups, seen, gs, total)
    requires g.gStart == k * gs + 1 && GroupIndex(g.gStart, gs) == k
    requires g.gEnd == g.gStart + gs - 1 && 1 <= g.gStart < 1000 && (total != 0 ==> g.endPage <= total)
    ensures ShapeOk(groups + [g], seen + {k}, gs, total)
  {
    var gr := groups + [g];
    forall i | 0 <= i < |gr|
      ensures && GroupIndex(gr[i].gStart, gs) in seen + {k}
              && gr[i].gStart == GroupIndex(gr[i].gStart, gs) * gs + 1
              && gr[i].gEnd == gr[i].gStart + gs - 1
              && 1 <= gr[i].gStart < 1000
              && (total != 0 ==> gr[i].endPage <= total)
    {
      if i < |groups| {
        assert gr[i] == groups[i];
      }
    }
  }

  lemma CoveredOkNew(groups: seq<Group>, seen: set<int>, k: int, g: Group, gs: int)
    requires CoveredOk(groups, seen, gs) && GroupIndex(g.gStart, gs) == k
    ensures CoveredOk(groups + [g], seen + {k}, gs)
  {
    var gr := groups + [g];
    forall x | x in seen + {k}
      ensures exists i :: 0 <= i < |gr| && GroupIndex(gr[i].gStart, gs) == x
    {
      if x in seen {
        var i :| 0 <= i < |groups| && GroupIndex(groups[i].gStart, gs) == x;
        assert gr[i] == groups[i];
      } else {
        assert GroupIndex(gr[|gr| - 1].gStart, gs) == x;
      }
    }
  }

  lemma StartsDistinctNew(groups: seq<Group>, seen: set<int>, k: int, g: Group, gs: int, total: int)
    requires ShapeOk(groups, seen, gs, total) && StartsDistinct(groups)
    requires k !in seen && GroupIndex(g.gStart, gs) == k
    ensures StartsDistinct(groups + [g])
  {
    var gr := groups + [g];
    forall i, j | 0 <= i < j < |gr|
      ensures gr[i].gStart != gr[j].gStart
    {
      if j == |groups| {
        assert gr[i] == groups[i];
        assert GroupIndex(groups[i].gStart, gs) in seen;
      } else {
        assert gr[i] == groups[i] && gr[j] == groups[j];
      }
    }
  }

  /** A number of a new block adds that block's group. */
  lemma GroupsOkNew(groups: seq<Group>, seen: set<int>, qs: seq<int>, q: int, g: Group, gs: int, total: int)
    requires GroupsOk(groups, seen, qs, gs, total) && GroupIndex(q, gs) !in seen
    requires g.gStart == GroupIndex(q, gs) * gs + 1 && GroupIndex(g.gStart, gs) == GroupIndex(q, gs)
    requires g.gEnd == g.gStart + gs - 1 && 1 <= g.gStart < 1000 && (total != 0 ==> g.endPage <= total)
    ensures GroupsOk(groups + [g], seen + {GroupIndex(q, gs)}, qs + [q], gs, total)
  {
    var k := GroupIndex(q, gs);
    SeenOkNew(seen, qs, q, gs);
    ShapeOkNew(groups, seen, k, g, gs, total);
    CoveredOkNew(groups, seen, k, g, gs);
    StartsDistinctNew(groups, seen, k, g, gs, total);
  }

  /** With blocks of at least one number, a group is built for every block
      the walk meets, exactly once each. */
  lemma {:induction false} BuildGroupsSpec(qs: seq<int>, qnums: seq<int>, m: map<int, int>, gs: int, total: int)
    requires forall x :: x in qnums ==> x in m
    requires gs >= 1
    requires forall q :: q in qs ==> q in qnums && InQuestionRange(q)
    ensures BuildGroups(qs, qnums, m, gs, total).Some?
    ensures GroupsOk(BuildGroups(qs, qnums, m, gs, total).value.0, BuildGroups(qs, qnums, m, gs, total).value.1, qs, gs, total)
  {
    if qs != [] {
      var front := qs[..|qs| - 1];
      var q := qs[|qs| - 1];
      assert qs == front + [q];
      assert forall x :: x in front ==> x in qs;
      BuildGroupsSpec(front, qnums, m, gs, total);
      var acc := BuildGroups(front, qnums, m, gs, total).value;
      if GroupIndex(q, gs) !in acc.1 {
        GroupForSpec(q, qnums, m, gs, total);
        var g := GroupFor(q, qnums, m, gs, total).value;
        assert BuildGroups(qs, qnums, m, gs, total) == Some((acc.0 + [g], acc.1 + {GroupIndex(q, gs)}));
        GroupsOkNew(acc.0, acc.1, front, q, g, gs, total);
      } else {
        assert BuildGroups(qs, qnums, m, gs, total) == Some(acc);
        GroupsOkSeen(acc.0, acc.1, front, q, gs, total);
      }
    }
  }

  /** Once the walk has failed it stays failed. */
  lemma {:induction false} BuildGroupsStaysFailed(qs: seq<int>, n: nat, qnums: seq<int>, m: map<int, int>, gs: int, total: int)
    requires forall x :: x in qnums ==> x in m
    requires n <= |qs| && BuildGroups(qs[..n], qnums, m, gs, total).None?
    ensures BuildGroups(qs, qnums, m, gs, total).None?
    decreases |qs| - n
  {
    if n < |qs| {
      assert qs[..n + 1][..n] == qs[..n];
      BuildGroupsStaysFailed(qs, n + 1, qnums, m, gs, total);
    } else {
      assert qs[..n] == qs;
    }
  }

  /** With blocks of no numbers at all, the first number already makes
      `min` fail, and the failure ends the walk. */
  lemma {:induction false} BuildGroupsFail(qs: seq<int>, qnums: seq<int>, m: map<int, int>, gs: int, total: int)
    requires forall x :: x in qnums ==> x in m
    requires gs <= 0 && qs != []
    ensures BuildGroups(qs, qnums, m, gs, total).None?
  {
    var front := qs[..|qs| - 1];
    if front != [] {
      BuildGroupsFail(front, qnums, m, gs, total);
    } else {
      assert BuildGroups(front, qnums, m, gs, total) == Some(([], {}));
      var k := GroupIndex(qs[0], gs);
      assert MinPage(qnums, m, k * gs + 1, k * gs + gs).None?;
    }
  }

  /** Each group is the whole block of the numbers that fall in it. */
  lemma CoveredBy(g: Group, q: int, gs: int)
    requires gs >= 1 && g.gStart == GroupIndex(g.gStart, gs) * gs + 1 && g.gEnd == g.gStart + gs - 1
    requires GroupIndex(g.gStart, gs) == GroupIndex(q, gs)
    ensures g.gStart <= q <= g.gEnd
  {
    BlockBounds(q, gs);
  }

  /** Elements whose keys are pairwise different occur once each. */
  lemma {:induction false} DistinctKeysOnce<T>(s: seq<T>, f: T -> int, x: T)
    requires forall i, j :: 0 <= i < j < |s| ==> f(s[i]) != f(s[j])
    ensures multiset(s)[x] <= 1
  {
    if s != [] {
      assert s == [s[0]] + s[1..];
      DistinctKeysOnce(s[1..], f, x);
      forall k | 0 <= k < |s[1..]|
        ensures s[1..][k] != s[0]
      {
        assert f(s[0]) != f(s[k + 1]);
      }
      assert s[0] !in s[1..];
    }
  }

  /** Pairwise different keys survive a permutation. */
  lemma DistinctKeysPerm<T>(s: seq<T>, t: seq<T>, f: T -> int)
    requires forall i, j :: 0 <= i < j < |s| ==> f(s[i]) != f(s[j])
    requires multiset(s) == multiset(t)
    ensures forall i, j :: 0 <= i < j < |t| ==> f(t[i]) != f(t[j])
  {
    forall i, j | 0 <= i < j < |t|
      ensures f(t[i]) != f(t[j])
    {
      if t[i] == t[j] {
        TwoPlaces(t, i, j);
        DistinctKeysOnce(s, f, t[i]);
      } else {
        assert t[i] in multiset(s) && t[j] in multiset(s);
        var a :| 0 <= a < |s| && s[a] == t[i];
        var b :| 0 <= b < |s| && s[b] == t[j];
        assert a != b;
      }
    }
  }

  /** What `split_by_question_groups` promises for blocks of at least one
      number: the groups are ordered by start page and then by first
      question, each block appears once and starts on a multiple of `gs`
      plus one, every detected question number lies inside its group's
      block of `gs` numbers, and no group ends after
      the last page when the page count is known. */
  ghost predicate GroupsResult(detected: seq<seq<int>>, totalPages: Option<nat>, gs: int, groups: seq<Group>)
  {
    && (forall i, j :: 0 <= i < j < |groups| ==>
          groups[i].startPage < groups[j].startPage ||
          (groups[i].startPage == groups[j].startPage && groups[i].gStart < groups[j].gStart))
    && (forall i, j :: 0 <= i < j < |groups| ==> groups[i].gStart != groups[j].gStart)
    && (forall i :: 0 <= i < |groups| ==>
          groups[i].gStart == GroupIndex(groups[i].gStart, gs) * gs + 1 && groups[i].gEnd == groups[i].gStart + gs - 1)
    && (forall p, q :: DetectedAt(detected, p, q) ==>
          exists i :: 0 <= i < |groups| && groups[i].gStart <= q <= groups[i].gEnd)
    && (totalPages.Some? && totalPages.value != 0 ==>
          forall i :: 0 <= i < |groups| ==> groups[i].endPage <= totalPages.value)
  }

  /** Sorting the built groups by `(start_page, group_start_q)` keeps what
      they satisfy and makes the order strict. */
  lemma SortedGroups(built: seq<Group>, seen: set<int>, qs: seq<int>, gs: int, total: int)
    requires gs >= 1 && GroupsOk(built, seen, qs, gs, total)
    ensures var sorted := SortBy(built, GroupKey);
      && multiset(sorted) == multiset(built)
      && (forall i, j :: 0 <= i < j < |sorted| ==>
            sorted[i].startPage < sorted[j].startPage ||
            (sorted[i].startPage == sorted[j].startPage && sorted[i].gStart < sorted[j].gStart))
      && (forall i, j :: 0 <= i < j < |sorted| ==> sorted[i].gStart != sorted[j].gStart)
  {
    var sorted := SortBy(built, GroupKey);
    SortBySpec(built, GroupKey);
    DistinctKeysPerm(built, sorted, GroupStart);
    forall i, j | 0 <= i < j < |sorted|
      ensures sorted[i].startPage < sorted[j].startPage ||
        (sorted[i].startPage == sorted[j].startPage && sorted[i].gStart < sorted[j].gStart)
    {
      assert sorted[i] in multiset(built) && sorted[j] in multiset(built);
      assert sorted[i].gStart != sorted[j].gStart;
      GroupKeyOrder(sorted[i], sorted[j]);
    }
  }

  /** Every recorded number was detected on some page. */
  lemma FirstPagesInRange(detected: seq<seq<int>>)
    ensures forall q :: q in FirstPages(IndexOf(detected)).0 ==> InQuestionRange(q)
  {
    var index := IndexOf(detected);
    IndexSpec(detected);
    FirstPagesSpec(index);
    var m := FirstPages(index).0;
    forall q | q in m
      ensures InQuestionRange(q)
    {
      var pq := (m[q], q);
      assert pq in index;
      assert IndexMembers(detected, index);
    }
  }

  /** Every detected number is recorded. */
  lemma FirstPagesComplete(detected: seq<seq<int>>)
    ensures forall p, q :: DetectedAt(detected, p, q) ==> q in FirstPages(IndexOf(detected)).0
  {
    var index := IndexOf(detected);
    IndexSpec(detected);
    FirstPagesSpec(index);
    forall p, q | DetectedAt(detected, p, q)
      ensures q in FirstPages(index).0
    {
      var pq := (p, q);
      assert IndexMembers(detected, index);
      assert pq in index;
      var i :| 0 <= i < |index| && index[i] == pq;
      assert index[i].1 in FirstPages(index).0;
    }
  }

  /** The sorted numbers of a non-empty index: every one of them is in
      range and has a first page, and every detected number is among them. */
  lemma QNumsFacts(detected: seq<seq<int>>)
    requires IndexOf(detected) != []
    ensures var f := FirstPages(IndexOf(detected)); var qnums := SortBy(f.1, x => x);
      && qnums != []
      && (forall q :: q in qnums ==> q in f.0 && InQuestionRange(q))
      && (forall p, q :: DetectedAt(detected, p, q) ==> q in qnums)
  {
    var index := IndexOf(detected);
    var f := FirstPages(index);
    var qnums := SortBy(f.1, x => x);
    FirstPagesInRange(detected);
    FirstPagesComplete(detected);
    IndexSpec(detected);
    FirstPagesSpec(index);
    SortBySpec(f.1, x => x);
    assert index[0].1 in f.0;
    assert forall x :: x in qnums <==> x in multiset(f.1);
    assert forall x :: x in multiset(f.1) <==> x in f.1;
    assert index[0].1 in qnums;
  }

  /** The sorted groups keep the per-group facts of the built ones. */
  lemma SortedGroupsFields(totalPages: Option<nat>, gs: int, built: seq<Group>, seen: set<int>, qnums: seq<int>)
    requires gs >= 1
    requires GroupsOk(built, seen, qnums, gs, if totalPages.Some? then totalPages.value else 0)
    ensures var sorted := SortBy(built, GroupKey);
      forall i :: 0 <= i < |sorted| ==>
        && sorted[i].gStart == GroupIndex(sorted[i].gStart, gs) * gs + 1
        && sorted[i].gEnd == sorted[i].gStart + gs - 1
        && (totalPages.Some? && totalPages.value != 0 ==> sorted[i].endPage <= totalPages.value)
  {
    var sorted := SortBy(built, GroupKey);
    SortByPermutation(built, GroupKey);
    forall i | 0 <= i < |sorted|
      ensures sorted[i].gStart == GroupIndex(sorted[i].gStart, gs) * gs + 1
      ensures sorted[i].gEnd == sorted[i].gStart + gs - 1
      ensures totalPages.Some? && totalPages.value != 0 ==> sorted[i].endPage <= totalPages.value
    {
      assert sorted[i] in multiset(built);
    }
  }

  /** Every detected number lies in one of the sorted groups. */
  lemma SortedGroupsCover(detected: seq<seq<int>>, gs: int, total: int, built: seq<Group>, seen: set<int>, qnums: seq<int>)
    requires gs >= 1 && GroupsOk(built, seen, qnums, gs, total)
    requires forall p, q :: DetectedAt(detected, p, q) ==> q in qnums
    ensures var sorted := SortBy(built, GroupKey);
      forall p, q :: DetectedAt(detected, p, q) ==>
        exists i :: 0 <= i < |sorted| && sorted[i].gStart <= q <= sorted[i].gEnd
  {
    var sorted := SortBy(built, GroupKey);
    SortByPermutation(built, GroupKey);
    forall p, q | DetectedAt(detected, p, q)
      ensures exists i :: 0 <= i < |sorted| && sorted[i].gStart <= q <= sorted[i].gEnd
    {
      assert q in qnums;
      assert GroupIndex(q, gs) in seen;
      var i :| 0 <= i < |built| && GroupIndex(built[i].gStart, gs) == GroupIndex(q, gs);
      CoveredBy(built[i], q, gs);
      assert built[i] in multiset(sorted);
      var j :| 0 <= j < |sorted| && sorted[j] == built[i];
    }
  }

  lemma SortedGroupsResult(detected: seq<seq<int>>, totalPages: Option<nat>, gs: int,
                           built: seq<Group>, seen: set<int>, qnums: seq<int>)
    requires gs >= 1
    requires GroupsOk(built, seen, qnums, gs, if totalPages.Some? then totalPages.value else 0)
    requires forall p, q :: DetectedAt(detected, p, q) ==> q in qnums
    ensures GroupsResult(detected, totalPages, gs, SortBy(built, GroupKey))
  {
    var total := if totalPages.Some? then totalPages.value else 0;
    SortedGroups(built, seen, qnums, gs, total);
    SortedGroupsFields(totalPages, gs, built, seen, qnums);
    SortedGroupsCover(detected, gs, total, built, seen, qnums);
  }

  lemma QuestionGroupsSpec(detected: seq<seq<int>>, totalPages: Option<nat>, gs: int)
    ensures IndexOf(detected) == [] ==>
      QuestionGroups(detected, totalPages, gs) ==
        Ok([Group(1, Max(1, if totalPages.Some? then totalPages.value else 1), 1, gs)])
    ensures IndexOf(detected) != [] && gs <= 0 ==> QuestionGroups(detected, totalPages, gs).Err?
    ensures IndexOf(detected) != [] && gs >= 1 ==>
      QuestionGroups(detected, totalPages, gs).Ok? &&
      GroupsResult(detected, totalPages, gs, QuestionGroups(detected, totalPages, gs).value)
  {
    var index := IndexOf(detected);
    if index != [] {
      QNumsFacts(detected);
      var f := FirstPages(index);
      var qnums := SortBy(f.1, x => x);
      var total := if totalPages.Some? then totalPages.value else 0;
      if gs <= 0 {
        BuildGroupsFail(qnums, qnums, f.0, gs, total);
      } else {
        BuildGroupsSpec(qnums, qnums, f.0, gs, total);
        var acc := BuildGroups(qnums, qnums, f.0, gs, total).value;
        assert QuestionGroups(detected, totalPages, gs) == Ok(SortBy(acc.0, GroupKey));
        SortedGroupsResult(detected, totalPages, gs, acc.0, acc.1, qnums);
      }
    }
  }

  /** The loop of `split_by_question_groups` that records the first page
      of every question number. */
  method RecordFirstPages(index: seq<(int, int)>) returns (firstPage: map<int, int>, order: seq<int>)
    ensures (firstPage, order) == FirstPages(index)
  {
    firstPage := map[];
    order := [];
    var i := 0;
    while i < |index|
      invariant 0 <= i <= |index|
      invariant (firstPage, order) == FirstPages(index[..i])
    {
      var (p, q) := index[i];
      assert index[..i + 1][..i] == index[..i];
      if q !in firstPage {
        firstPage := firstPage[q := p];
        order := order + [q];
      }
      i := i + 1;
    }
    assert index[..i] == index;
  }

  /** The body of the loop of `split_by_question_groups` for a number of a
      new block: the block's numbers, its first page (the smallest first
      page of a number in the block), and its last page (the page before
      the next block's first number, clamped to the page count). */
  method BlockGroup(q: int, qnums: seq<int>, firstPage: map<int, int>, groupSize: int, total: int)
    returns (g: Option<Group>)
    requires forall x :: x in qnums ==> x in firstPage
    ensures g == GroupFor(q, qnums, firstPage, groupSize, total)
  {
    var gidx := GroupIndex(q, groupSize);
    var gStart := gidx * groupSize + 1;
    var gEnd := gStart + groupSize - 1;
    var startPage := MinPage(qnums, firstPage, gStart, gEnd);
    if startPage.None? {
      return None;
    }
    var next := FirstAtLeast(qnums, (gidx + 1) * groupSize + 1);
    var nextPage := if next.Some? then firstPage[next.value] else 0;
    g := Some(Group(startPage.value, EndPage(startPage.value, nextPage, total), gStart, gEnd));
  }

  lemma BuildGroupsSnoc(qs: seq<int>, q: int, qnums: seq<int>, m: map<int, int>, gs: int, total: int, acc: (seq<Group>, set<int>))
    requires forall x :: x in qnums ==> x in m
    requires BuildGroups(qs, qnums, m, gs, total) == Some(acc)
    ensures GroupIndex(q, gs) in acc.1 ==> BuildGroups(qs + [q], qnums, m, gs, total) == Some(acc)
    ensures GroupIndex(q, gs) !in acc.1 && GroupFor(q, qnums, m, gs, total).None? ==>
      BuildGroups(qs + [q], qnums, m, gs, total).None?
    ensures GroupIndex(q, gs) !in acc.1 && GroupFor(q, qnums, m, gs, total).Some? ==>
      BuildGroups(qs + [q], qnums, m, gs, total) ==
        Some((acc.0 + [GroupFor(q, qnums, m, gs, total).value], acc.1 + {GroupIndex(q, gs)}))
  {
    assert (qs + [q])[..|qs|] == qs;
  }

  /** The loop of `split_by_question_groups` over the sorted numbers: one
      group per block of `groupSize` not seen before; `None` when `min`
      finds no number in the block. */
  method WalkGroups(qnums: seq<int>, firstPage: map<int, int>, groupSize: int, total: int)
    returns (r: Option<(seq<Group>, set<int>)>)
    requires forall x :: x in qnums ==> x in firstPage
    ensures r == BuildGroups(qnums, qnums, firstPage, groupSize, total)
  {
    var groups: seq<Group> := [];
    var seen: set<int> := {};
    var k := 0;
    while k < |qnums|
      invariant 0 <= k <= |qnums|
      invariant BuildGroups(qnums[..k], qnums, firstPage, groupSize, total) == Some((groups, seen))
    {
      var q := qnums[k];
      assert qnums[..k + 1] == qnums[..k] + [q];
      BuildGroupsSnoc(qnums[..k], q, qnums, firstPage, groupSize, total, (groups, seen));
      var gidx := (q - 1) / Max(1, groupSize);
      if gidx !in seen {
        var g := BlockGroup(q, qnums, firstPage, groupSize, total);
        if g.None? {
          BuildGroupsStaysFailed(qnums, k + 1, qnums, firstPage, groupSize, total);
          return None;
        }
        seen := seen + {gidx};
        groups := groups + [g.value];
      }
      k := k + 1;
    }
    assert qnums[..k] == qnums;
    return Some((groups, seen));
  }

  /** `split_by_question_groups`: index the document, record the first page
      of every number, walk the sorted numbers building one group per block,
      and sort the groups by start page and first question. */
  method SplitByQuestionGroups(detected: seq<seq<int>>, totalPages: Option<nat>, groupSize: int)
    returns (r: Result<seq<Group>>)
    ensures r == QuestionGroups(detected, totalPages, groupSize)
  {
    var index := IndexQuestions(detected);
    if index == [] {
      var total := if totalPages.Some? then totalPages.value else 1;
      return Ok([Group(1, Max(1, total), 1, groupSize)]);
    }
    var firstPage, order := RecordFirstPages(index);
    var qnums := SortBy(order, x => x);
    SortBySpec(order, x => x);
    assert forall x :: x in qnums <==> x in multiset(order);
    if qnums == [] {
      var total := if totalPages.Some? then totalPages.value else 1;
      return Ok([Group(1, Max(1, total), 1, groupSize)]);
    }
    var total := if totalPages.Some? then totalPages.value else 0;
    var walked := WalkGroups(qnums, firstPage, groupSize, total);
    if walked.None? {
      return Err("min() arg is an empty sequence");
    }
    return Ok(SortBy(walked.value.0, GroupKey));
  }
}
