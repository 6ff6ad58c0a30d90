/** Cutting a lesson document into chunks for analysis. Unlike
    `PdfOperations.SplitPdfForChunks`, each chunk of a large document is
    written to a file of its own; writing it is a parameter `extract` that
    gives the new file's path for a document and a page range. */
module PdfSplitter {
  import opened Common
  import opened PdfOperations

  /** `split_pdf_for_analysis` for a document of `total` pages: one chunk
      `(path, 1, total)` when it fits in `maxPages`, else the chunks starting
      at pages 1, 1 + maxPages, ..., each ending `maxPages - 1` pages later
      or at the last page, each in the file `extract` writes for it. A zero
      step is an error from `range`, and a negative one yields no chunks. */
  method SplitPdfForAnalysis(path: string, total: nat, maxPages: int, extract: (string, int, int) -> string)
    returns (r: Result<seq<Chunk>>)
    ensures total <= maxPages ==> r == Ok([Chunk(path, 1, total)])
    ensures total > maxPages && maxPages == 0 ==> r.Err?
    ensures maxPages < 0 ==> r == Ok([])
    ensures total > maxPages > 0 ==> r.Ok? && Tiles(r.value, total, maxPages)
    ensures total > maxPages > 0 ==> forall i :: 0 <= i < |r.value| ==>
      r.value[i].path == extract(path, r.value[i].start, r.value[i].end)
  {
    if total <= maxPages {
      return Ok([Chunk(path, 1, total)]);
    }
    if maxPages == 0 {
      return Err("range() arg 3 must not be zero");
    }
    if maxPages < 0 {
      return Ok([]);
    }
    var chunks: seq<Chunk> := [];
    var start := 1;
    while start < total + 1
      invariant start == |chunks| * maxPages + 1
      invariant |chunks| > 0 ==> (|chunks| - 1) * maxPages < total
      invariant forall i :: 0 <= i < |chunks| ==>
        && chunks[i].start == i * maxPages + 1
        && chunks[i].end == Min(i * maxPages + maxPages, total)
        && chunks[i].path == extract(path, chunks[i].start, chunks[i].end)
      decreases total + 1 - start
    {
      var end := Min(start + maxPages - 1, total);
      chunks := chunks + [Chunk(extract(path, start, end), start, end)];
      start := start + maxPages;
    }
    return Ok(chunks);
  }

  /** The chunks of a large document cover its pages once each: contiguous,
      each of 1 to `maxPages` pages, `ceil(total / maxPages)` of them, and
      every page in exactly one chunk. */
  lemma SplitCoversPages(chunks: seq<Chunk>, total: nat, maxPages: int, p: int)
    requires total > maxPages > 0 && Tiles(chunks, total, maxPages)
    requires 1 <= p <= total
    ensures Contiguous(chunks, total)
    ensures |chunks| == (total + maxPages - 1) / maxPages
    ensures forall i :: 0 <= i < |chunks| ==> 1 <= chunks[i].end - chunks[i].start + 1 <= maxPages
    ensures exists i :: 0 <= i < |chunks| && chunks[i].start <= p <= chunks[i].end
    ensures forall i, j :: (0 <= i < |chunks| && 0 <= j < |chunks| &&
      chunks[i].start <= p <= chunks[i].end && chunks[j].start <= p <= chunks[j].end) ==> i == j
  {
    TilesSpec(chunks, total, maxPages);
    ContiguousCover(chunks, total, p);
  }
}
