/** Hands out the chunks of a lesson to the workers: a queue of new chunks,
    a queue of failed chunks waiting for another try, the chunks in
    progress by id, the completed ones, and counters. Chunk tasks are
    values here: an operation that updates a task returns the updated task
    instead of changing a shared object. The key manager's answers are
    inputs. */
module ChunkDistribution {
  import opened Common
  import opened Records

  datatype Status = Pending | Processing | Completed | Failed

  /** `ChunkTask`. */
  datatype ChunkTask = ChunkTask(
    chunkId: string,
    chunkPath: string,
    startPage: int,
    endPage: int,
    lessonFilename: string,
    chunkIndex: int,
    totalChunks: int,
    retryCount: int,
    maxRetries: int,
    assignedApi: Option<string>,
    status: Status,
    result: Option<AnalysisResult>,
    error: Option<string>)

  /** The `stats` counters. */
  datatype Stats = Stats(totalChunks: nat, completed: nat, failed: nat, retried: nat, redistributed: nat)

  /** `get_progress` without the percentage. */
  datatype Progress = Progress(
    total: nat, completed: nat, failed: nat, pending: nat, processing: nat, retried: nat, redistributed: nat)

  /** The call made to the key manager when a failed chunk is requeued. */
  datatype KeyFailure = KeyFailure(apiKey: string, isRateLimit: bool, isEmptyResponse: bool)

  /** `f"{lesson_filename}_chunk_{idx}"`. */
  function ChunkId(lessonFilename: string, idx: nat): string
  {
    lessonFilename + "_chunk_" + NatToString(idx)
  }

  /** Different chunks of one lesson get different ids. */
  lemma ChunkIdInjective(lessonFilename: string, i: nat, j: nat)
    requires ChunkId(lessonFilename, i) == ChunkId(lessonFilename, j)
    ensures i == j
  {
    var p := lessonFilename + "_chunk_";
    assert ChunkId(lessonFilename, i)[|p|..] == NatToString(i);
    assert ChunkId(lessonFilename, j)[|p|..] == NatToString(j);
    NatToStringInjective(i, j);
  }

  /** The chunk task `add_chunks` makes for chunk `idx` of `n`. */
  function NewTask(chunk: (string, int, int), lessonFilename: string, idx: nat, n: nat): ChunkTask
  {
    ChunkTask(ChunkId(lessonFilename, idx), chunk.0, chunk.1, chunk.2, lessonFilename, idx, n,
      0, 3, None, Pending, None, None)
  }

  /** The chunk tasks `add_chunks` queues, in order. */
  function NewTasks(chunks: seq<(string, int, int)>, lessonFilename: string): seq<ChunkTask>
  {
    seq(|chunks|, i requires 0 <= i < |chunks| => NewTask(chunks[i], lessonFilename, i, |chunks|))
  }

  /** One task per chunk, in order, with distinct ids, each knowing its
      index and the chunk count, its pages and file, pending, unassigned,
      with no tries yet and a limit of 3. */
  lemma NewTasksSpec(chunks: seq<(string, int, int)>, lessonFilename: string)
    ensures var ts := NewTasks(chunks, lessonFilename);
      && |ts| == |chunks|
      && (forall i :: 0 <= i < |ts| ==>
            && ts[i].chunkId == ChunkId(lessonFilename, i)
            && ts[i].chunkIndex == i && ts[i].totalChunks == |chunks|
            && (ts[i].chunkPath, ts[i].startPage, ts[i].endPage) == chunks[i]
            && ts[i].lessonFilename == lessonFilename
            && ts[i].status == Pending && ts[i].assignedApi.None?
            && ts[i].retryCount == 0 && ts[i].maxRetries == 3)
      && (forall i, j :: 0 <= i < j < |ts| ==> ts[i].chunkId != ts[j].chunkId)
  {
    var ts := NewTasks(chunks, lessonFilename);
    forall i, j | 0 <= i < j < |ts|
      ensures ts[i].chunkId != ts[j].chunkId
    {
      if ts[i].chunkId == ts[j].chunkId {
        ChunkIdInjective(lessonFilename, i, j);
      }
    }
  }

  /** A task waiting in the failed queue. */
  predicate Requeued(t: ChunkTask)
  {
    t.status == Pending && t.assignedApi.None? && t.retryCount < t.maxRetries
  }

  /** The chunk task after one more failure, and whether it goes back in the
      queue: only while its tries stay below its limit. */
  function FailTask(t: ChunkTask, error: string): (r: (ChunkTask, bool))
    ensures r.0.retryCount == t.retryCount + 1 && r.0.error == Some(error)
    ensures r.1 <==> t.retryCount + 1 < t.maxRetries
    ensures r.1 ==> Requeued(r.0)
    ensures !r.1 ==> r.0.status == Failed && r.0.assignedApi == t.assignedApi
    ensures r.0.(status := t.status, assignedApi := t.assignedApi, retryCount := t.retryCount, error := t.error) == t
  {
    var u := t.(error := Some(error), retryCount := t.retryCount + 1);
    if u.retryCount < u.maxRetries then (u.(status := Pending, assignedApi := None), true)
    else (u.(status := Failed), false)
  }

  /** The chunk task after `n` failures in a row. */
  function FailTimes(t: ChunkTask, error: string, n: nat): ChunkTask
  {
    if n == 0 then t else FailTask(FailTimes(t, error, n - 1), error).0
  }

  /** Each failure counts one try, and the `n`-th failure puts the chunk task back
      in the queue exactly when it leaves fewer tries than the limit: a new
      task (no tries, limit 3) is retried after its first and second
      failures and given up after its third. */
  lemma {:induction false} FailTimesSpec(t: ChunkTask, error: string, n: nat)
    ensures FailTimes(t, error, n).retryCount == t.retryCount + n
    ensures FailTimes(t, error, n).maxRetries == t.maxRetries
    ensures n >= 1 ==> (FailTask(FailTimes(t, error, n - 1), error).1 <==> t.retryCount + n < t.maxRetries)
  {
    if n >= 1 {
      FailTimesSpec(t, error, n - 1);
    }
  }

  /** `"empty response" in error.lower()` and
      `"rate" in error.lower() or "429" in error`. */
  function KeyFailureOf(apiKey: string, error: string): KeyFailure
  {
    KeyFailure(apiKey, Contains(Lower(error), "rate") || Contains(error, "429"), Contains(Lower(error), "empty response"))
  }

  /** A result dictionary that is not empty. */
  predicate Truthy(r: AnalysisResult)
  {
    r.error.Some? || r.jokboPages.Some? || r.relatedSlides.Some? || r.warnings.Some?
  }

  /** `get_completed_results`: the results of the completed tasks that are
      set and not empty, in completion order. */
  function CompletedResults(tasks: seq<ChunkTask>): (r: seq<AnalysisResult>)
    ensures |r| <= |tasks|
    ensures forall i :: 0 <= i < |r| ==> Truthy(r[i])
    ensures forall i :: 0 <= i < |tasks| && tasks[i].result.Some? && Truthy(tasks[i].result.value) ==>
      tasks[i].result.value in r
    ensures forall x :: x in r ==> exists i :: 0 <= i < |tasks| && tasks[i].result == Some(x)
  {
    if tasks == [] then []
    else
      var rest := CompletedResults(tasks[1..]);
      assert forall i :: 1 <= i < |tasks| ==> tasks[i] == tasks[1..][i - 1];
      if tasks[0].result.Some? && Truthy(tasks[0].result.value) then [tasks[0].result.value] + rest else rest
  }

  /** The failed tasks that go back to the new-chunk queue (a key was
      offered for them) and those that stay in the failed queue. */
  function Redistribute(tasks: seq<ChunkTask>, offered: seq<bool>): (r: (seq<ChunkTask>, seq<ChunkTask>))
    requires |offered| == |tasks|
  {
    if tasks == [] then ([], [])
    else
      var (moved, kept) := Redistribute(tasks[..|tasks| - 1], offered[..|tasks| - 1]);
      var t := tasks[|tasks| - 1];
      if offered[|tasks| - 1] then (moved + [t.(assignedApi := None, status := Pending)], kept)
      else (moved, kept + [t])
  }

  /** Number of `true` entries. */
  function CountTrue(bs: seq<bool>): nat
  {
    if bs == [] then 0 else CountTrue(bs[..|bs| - 1]) + (if bs[|bs| - 1] then 1 else 0)
  }

  /** Every failed task is either moved, unassigned and pending, or kept
      unchanged; one is moved per key offered, and the kept ones are failed
      tasks in their original order. */
  lemma {:induction false} RedistributeSpec(tasks: seq<ChunkTask>, offered: seq<bool>)
    requires |offered| == |tasks|
    ensures var (moved, kept) := Redistribute(tasks, offered);
      && |moved| + |kept| == |tasks|
      && |moved| == CountTrue(offered)
      && (forall i :: 0 <= i < |moved| ==> moved[i].status == Pending && moved[i].assignedApi.None?)
      && (forall i :: 0 <= i < |kept| ==> kept[i] in tasks)
  {
    if tasks != [] {
      var n := |tasks| - 1;
      RedistributeSpec(tasks[..n], offered[..n]);
      var (moved, kept) := Redistribute(tasks[..n], offered[..n]);
      assert forall t :: t in tasks[..n] ==> t in tasks;
      assert tasks[n] in tasks;
    }
  }

  class ChunkDistributor {
    var queue: seq<ChunkTask>
    var failedQueue: seq<ChunkTask>
    var completed: seq<ChunkTask>
    var processing: map<string, ChunkTask>
    /** The keys of `api_uploads`. */
    var uploadKeys: set<string>
    var stats: Stats

    /** What each collection holds: new or returned tasks pending and
        unassigned, failed tasks waiting with tries left, tasks in progress
        under their own id, completed tasks marked completed. */
    ghost predicate Valid()
      reads this
    {
      && (forall i :: 0 <= i < |queue| ==> queue[i].status == Pending && queue[i].assignedApi.None?)
      && (forall i :: 0 <= i < |failedQueue| ==> Requeued(failedQueue[i]))
      && (forall id :: id in processing ==> processing[id].chunkId == id && processing[id].status == Processing)
      && (forall i :: 0 <= i < |completed| ==> completed[i].status == Completed)
    }

    constructor()
      ensures Valid()
      ensures queue == [] && failedQueue == [] && completed == [] && processing == map[] && uploadKeys == {}
      ensures stats == Stats(0, 0, 0, 0, 0)
    {
      queue := [];
      failedQueue := [];
      completed := [];
      processing := map[];
      uploadKeys := {};
      stats := Stats(0, 0, 0, 0, 0);
    }

    /** `add_chunks`: the chunk count is set to this batch's size and one
        task per chunk joins the queue. */
    method AddChunks(chunks: seq<(string, int, int)>, lessonFilename: string)
      requires Valid()
      modifies this
      ensures Valid()
      ensures queue == old(queue) + NewTasks(chunks, lessonFilename)
      ensures stats == old(stats).(totalChunks := |chunks|)
      ensures failedQueue == old(failedQueue) && completed == old(completed)
      ensures processing == old(processing) && uploadKeys == old(uploadKeys)
      ensures HasPendingWork() <==> old(HasPendingWork()) || chunks != []
    {
      stats := stats.(totalChunks := |chunks|);
      var idx := 0;
      while idx < |chunks|
        invariant 0 <= idx <= |chunks|
        invariant queue == old(queue) + NewTasks(chunks, lessonFilename)[..idx]
        invariant Valid()
        invariant stats == old(stats).(totalChunks := |chunks|)
        invariant failedQueue == old(failedQueue) && completed == old(completed)
        invariant processing == old(processing) && uploadKeys == old(uploadKeys)
      {
        queue := queue + [NewTask(chunks[idx], lessonFilename, idx, |chunks|)];
        assert NewTasks(chunks, lessonFilename)[..idx + 1] == NewTasks(chunks, lessonFilename)[..idx] + [NewTask(chunks[idx], lessonFilename, idx, |chunks|)];
        idx := idx + 1;
      }
      assert NewTasks(chunks, lessonFilename)[..idx] == NewTasks(chunks, lessonFilename);
    }

    /** `get_next_chunk`: a failed task first (counted as redistributed),
        else a new one, else nothing. */
    method GetNextChunk() returns (chunk: Option<ChunkTask>)
      requires Valid()
      modifies this
      ensures Valid()
      ensures old(failedQueue) != [] ==> (chunk == Some(old(failedQueue)[0]) && failedQueue == old(failedQueue)[1..] &&
        queue == old(queue) && stats == old(stats).(redistributed := old(stats).redistributed + 1))
      ensures old(failedQueue) == [] && old(queue) != [] ==> (chunk == Some(old(queue)[0]) && queue == old(queue)[1..] &&
        failedQueue == old(failedQueue) && stats == old(stats))
      ensures old(failedQueue) == [] && old(queue) == [] ==> chunk.None? && queue == [] && failedQueue == [] && stats == old(stats)
      ensures chunk.Some? ==> chunk.value.status == Pending && chunk.value.assignedApi.None?
      ensures !old(HasPendingWork()) ==> chunk.None? && !HasPendingWork()
      ensures completed == old(completed) && processing == old(processing) && uploadKeys == old(uploadKeys)
    {
      if failedQueue != [] {
        chunk := Some(failedQueue[0]);
        failedQueue := failedQueue[1..];
        stats := stats.(redistributed := stats.redistributed + 1);
        return;
      }
      if queue != [] {
        chunk := Some(queue[0]);
        queue := queue[1..];
        return;
      }
      chunk := None;
    }

    /** `assign_chunk_to_api`, given how many keys the key manager reports
        available: with none it refuses; otherwise the chunk task is assigned,
        in progress and recorded under its id. */
    method AssignChunkToApi(chunk: ChunkTask, apiKey: string, availableCount: nat) returns (ok: bool, task: ChunkTask)
      requires Valid()
      modifies this
      ensures Valid()
      ensures ok <==> availableCount > 0
      ensures !ok ==> task == chunk && processing == old(processing) && uploadKeys == old(uploadKeys)
      ensures ok ==> (task == chunk.(assignedApi := Some(apiKey), status := Processing) &&
        processing == old(processing)[chunk.chunkId := task] && uploadKeys == old(uploadKeys) + {apiKey})
      ensures queue == old(queue) && failedQueue == old(failedQueue) && completed == old(completed) && stats == old(stats)
    {
      if availableCount == 0 {
        return false, chunk;
      }
      task := chunk.(assignedApi := Some(apiKey), status := Processing);
      processing := processing[chunk.chunkId := task];
      if apiKey !in uploadKeys {
        uploadKeys := uploadKeys + {apiKey};
      }
      ok := true;
    }

    /** `mark_chunk_completed`. */
    method MarkChunkCompleted(chunk: ChunkTask, result: AnalysisResult) returns (done: ChunkTask)
      requires Valid()
      modifies this
      ensures Valid()
      ensures done == chunk.(status := Completed, result := Some(result))
      ensures processing == old(processing) - {chunk.chunkId}
      ensures completed == old(completed) + [done]
      ensures stats == old(stats).(completed := old(stats).completed + 1)
      ensures queue == old(queue) && failedQueue == old(failedQueue) && uploadKeys == old(uploadKeys)
      ensures old(processing).Keys <= {chunk.chunkId} && queue == [] && failedQueue == [] ==> !HasPendingWork()
    {
      done := chunk.(status := Completed, result := Some(result));
      if chunk.chunkId in processing {
        processing := processing - {chunk.chunkId};
      }
      completed := completed + [done];
      stats := stats.(completed := stats.completed + 1);
    }

    /** `mark_chunk_failed`: one more try counted; below the limit the chunk task
        waits in the failed queue, unassigned, and the key manager is told
        of the key's failure; at the limit it is failed for good. */
    method MarkChunkFailed(chunk: ChunkTask, error: string, apiKey: string)
      returns (updated: ChunkTask, report: Option<KeyFailure>)
      requires Valid()
      modifies this
      ensures Valid()
      ensures (updated, report.Some?) == FailTask(chunk, error)
      ensures processing == old(processing) - {chunk.chunkId}
      ensures report.Some? ==> (report.value == KeyFailureOf(apiKey, error) &&
        failedQueue == old(failedQueue) + [updated] && stats == old(stats).(retried := old(stats).retried + 1))
      ensures report.None? ==> failedQueue == old(failedQueue) && stats == old(stats).(failed := old(stats).failed + 1)
      ensures report.Some? ==> HasPendingWork()
      ensures queue == old(queue) && completed == old(completed) && uploadKeys == old(uploadKeys)
    {
      updated := chunk.(error := Some(error), retryCount := chunk.retryCount + 1);
      if chunk.chunkId in processing {
        processing := processing - {chunk.chunkId};
      }
      if updated.retryCount < updated.maxRetries {
        updated := updated.(status := Pending, assignedApi := None);
        failedQueue := failedQueue + [updated];
        stats := stats.(retried := stats.retried + 1);
        report := Some(KeyFailureOf(apiKey, error));
      } else {
        updated := updated.(status := Failed);
        stats := stats.(failed := stats.failed + 1);
        report := None;
      }
    }

    /** `redistribute_failed_chunks`: `offered[i]` says whether the key
        manager had a key for the `i`-th failed task. */
    method RedistributeFailedChunks(offered: seq<bool>) returns (count: nat)
      requires Valid() && |offered| == |failedQueue|
      modifies this
      ensures Valid()
      ensures var (moved, kept) := Redistribute(old(failedQueue), offered);
        queue == old(queue) + moved && failedQueue == kept && count == |moved|
      ensures completed == old(completed) && processing == old(processing)
      ensures uploadKeys == old(uploadKeys) && stats == old(stats)
    {
      var temp := failedQueue;
      var moved: seq<ChunkTask> := [];
      var kept: seq<ChunkTask> := [];
      var i := 0;
      while i < |temp|
        invariant 0 <= i <= |temp|
        invariant (moved, kept) == Redistribute(temp[..i], offered[..i])
      {
        assert temp[..i + 1][..i] == temp[..i] && offered[..i + 1][..i] == offered[..i];
        var chunk := temp[i];
        if offered[i] {
          moved := moved + [chunk.(assignedApi := None, status := Pending)];
        } else {
          kept := kept + [chunk];
        }
        i := i + 1;
      }
      assert temp[..i] == temp && offered[..i] == offered;
      RedistributeSpec(temp, offered);
      queue := queue + moved;
      failedQueue := kept;
      count := |moved|;
    }

    /** `get_progress`. */
    function GetProgress(): (p: Progress)
      reads this
      ensures p.pending == |queue| && p.failed == stats.failed && p.processing == |processing|
      ensures p.total == stats.totalChunks && p.completed == stats.completed
    {
      Progress(stats.totalChunks, stats.completed, stats.failed, |queue|, |processing|, stats.retried, stats.redistributed)
    }

    /** `get_completed_results`. */
    function GetCompletedResults(): seq<AnalysisResult>
      reads this
    {
      CompletedResults(completed)
    }

    /** `has_pending_work`: a queue or the in-progress map is not empty. */
    predicate HasPendingWork()
      reads this
    {
      queue != [] || failedQueue != [] || |processing| > 0
    }
  }
}
