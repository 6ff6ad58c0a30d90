/** Purging the files uploaded under one API key (`purge_key_files`):
    every listed file is either kept, left alone, or handed to the service
    for deletion, and the run reports how many files it saw, deleted and
    skipped. The service is not modelled: what it lists is an input, and
    whether deleting a file succeeds is recorded on the file. */
module UploadCleanup {
  import opened Common

  /** A listed file: its `display_name` (absent or `None` read as the
      empty name) and the answer `delete_file` gives for it. */
  datatype RemoteFile = RemoteFile(displayName: Option<string>, deleteSucceeds: bool)

  /** What happens to one listed file. */
  datatype Fate = Keeper | Unmatched | Deleted | DeleteFailed

  datatype PurgeCounts = PurgeCounts(total: int, deleted: int, skipped: int)

  function DisplayName(f: RemoteFile): string
  {
    if f.displayName.None? then "" else f.displayName.value
  }

  predicate MatchesPrefix(dn: string, prefixes: seq<string>)
  {
    exists i :: 0 <= i < |prefixes| && StartsWith(dn, prefixes[i])
  }

  /** The fate of a file: a name in `keep` is kept; otherwise the file is
      deleted when `deleteAll` is set or its name starts with one of the
      prefixes, and left alone when not; a delete can fail. A missing
      `delete_prefixes` or `keep_display_names` is the empty one. */
  function FateOf(f: RemoteFile, prefixes: seq<string>, keep: set<string>, deleteAll: bool): Fate
  {
    var dn := DisplayName(f);
    if dn in keep then Keeper
    else if !(deleteAll || MatchesPrefix(dn, prefixes)) then Unmatched
    else if f.deleteSucceeds then Deleted
    else DeleteFailed
  }

  /** The files handed to `delete_file`, in listing order. */
  function DeleteCalls(files: seq<RemoteFile>, prefixes: seq<string>, keep: set<string>, deleteAll: bool): seq<RemoteFile>
  {
    if files == [] then []
    else
      var f := files[|files| - 1];
      var fate := FateOf(f, prefixes, keep, deleteAll);
      DeleteCalls(files[..|files| - 1], prefixes, keep, deleteAll) + (if fate == Deleted || fate == DeleteFailed then [f] else [])
  }

  function DeletedCount(files: seq<RemoteFile>, prefixes: seq<string>, keep: set<string>, deleteAll: bool): int
  {
    if files == [] then 0
    else
      DeletedCount(files[..|files| - 1], prefixes, keep, deleteAll)
        + (if FateOf(files[|files| - 1], prefixes, keep, deleteAll) == Deleted then 1 else 0)
  }

  function SkippedCount(files: seq<RemoteFile>, prefixes: seq<string>, keep: set<string>, deleteAll: bool): int
  {
    if files == [] then 0
    else
      SkippedCount(files[..|files| - 1], prefixes, keep, deleteAll)
        + (if FateOf(files[|files| - 1], prefixes, keep, deleteAll) != Deleted then 1 else 0)
  }

  /** `api_client.list_files() or []`. */
  function Listed(listed: Option<seq<RemoteFile>>): seq<RemoteFile>
  {
    if listed.None? then [] else listed.value
  }

  /** The counts `purge_key_files` returns. */
  function Purged(listed: Option<seq<RemoteFile>>, prefixes: seq<string>, keep: set<string>, deleteAll: bool): PurgeCounts
  {
    var files := Listed(listed);
    PurgeCounts(|files|, DeletedCount(files, prefixes, keep, deleteAll), SkippedCount(files, prefixes, keep, deleteAll))
  }

  /** The loop over the prefixes, stopping at the first match. */
  method AnyPrefix(dn: string, prefixes: seq<string>) returns (found: bool)
    ensures found == MatchesPrefix(dn, prefixes)
  {
    found := false;
    var i := 0;
    while i < |prefixes|
      invariant 0 <= i <= |prefixes|
      invariant !found && forall j :: 0 <= j < i ==> !StartsWith(dn, prefixes[j])
    {
      if StartsWith(dn, prefixes[i]) {
        found := true;
        break;
      }
      i := i + 1;
    }
  }

  /** `purge_key_files(api_client, delete_prefixes=prefixes,
      keep_display_names=keep, delete_all=deleteAll)`; `calls` are the
      files passed to `delete_file`. */
  method PurgeKeyFiles(listed: Option<seq<RemoteFile>>, prefixes: seq<string>, keep: set<string>, deleteAll: bool)
    returns (counts: PurgeCounts, calls: seq<RemoteFile>)
    ensures counts == Purged(listed, prefixes, keep, deleteAll)
    ensures calls == DeleteCalls(Listed(listed), prefixes, keep, deleteAll)
  {
    var files := if listed.None? then [] else listed.value;
    var deleted, skipped := 0, 0;
    calls := [];
    var i := 0;
    while i < |files|
      invariant 0 <= i <= |files|
      invariant deleted == DeletedCount(files[..i], prefixes, keep, deleteAll)
      invariant skipped == SkippedCount(files[..i], prefixes, keep, deleteAll)
      invariant calls == DeleteCalls(files[..i], prefixes, keep, deleteAll)
    {
      assert files[..i + 1][..i] == files[..i];
      var f := files[i];
      var dn := if f.displayName.None? then "" else f.displayName.value;
      if dn in keep {
        skipped := skipped + 1;
      } else {
        var shouldDelete := deleteAll;
        if !shouldDelete && prefixes != [] {
          shouldDelete := AnyPrefix(dn, prefixes);
        }
        if !shouldDelete {
          skipped := skipped + 1;
        } else {
          calls := calls + [f];
          if f.deleteSucceeds {
            deleted := deleted + 1;
          } else {
            skipped := skipped + 1;
          }
        }
      }
      i := i + 1;
    }
    assert files[..i] == files;
    counts := PurgeCounts(|files|, deleted, skipped);
  }

  // ---------------------------------------------------------------------
  // What the purge promises
  // ---------------------------------------------------------------------

  /** Every listed file is counted once: deleted and skipped add up to the
      total, and neither is negative. */
  lemma {:induction false} PurgeTotals(files: seq<RemoteFile>, prefixes: seq<string>, keep: set<string>, deleteAll: bool)
    ensures var d, s := DeletedCount(files, prefixes, keep, deleteAll), SkippedCount(files, prefixes, keep, deleteAll);
      d >= 0 && s >= 0 && d + s == |files|
  {
    if files != [] {
      PurgeTotals(files[..|files| - 1], prefixes, keep, deleteAll);
    }
  }

  /** A file reaches `delete_file` exactly when its name is not kept and
      either everything is to go or its name starts with a prefix; in
      particular a kept name is never deleted. */
  lemma {:induction false} DeleteCallsSpec(files: seq<RemoteFile>, prefixes: seq<string>, keep: set<string>, deleteAll: bool,
                                           f: RemoteFile)
    ensures f in DeleteCalls(files, prefixes, keep, deleteAll) <==>
      f in files && DisplayName(f) !in keep && (deleteAll || MatchesPrefix(DisplayName(f), prefixes))
  {
    if files != [] {
      var n := |files| - 1;
      DeleteCallsSpec(files[..n], prefixes, keep, deleteAll, f);
      assert files == files[..n] + [files[n]];
    }
  }

  /** Only deletes that succeed are counted as deleted: a failed one is
      counted as skipped. */
  lemma {:induction false} DeletedAreSuccesses(files: seq<RemoteFile>, prefixes: seq<string>, keep: set<string>, deleteAll: bool)
    ensures DeletedCount(files, prefixes, keep, deleteAll) ==
      |Keep(DeleteCalls(files, prefixes, keep, deleteAll), Succeeds)|
  {
    if files != [] {
      var n := |files| - 1;
      DeletedAreSuccesses(files[..n], prefixes, keep, deleteAll);
      var fate := FateOf(files[n], prefixes, keep, deleteAll);
      var before := DeleteCalls(files[..n], prefixes, keep, deleteAll);
      if fate == Deleted || fate == DeleteFailed {
        assert DeleteCalls(files, prefixes, keep, deleteAll) == before + [files[n]];
        KeepSnoc(before, files[n], Succeeds);
        assert Succeeds(files[n]) <==> fate == Deleted;
      } else {
        assert DeleteCalls(files, prefixes, keep, deleteAll) == before;
      }
    }
  }

  predicate Succeeds(f: RemoteFile) { f.deleteSucceeds }

  /** With nothing to keep and `deleteAll`, every listed file reaches
      `delete_file`; with neither `deleteAll` nor prefixes, none does. */
  lemma PurgeExtremes(files: seq<RemoteFile>, prefixes: seq<string>, f: RemoteFile)
    ensures f in files ==> f in DeleteCalls(files, prefixes, {}, true)
    ensures DeleteCalls(files, [], {}, false) == []
  {
    DeleteCallsSpec(files, prefixes, {}, true, f);
    NoCalls(files);
  }

  lemma {:induction false} NoCalls(files: seq<RemoteFile>)
    ensures DeleteCalls(files, [], {}, false) == []
  {
    if files != [] {
      NoCalls(files[..|files| - 1]);
    }
  }
}
